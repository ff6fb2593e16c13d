/** Receiver statistics of one source: extended highest number, loss and interarrival jitter
    (sections 6.4.1, A.3 and A.8 of RFC 3550). */
module ReceiverStats {
  import opened Words

  const CYCLE := 0x1_0000

  datatype Stats = Stats(started: bool, base: nat, cycles: nat, max: nat, expected: int, received: nat,
                         expectedPrior: int, receivedPrior: nat, jitter: int, lastArrival: U32, lastRtp: U32)

  const FRESH := Stats(false, 0, 0, 0, 0, 0, 0, 0, 0, 0, 0)

  function ExtendedMax(s: Stats): nat {
    s.cycles + s.max
  }

  /** `static_cast<int>` of an unsigned 32-bit difference. */
  function AsInt32(x: int): (r: int)
    ensures -0x8000_0000 <= r < 0x8000_0000
  {
    var u := x % 0x1_0000_0000;
    if u < 0x8000_0000 then u else u - 0x1_0000_0000
  }

  function Abs(x: int): nat {
    if x < 0 then -x else x
  }

  /** How much more, or less, time passed between two arrivals than between their timestamps. */
  function Difference(lastArrival: U32, lastRtp: U32, arrival: U32, rtp: U32): nat {
    Abs(AsInt32(arrival - lastArrival) - AsInt32(rtp - lastRtp))
  }

  function Transit(s: Stats, rtp: U32, arrival: U32): nat {
    Difference(s.lastArrival, s.lastRtp, arrival, rtp)
  }

  function NextJitter(jitter: int, lastArrival: U32, lastRtp: U32, arrival: U32, rtp: U32): int {
    if lastArrival != 0 then jitter + Difference(lastArrival, lastRtp, arrival, rtp) - (jitter + 8) / 16 else jitter
  }

  function Highest(s: Stats, num: U16): Stats {
    if num < s.max then
      if s.max - num > 0x8000 then s.(cycles := s.cycles + CYCLE, max := num) else s
    else s.(max := num)
  }

  function Started(s: Stats, num: U16): Stats {
    if s.started then s else s.(started := true, base := num)
  }

  function Track(s: Stats, num: U16, rtp: U32, arrival: U32): Stats {
    var b := Highest(Started(s, num), num);
    b.(expected := b.cycles + b.max - b.base + 1, received := b.received + 1,
       jitter := NextJitter(b.jitter, b.lastArrival, b.lastRtp, arrival, rtp), lastArrival := arrival, lastRtp := rtp)
  }

  function AdvancePrior(s: Stats): Stats {
    s.(expectedPrior := s.expected, receivedPrior := s.received)
  }

  /** The loss fraction of the current interval before the cast to eight bits. */
  function Fraction(s: Stats): int {
    var ei, li := s.expected - s.expectedPrior, (s.expected - s.expectedPrior) - (s.received - s.receivedPrior);
    if ei <= 0 || li <= 0 then 0 else li * 256 / ei
  }

  // ---------------------------------------------------------------------------------------------
  // The extended highest number

  /** Tracking the packet with true index `t` brings the extended maximum to the true maximum exactly when `t` is less
      than half a cycle ahead or ahead within the same cycle, or is late with a number that is at most half a cycle
      behind that of the maximum. */
  lemma HighestIsTrueIff(s: Stats, t: nat)
    requires s.max < CYCLE && s.cycles % CYCLE == 0
    ensures var m := ExtendedMax(s);
            ExtendedMax(Highest(s, t % CYCLE)) == Max(m, t) <==>
            if t >= m then t < m + 0x8000 || t < s.cycles + CYCLE
            else s.max - 0x8000 <= t % CYCLE <= s.max
  {
    var num := t % CYCLE;
    assert t == t / CYCLE * CYCLE + num && s.cycles == s.cycles / CYCLE * CYCLE;
    var q, c := t / CYCLE, s.cycles / CYCLE;
    assert t >= ExtendedMax(s) ==> q >= c;
    assert t < ExtendedMax(s) ==> q <= c;
  }

  // ---------------------------------------------------------------------------------------------
  // Whole runs

  datatype Event = Packet(num: U16, rtp: U32, arrival: U32) | Tick

  function Step(s: Stats, e: Event): Stats {
    match e
    case Packet(num, rtp, arrival) => Track(s, num, rtp, arrival)
    case Tick => AdvancePrior(s)
  }

  predicate Inv(s: Stats) {
    && s.max < CYCLE && s.cycles % CYCLE == 0
    && (if s.started then s.base <= ExtendedMax(s) && s.expected == ExtendedMax(s) - s.base + 1
        else s == FRESH)
    && s.expectedPrior <= s.expected && s.receivedPrior <= s.received
    && (s.expected > s.expectedPrior ==> s.received > s.receivedPrior)
  }

  lemma StepKeepsInv(s: Stats, e: Event)
    requires Inv(s)
    ensures Inv(Step(s, e)) && ExtendedMax(Step(s, e)) >= ExtendedMax(s)
  {
  }

  function Run(s: Stats, es: seq<Event>): Stats
    decreases |es|
  {
    if es == [] then s else Run(Step(s, es[0]), es[1..])
  }

  /** In every run the extended maximum never decreases, an interval in which packets were expected received at least
      one, and so the loss fraction always fits eight bits. */
  lemma {:induction false} RunIsSane(s: Stats, es: seq<Event>)
    requires Inv(s)
    ensures var r := Run(s, es);
            && Inv(r) && ExtendedMax(r) >= ExtendedMax(s)
            && (r.expected > r.expectedPrior ==> r.received >= r.receivedPrior + 1)
            && 0 <= Fraction(r) < 0x100
    decreases |es|
  {
    if es == [] {
      FractionFits(s);
    } else {
      hide Fraction, Step;
      StepKeepsInv(s, es[0]);
      RunIsSane(Step(s, es[0]), es[1..]);
    }
  }

  lemma FractionFits(s: Stats)
    requires Inv(s)
    ensures 0 <= Fraction(s) < 0x100
  {
    var ei := s.expected - s.expectedPrior;
    var li := ei - (s.received - s.receivedPrior);
    if ei > 0 && li > 0 {
      QuotientBelow(li * 256, ei);
    }
  }

  lemma QuotientBelow(a: nat, b: nat)
    requires 0 < b && a < 256 * b
    ensures 0 <= a / b < 256
  {
    assert a == b * (a / b) + a % b;
    if a / b >= 256 {
      ProductAtLeast(b, a / b, 256);
    }
  }

  lemma ProductAtLeast(b: nat, q: int, k: int)
    requires q >= k
    ensures b * q >= b * k
  {
  }

  /** The fraction is the lost share of the interval in 256ths, rounded down. */
  lemma FractionIsShare(s: Stats)
    requires Inv(s)
    ensures var ei, ri := s.expected - s.expectedPrior, s.received - s.receivedPrior;
            && (ri >= ei ==> Fraction(s) == 0)
            && (ri < ei ==> Fraction(s) * ei <= 256 * (ei - ri) < (Fraction(s) + 1) * ei)
  {
    var ei := s.expected - s.expectedPrior;
    var li := ei - (s.received - s.receivedPrior);
    if li > 0 {
      Quotient(li * 256, ei);
    }
  }

  lemma Quotient(a: int, e: int)
    requires e > 0
    ensures var f := a / e; f * e <= a < (f + 1) * e
  {
    var f := a / e;
    assert a == e * f + a % e;
    assert (f + 1) * e == e * f + e;
  }

  /** A packet by its true index. */
  datatype Indexed = Indexed(t: nat, rtp: U32, arrival: U32)

  function TrackOne(s: Stats, x: Indexed): Stats {
    Track(s, x.t % CYCLE, x.rtp, x.arrival)
  }

  function TrackAll(s: Stats, xs: seq<Indexed>): Stats
    decreases |xs|
  {
    if xs == [] then s else TrackAll(TrackOne(s, xs[0]), xs[1..])
  }

  predicate Reaches(s: Stats, t: nat) {
    if !s.started then t < CYCLE
    else if t >= ExtendedMax(s) then t < ExtendedMax(s) + 0x8000 || t < s.cycles + CYCLE
    else s.max - 0x8000 <= t % CYCLE <= s.max
  }

  /** Each packet is within the reach of the extended maximum when it is tracked. */
  predicate InReach(s: Stats, xs: seq<Indexed>)
    decreases |xs|
  {
    xs != [] ==> Reaches(s, xs[0].t) && InReach(TrackOne(s, xs[0]), xs[1..])
  }

  lemma TrackedMax(s: Stats, x: Indexed)
    ensures ExtendedMax(TrackOne(s, x)) == ExtendedMax(Highest(s, x.t % CYCLE))
  {
    hide NextJitter;
  }

  lemma ReachedMax(s: Stats, x: Indexed)
    requires Inv(s) && Reaches(s, x.t)
    ensures ExtendedMax(TrackOne(s, x)) == Max(ExtendedMax(s), x.t)
  {
    hide Highest, TrackOne;
    HighestIsTrueIff(s, x.t);
    TrackedMax(s, x);
  }

  function Largest(m: nat, xs: seq<Indexed>): nat
    decreases |xs|
  {
    if xs == [] then m else Largest(Max(m, xs[0].t), xs[1..])
  }

  /** As long as every packet is in reach, the extended maximum is the largest true index seen. */
  lemma {:induction false} RunMaxIsTrue(s: Stats, xs: seq<Indexed>)
    requires Inv(s) && InReach(s, xs)
    ensures ExtendedMax(TrackAll(s, xs)) == Largest(ExtendedMax(s), xs)
    decreases |xs|
  {
    if xs != [] {
      hide Inv, Reaches, Track, ExtendedMax;
      StepKeepsInv(s, Packet(xs[0].t % CYCLE, xs[0].rtp, xs[0].arrival));
      ReachedMax(s, xs[0]);
      RunMaxIsTrue(TrackOne(s, xs[0]), xs[1..]);
    }
  }

  /** The gap test after a packet says whether the extended maximum moved up by more than one. */
  lemma GapIffJump(s: Stats, num: U16, rtp: U32, arrival: U32)
    requires Inv(s) && s.started
    ensures CheckGap(Track(s, num, rtp, arrival), s.expected) <==> ExtendedMax(Track(s, num, rtp, arrival)) > ExtendedMax(s) + 1
  {
  }

  function CheckGap(s: Stats, previousExpected: int): bool {
    s.started && s.expected > previousExpected + 1
  }

  lemma CyclesWrap(q: nat, max: nat)
    requires max < CYCLE
    ensures var r := (q * CYCLE + max) % 0x1_0000_0000; r % CYCLE == max && r / CYCLE == q % 0x1_0000
  {
    var r := q % 0x1_0000 * CYCLE + max;
    assert q == q / 0x1_0000 * 0x1_0000 + q % 0x1_0000;
    assert q * CYCLE + max == 0x1_0000_0000 * (q / 0x1_0000) + r;
  }

  // ---------------------------------------------------------------------------------------------
  // Jitter

  predicate TransitsWithin(s: Stats, es: seq<Event>, m: nat)
    decreases |es|
  {
    es != [] ==>
      && (es[0].Packet? && s.lastArrival != 0 ==> Transit(s, es[0].rtp, es[0].arrival) <= m)
      && TransitsWithin(Step(s, es[0]), es[1..], m)
  }

  lemma JitterStep(j: int, t: int, m: nat)
    requires 0 <= j <= 16 * m && 0 <= t <= m
    ensures 0 <= j + t - (j + 8) / 16 <= 16 * m
  {
  }

  /** When no transit difference exceeds `m`, the estimate, kept in sixteenths, stays within [0, 16 m]. */
  lemma {:induction false} JitterStaysBounded(s: Stats, es: seq<Event>, m: nat)
    requires 0 <= s.jitter <= 16 * m && TransitsWithin(s, es, m)
    ensures 0 <= Run(s, es).jitter <= 16 * m
    decreases |es|
  {
    if es != [] {
      hide Highest, Transit;
      if es[0].Packet? && s.lastArrival != 0 {
        var b := Highest(if s.started then s else s.(started := true, base := es[0].num), es[0].num);
        SameTimes(s, es[0].num);
        JitterStep(s.jitter, Transit(s, es[0].rtp, es[0].arrival), m);
      } else if es[0].Packet? {
        SameTimes(s, es[0].num);
      }
      JitterStaysBounded(Step(s, es[0]), es[1..], m);
    }
  }

  lemma SameTimes(s: Stats, num: U16)
    ensures var b := Highest(Started(s, num), num);
            && b.jitter == s.jitter && b.lastArrival == s.lastArrival
            && forall rtp, arrival :: Transit(b, rtp, arrival) == Transit(s, rtp, arrival)
  {
  }

  predicate InInt(x: int) {
    -0x8000_0000 <= x < 0x8000_0000
  }

  /** No value computed on the way to the next estimate leaves a 32-bit `int`. */
  predicate NoOverflow(jitter: int, lastArrival: U32, lastRtp: U32, arrival: U32, rtp: U32) {
    var difference := AsInt32(arrival - lastArrival) - AsInt32(rtp - lastRtp);
    lastArrival != 0 ==>
      && InInt(difference) && InInt(Abs(difference)) && InInt(jitter + 8) && InInt(Abs(difference) - (jitter + 8) / 16)
      && InInt(jitter + Abs(difference) - (jitter + 8) / 16)
  }

  predicate NeverOverflows(s: Stats, es: seq<Event>)
    decreases |es|
  {
    es != [] ==>
      && (es[0].Packet? ==> NoOverflow(s.jitter, s.lastArrival, s.lastRtp, es[0].arrival, es[0].rtp))
      && NeverOverflows(Step(s, es[0]), es[1..])
  }

  /** The largest bound on transit differences, about 25 minutes at 90 kHz, for which the arithmetic is safe. */
  const SAFE_TRANSIT := 0x7FF_FFFF

  lemma StepFits(j: int, lastArrival: U32, lastRtp: U32, arrival: U32, rtp: U32, m: nat)
    requires 0 <= j <= 16 * m && m <= SAFE_TRANSIT
    requires lastArrival != 0 ==> Difference(lastArrival, lastRtp, arrival, rtp) <= m
    ensures NoOverflow(j, lastArrival, lastRtp, arrival, rtp) && 0 <= NextJitter(j, lastArrival, lastRtp, arrival, rtp) <= 16 * m
  {
    hide AsInt32;
    if lastArrival != 0 {
      JitterStep(j, Difference(lastArrival, lastRtp, arrival, rtp), m);
    }
  }

  /** While no transit difference exceeds the bound, the 32-bit arithmetic of the estimate is exact in every run. */
  lemma {:induction false} JitterFitsInt(s: Stats, es: seq<Event>, m: nat)
    requires 0 <= s.jitter <= 16 * m && TransitsWithin(s, es, m) && m <= SAFE_TRANSIT
    ensures NeverOverflows(s, es)
    decreases |es|
  {
    if es != [] {
      hide Highest, NoOverflow, Difference, NextJitter;
      if es[0].Packet? {
        SameTimes(s, es[0].num);
        StepFits(s.jitter, s.lastArrival, s.lastRtp, es[0].arrival, es[0].rtp, m);
      }
      JitterFitsInt(Step(s, es[0]), es[1..], m);
    }
  }

  /** A packet whose transit differs by one more than the bound. */
  function Late(s: Stats): Event {
    Packet(s.max % CYCLE, s.lastRtp, (s.lastArrival + SAFE_TRANSIT + 1) % 0x1_0000_0000)
  }

  lemma LateStep(s: Stats)
    requires s.lastArrival % 2 == 1 && 0 <= s.jitter
    ensures var t, e := Step(s, Late(s)), Late(s);
            && t.lastArrival % 2 == 1 && t.lastArrival == e.arrival && t.jitter == s.jitter + SAFE_TRANSIT + 1 - (s.jitter + 8) / 16
            && Transit(s, e.rtp, e.arrival) == SAFE_TRANSIT + 1
            && (s.jitter + 8 >= 0x8000_0000 ==> !NoOverflow(s.jitter, s.lastArrival, s.lastRtp, e.arrival, e.rtp))
  {
    SameTimes(s, s.max % CYCLE);
  }

  /** One more is too much: such differences, packet after packet, lead to an overflow. */
  lemma {:induction false} LargerTransitsOverflow(s: Stats) returns (es: seq<Event>)
    requires s.lastArrival % 2 == 1 && 0 <= s.jitter
    ensures TransitsWithin(s, es, SAFE_TRANSIT + 1) && !NeverOverflows(s, es)
    decreases 0x8000_0000 - s.jitter
  {
    hide Track, Highest, NoOverflow, Transit;
    LateStep(s);
    var e := Late(s);
    if s.jitter + 8 >= 0x8000_0000 {
      es := [e];
    } else {
      var more := LargerTransitsOverflow(Step(s, e));
      es := [e] + more;
      assert es[1..] == more;
    }
  }

  // ---------------------------------------------------------------------------------------------
  // The context object

  class Context {
    var started: bool
    var base: nat
    var cycles: nat
    var max: nat
    var expected: int
    var received: nat
    var expectedPrior: int
    var receivedPrior: nat
    var jitter: int
    var lastArrival: U32
    var lastRtp: U32

    ghost function View(): Stats
      reads this
    {
      Stats(started, base, cycles, max, expected, received, expectedPrior, receivedPrior, jitter, lastArrival, lastRtp)
    }

    constructor ()
      ensures View() == FRESH
    {
      started, base, cycles, max, expected, received := false, 0, 0, 0, 0, 0;
      expectedPrior, receivedPrior, jitter, lastArrival, lastRtp := 0, 0, 0, 0, 0;
    }

    method TrackPacket(num: U16, rtp: U32, arrival: U32)
      requires Inv(View())
      modifies this
      ensures View() == Track(old(View()), num, rtp, arrival) && Inv(View())
    {
      StepKeepsInv(View(), Packet(num, rtp, arrival));
      hide Inv, NextJitter, Highest, Started;
      TrackHighest(num);
      expected := cycles + max - base + 1;
      received := received + 1;
      TrackTimes(rtp, arrival);
    }

    /** The part of tracking that extends the highest number. */
    method TrackHighest(num: U16)
      modifies `started, `base, `cycles, `max
      ensures View() == Highest(Started(old(View()), num), num)
    {
      if !started {
        base := num;
        started := true;
      }
      if num < max {
        if max - num > 0x8000 {
          cycles := cycles + CYCLE;
          max := num;
        }
      } else {
        max := num;
      }
    }

    /** The part of tracking that estimates the jitter. */
    method TrackTimes(rtp: U32, arrival: U32)
      modifies `jitter, `lastArrival, `lastRtp
      ensures jitter == NextJitter(old(jitter), old(lastArrival), old(lastRtp), arrival, rtp) && lastArrival == arrival && lastRtp == rtp
    {
      hide AsInt32;
      if lastArrival != 0 {
        var transit := AsInt32(arrival - lastArrival) - AsInt32(rtp - lastRtp);
        if transit < 0 {
          transit := -transit;
        }
        jitter := jitter + transit - (jitter + 8) / 16;
      }
      lastArrival := arrival;
      lastRtp := rtp;
    }

    method Advance()
      requires Inv(View())
      modifies this
      ensures View() == AdvancePrior(old(View())) && Inv(View())
    {
      expectedPrior := expected;
      receivedPrior := received;
    }

    /** The eight-bit loss fraction that goes into a report block. */
    method FractionLost() returns (f: U8)
      requires Inv(View())
      ensures f == Fraction(View())
    {
      FractionFits(View());
      var ei, ri := expected - expectedPrior, received - receivedPrior;
      var li := ei - ri;
      if ei == 0 || li <= 0 {
        return 0;
      }
      f := li * 256 / ei;
    }

    /** The 32-bit extended highest number of a report block: the low half is the highest number, the high half counts its
        cycles modulo 65536. */
    method ReportedMax() returns (r: U32)
      requires Inv(View())
      ensures r % CYCLE == max && r / CYCLE == cycles / CYCLE % 0x1_0000
      ensures ExtendedMax(View()) < 0x1_0000_0000 ==> r == ExtendedMax(View())
    {
      CyclesWrap(cycles / CYCLE, max);
      r := (cycles + max) % 0x1_0000_0000;
    }

    method ResetStats()
      modifies this
      ensures View() == FRESH
    {
      started, base, cycles, max, expected, received := false, 0, 0, 0, 0, 0;
      expectedPrior, receivedPrior, jitter, lastArrival, lastRtp := 0, 0, 0, 0, 0;
    }
  }
}
