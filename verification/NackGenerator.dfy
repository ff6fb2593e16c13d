/** Receive-side loss bookkeeping: which RTP sequence numbers are missing and when to ask for them.

    The implementation is a ring of `h` slots addressed by 16-bit sequence numbers.  The specification is
    a map over *unwrapped* (unbounded) numbers that is never cleaned: the ring agrees with it on the whole
    window, and everything that matters over a run is proved about the map. */
module NackGenerator {
  import opened Words

  /** State of one packet number (nack_info). */
  datatype Info = Info(received: bool, nacked: bool, retries: nat, last: int)

  const FRESH := Info(false, false, 0, 0)

  /** One request that was sent: the unwrapped number, the time and the back-off in force. */
  datatype Ask = Ask(num: int, at: int, backoff: int)

  /** The unbounded reference: every number ever seen keeps its own entry. */
  datatype Model = Model(h: nat, maxRetries: nat, rtt: int,
                         started: bool, hi: int, lo: int,
                         info: map<int, Info>, log: seq<Ask>)

  // ---------------------------------------------------------------------------------------------
  // Reference behaviour over unwrapped numbers

  function Initial(h: nat, maxRetries: nat, rtt: int): Model {
    Model(h, maxRetries, rtt, false, 0, 0, map[], [])
  }

  function At(info: map<int, Info>, n: int): Info {
    if n in info then info[n] else FRESH
  }

  function Arrive(m: Model, n: int): Model {
    m.(hi := Max(m.hi, n),
       lo := Max(m.lo, n - m.h + 1),
       info := if n > m.hi - m.h then m.info[n := At(m.info, n).(received := true)] else m.info)
  }

  function Receive(m: Model, s: U16): Model {
    if !m.started then
      m.(started := true, hi := s, lo := s, info := m.info[s := FRESH.(received := true)])
    else
      Arrive(m, m.hi + SeqDistance(Low16(m.hi), s))
  }

  /** A missing number is due when it has retries left and was never asked for, or long enough ago. */
  predicate Due(m: Model, now: int, i: Info) {
    !i.received && i.retries < m.maxRetries && (i.nacked ==> now - i.last >= m.rtt + 20)
  }

  function Touch(m: Model, now: int, i: Info): Info {
    if Due(m, now, i) then Info(false, true, i.retries + 1, now)
    else i.(received := i.received || i.retries >= m.maxRetries)
  }

  function Visit(m: Model, now: int, n: int): Model {
    var i := At(m.info, n);
    m.(info := m.info[n := Touch(m, now, i)],
       log := if Due(m, now, i) then m.log + [Ask(n, now, m.rtt + 20)] else m.log)
  }

  /** Visits hi-1, hi-2, ..., hi-k. */
  function Scan(m: Model, now: int, k: nat): Model {
    if k == 0 then m else Visit(Scan(m, now, k - 1), now, m.hi - k)
  }

  function Poll(m: Model, now: int): Model {
    if m.started && m.hi - m.lo >= 2 then Scan(m, now, m.hi - m.lo - 1) else m
  }

  function UpdateRtt(m: Model, sample: int): Model {
    m.(rtt := TruncDiv(m.rtt * 7 + sample, 8))
  }

  function Nums(log: seq<Ask>): seq<U16> {
    seq(|log|, i requires 0 <= i < |log| => Low16(log[i].num))
  }

  /** The requests for number `n`, in the order they were sent. */
  function AsksOf(log: seq<Ask>, n: int): seq<Ask> {
    if log == [] then []
    else
      var last := log[|log| - 1];
      AsksOf(log[..|log| - 1], n) + if last.num == n then [last] else []
  }

  // ---------------------------------------------------------------------------------------------
  // One poll, point by point

  lemma VisitPointwise(m: Model, now: int, n: int, k: int)
    ensures Visit(m, now, n) == m.(info := Visit(m, now, n).info, log := Visit(m, now, n).log)
    ensures At(Visit(m, now, n).info, k) == if k == n then Touch(m, now, At(m.info, k)) else At(m.info, k)
    ensures AsksOf(Visit(m, now, n).log, k) ==
            AsksOf(m.log, k) + if k == n && Due(m, now, At(m.info, n)) then [Ask(n, now, m.rtt + 20)] else []
  {
    if Due(m, now, At(m.info, n)) {
      assert Visit(m, now, n).log[..|m.log|] == m.log;
    }
  }

  lemma ScanStep(m: Model, now: int, k: nat)
    ensures Scan(m, now, 0) == m && Scan(m, now, k + 1) == Visit(Scan(m, now, k), now, m.hi - (k + 1))
  {
  }

  lemma {:induction false} ScanKeeps(m: Model, now: int, k: nat)
    ensures Scan(m, now, k) == m.(info := Scan(m, now, k).info, log := Scan(m, now, k).log)
  {
    hide Scan, Visit;
    ScanStep(m, now, if k > 0 then k - 1 else 0);
    if k > 0 {
      ScanKeeps(m, now, k - 1);
      VisitPointwise(Scan(m, now, k - 1), now, m.hi - k, m.hi - k);
    }
  }

  lemma {:induction false} ScanInfo(m: Model, now: int, k: nat, n: int)
    ensures At(Scan(m, now, k).info, n) == if m.hi - k <= n < m.hi then Touch(m, now, At(m.info, n)) else At(m.info, n)
  {
    hide Scan, Visit, At, Touch, AsksOf;
    ScanStep(m, now, if k > 0 then k - 1 else 0);
    if k > 0 {
      var s := Scan(m, now, k - 1);
      ScanInfo(m, now, k - 1, n);
      ScanKeeps(m, now, k - 1);
      VisitPointwise(s, now, m.hi - k, n);
      DueSame(m, s, now, At(s.info, n));
    }
  }

  /** The request a scan makes for one number. */
  function AskFor(m: Model, now: int, k: nat, n: int): seq<Ask> {
    if m.hi - k <= n < m.hi && Due(m, now, At(m.info, n)) then [Ask(n, now, m.rtt + 20)] else []
  }

  lemma {:induction false} ScanLog(m: Model, now: int, k: nat, n: int)
    ensures AsksOf(Scan(m, now, k).log, n) == AsksOf(m.log, n) + AskFor(m, now, k, n)
  {
    hide Scan, Visit, At, Touch, AsksOf, Due;
    ScanStep(m, now, if k > 0 then k - 1 else 0);
    if k > 0 {
      var s := Scan(m, now, k - 1);
      ScanLog(m, now, k - 1, n);
      ScanInfo(m, now, k - 1, n);
      ScanKeeps(m, now, k - 1);
      VisitPointwise(s, now, m.hi - k, n);
      DueSame(m, s, now, At(s.info, n));
      assert AsksOf(s.log, n) + [] == AsksOf(s.log, n) && AsksOf(m.log, n) + [] == AsksOf(m.log, n);
    } else {
      assert AsksOf(m.log, n) + [] == AsksOf(m.log, n);
    }
  }

  /** Visiting hi-1 down to hi-k treats each of those numbers once and no other number. */
  lemma ScanPointwise(m: Model, now: int, k: nat, n: int)
    ensures var s := Scan(m, now, k);
            && s == m.(info := s.info, log := s.log)
            && At(s.info, n) == (if m.hi - k <= n < m.hi then Touch(m, now, At(m.info, n)) else At(m.info, n))
            && AsksOf(s.log, n) ==
               AsksOf(m.log, n) + if m.hi - k <= n < m.hi && Due(m, now, At(m.info, n)) then [Ask(n, now, m.rtt + 20)] else []
  {
    hide Scan, At, AsksOf, Touch, Due;
    ScanKeeps(m, now, k);
    ScanInfo(m, now, k, n);
    ScanLog(m, now, k, n);
  }

  /** What is due depends on the settings only. */
  lemma DueSame(m: Model, s: Model, now: int, i: Info)
    requires s == m.(info := s.info, log := s.log)
    ensures Due(s, now, i) == Due(m, now, i) && Touch(s, now, i) == Touch(m, now, i)
  {
  }

  /** A poll asks for exactly the numbers strictly between `lo` and `hi` that are missing and due, once each;
      it gives up on those out of retries and leaves every other number alone. */
  lemma PollIsExact(m: Model, now: int, n: int)
    ensures var p := Poll(m, now);
            var open := m.started && m.lo < n < m.hi;
            && p == m.(info := p.info, log := p.log)
            && At(p.info, n) == (if open then Touch(m, now, At(m.info, n)) else At(m.info, n))
            && AsksOf(p.log, n) ==
               AsksOf(m.log, n) + if open && Due(m, now, At(m.info, n)) then [Ask(n, now, m.rtt + 20)] else []
  {
    if m.started && m.hi - m.lo >= 2 {
      ScanPointwise(m, now, m.hi - m.lo - 1, n);
    }
  }

  predicate AsksFor(asks: seq<Ask>, n: int) {
    exists a :: a in asks && a.num == n
  }

  lemma {:induction false} ScanAsks(m: Model, now: int, k: nat, n: int)
    ensures var s := Scan(m, now, k);
            && |m.log| <= |s.log| <= |m.log| + k
            && (AsksFor(s.log[|m.log|..], n) <==> m.hi - k <= n < m.hi && Due(m, now, At(m.info, n)))
  {
    hide Scan, At, Due;
    ScanStep(m, now, if k > 0 then k - 1 else 0);
    if k > 0 {
      var s, x := Scan(m, now, k - 1), m.hi - k;
      ScanAsks(m, now, k - 1, n);
      ScanKeeps(m, now, k - 1);
      ScanInfo(m, now, k - 1, x);
      DueSame(m, s, now, At(s.info, x));
      AsksAppend(s.log[|m.log|..], Ask(x, now, m.rtt + 20), n);
      assert (s.log + [Ask(x, now, m.rtt + 20)])[|m.log|..] == s.log[|m.log|..] + [Ask(x, now, m.rtt + 20)];
    }
  }

  lemma AsksAppend(asks: seq<Ask>, a: Ask, n: int)
    ensures AsksFor(asks + [a], n) <==> AsksFor(asks, n) || a.num == n
  {
    if a.num == n {
      assert a in asks + [a];
    }
    if AsksFor(asks, n) {
      var b :| b in asks && b.num == n;
      assert b in asks + [a];
    }
  }

  /** What one poll returns. */
  function Requests(m: Model, now: int): seq<U16>
    requires |m.log| <= |Poll(m, now).log|
  {
    Nums(Poll(m, now).log[|m.log|..])
  }

  /** The requests of a poll are those of the numbers strictly between `lo` and `hi` that are missing and due. */
  lemma RequestsAre(m: Model, now: int)
    ensures |m.log| <= |Poll(m, now).log|
    ensures m.started && m.lo < m.hi ==> |Requests(m, now)| < m.hi - m.lo
    ensures forall n :: m.started && m.lo < n < m.hi && Due(m, now, At(m.info, n)) ==> Low16(n) in Requests(m, now)
    ensures forall x :: x in Requests(m, now) ==>
                          exists n :: m.started && m.lo < n < m.hi && Due(m, now, At(m.info, n)) && Low16(n) == x
  {
    hide Scan, Due, At, Low16;
    if m.started && m.hi - m.lo >= 2 {
      var k := m.hi - m.lo - 1;
      ScanAsks(m, now, k, 0);
      var asks := Scan(m, now, k).log[|m.log|..];
      forall n | m.lo < n < m.hi && Due(m, now, At(m.info, n)) ensures Low16(n) in Nums(asks) {
        ScanAsks(m, now, k, n);
        var a :| a in asks && a.num == n;
        var i :| 0 <= i < |asks| && asks[i] == a;
        assert Nums(asks)[i] == Low16(n);
      }
      forall x | x in Nums(asks) ensures exists n :: m.lo < n < m.hi && Due(m, now, At(m.info, n)) && Low16(n) == x {
        var i :| 0 <= i < |asks| && Nums(asks)[i] == x;
        ScanAsks(m, now, k, asks[i].num);
        assert AsksFor(asks, asks[i].num);
      }
    }
  }

  // ---------------------------------------------------------------------------------------------
  // Whole runs

  datatype Event = Packet(s: U16) | Tick(now: int) | RttSample(sample: int)

  function Step(m: Model, e: Event): Model {
    match e
    case Packet(s) => Receive(m, s)
    case Tick(now) => Poll(m, now)
    case RttSample(sample) => UpdateRtt(m, sample)
  }

  function Run(m: Model, es: seq<Event>): Model {
    if es == [] then m else Step(Run(m, es[..|es| - 1]), es[|es| - 1])
  }

  /** Consecutive requests are separated by the back-off in force at the later one. */
  predicate Spaced(asks: seq<Ask>) {
    forall i :: 0 < i < |asks| ==> asks[i].at - asks[i - 1].at >= asks[i].backoff
  }

  /** What one number's entry and its request history always satisfy. */
  predicate EntryOk(m: Model, n: int) {
    var i, asks := At(m.info, n), AsksOf(m.log, n);
    && |asks| == i.retries <= m.maxRetries
    && (i.nacked <==> i.retries > 0)
    && (asks != [] ==> asks[|asks| - 1].at == i.last)
    && Spaced(asks)
  }

  ghost predicate Inv(m: Model) {
    && (m.started ==> 0 <= m.hi - m.lo < m.h)
    && (!m.started ==> m.info == map[])
    && (forall n :: n in m.info ==> n <= m.hi)
    && (forall n {:trigger EntryOk(m, n)} :: EntryOk(m, n))
  }

  lemma StepKeepsEntry(m: Model, e: Event, n: int)
    requires EntryOk(m, n) && (!m.started ==> m.info == map[])
    ensures EntryOk(Step(m, e), n)
  {
    hide Low16, SeqDistance, AsksOf, Poll;
    match e
    case Tick(now) => PollIsExact(m, now, n);
    case Packet(s) =>
      if !m.started {
        assert At(m.info, n) == FRESH;
      }
    case RttSample(_) =>
  }

  lemma ScanKeys(m: Model, now: int, k: nat)
    requires forall n :: n in m.info ==> n <= m.hi
    ensures var s := Scan(m, now, k); s.hi == m.hi && forall n :: n in s.info ==> n <= m.hi
  {
  }

  lemma StepKeepsInv(m: Model, e: Event)
    requires m.h > 0 && Inv(m)
    ensures Inv(Step(m, e)) && Step(m, e).h == m.h
  {
    forall n ensures EntryOk(Step(m, e), n) {
      assert EntryOk(m, n);
      StepKeepsEntry(m, e, n);
    }
    if e.Tick? {
      PollIsExact(m, e.now, 0);
      if m.started && m.hi - m.lo >= 2 {
        ScanKeys(m, e.now, m.hi - m.lo - 1);
      }
    }
  }

  /** In every run: the window spans at most `h` numbers, each number is requested at most `maxRetries`
      times over its whole life, and its successive requests respect the back-off of the later call. */
  lemma {:induction false} RunIsSafe(h: nat, maxRetries: nat, rtt: int, es: seq<Event>)
    requires h > 0
    ensures var m := Run(Initial(h, maxRetries, rtt), es);
            Inv(m) && m.h == h && m.maxRetries == maxRetries
  {
    var m0 := Initial(h, maxRetries, rtt);
    if es == [] {
      forall n ensures EntryOk(m0, n) {}
    } else {
      var p := es[..|es| - 1];
      RunIsSafe(h, maxRetries, rtt, p);
      StepKeepsInv(Run(m0, p), es[|es| - 1]);
      if es[|es| - 1].Tick? {
        PollIsExact(Run(m0, p), es[|es| - 1].now, 0);
      }
    }
  }

  /** A number that is recorded as received (or given up) stays so and is never requested again. */
  lemma {:induction false} SettledStaysSettled(m: Model, es: seq<Event>, n: int)
    requires m.started && At(m.info, n).received
    ensures var r := Run(m, es);
            r.started && At(r.info, n).received && AsksOf(r.log, n) == AsksOf(m.log, n)
  {
    if es != [] {
      var p, e := Run(m, es[..|es| - 1]), es[|es| - 1];
      SettledStaysSettled(m, es[..|es| - 1], n);
      if e.Tick? {
        PollIsExact(p, e.now, n);
      }
    }
  }

  /** A packet that arrives while its number is in the window is never requested afterwards. */
  lemma ArrivedIsNeverRequested(m: Model, s: U16, es: seq<Event>)
    ensures var n := if m.started then m.hi + SeqDistance(Low16(m.hi), s) else s;
            !m.started || n > m.hi - m.h ==> AsksOf(Run(Receive(m, s), es).log, n) == AsksOf(m.log, n)
  {
    var n := if m.started then m.hi + SeqDistance(Low16(m.hi), s) else s;
    if !m.started || n > m.hi - m.h {
      SettledStaysSettled(Receive(m, s), es, n);
    }
  }

  // ---------------------------------------------------------------------------------------------
  // The ring

  /** Slot of an unwrapped number. */
  function Slot(n: int, h: nat): (k: nat)
    requires h > 0
    ensures k < h
  {
    n % h
  }

  predicate DividesSpace(h: nat) {
    h > 0 && 0x1_0000 % h == 0
  }

  /** The index computed from the low 16 bits is the slot of the number itself. */
  lemma SlotOfLowBits(n: int, h: nat)
    requires DividesSpace(h)
    ensures Slot(Low16(n), h) == Slot(n, h)
  {
    var q, k := n / 0x1_0000, 0x1_0000 / h;
    assert 0x1_0000 == k * h;
    assert n == n % 0x1_0000 + (q * k) * h by {
      assert q * (k * h) == (q * k) * h;
    }
    ModShift(n % 0x1_0000, q * k, h);
  }

  lemma ModShift(a: int, q: int, h: nat)
    requires h > 0
    ensures (a + q * h) % h == a % h
  {
    var d, r := a / h, a % h;
    assert a + q * h == (d + q) * h + r by {
      assert (d + q) * h == d * h + q * h;
    }
    ModUnique(a + q * h, d + q, r, h);
  }

  lemma ProductAtLeast(k: int, h: nat)
    requires k >= 1
    ensures k * h >= h
  {
  }

  lemma QuotientUnique(d: int, r: int, d': int, r': int, h: nat)
    requires d * h + r == d' * h + r' && 0 <= r < h && 0 <= r' < h
    ensures d == d'
  {
    var k := d' - d;
    assert k * h == d' * h - d * h;
    if k >= 1 {
      ProductAtLeast(k, h);
    } else if k <= -1 {
      ProductAtLeast(-k, h);
    }
  }

  lemma ModUnique(a: int, d: int, r: int, h: nat)
    requires h > 0 && a == d * h + r && 0 <= r < h
    ensures a % h == r
  {
    QuotientUnique(d, r, a / h, a % h, h);
  }

  lemma SlotsApart(m: int, n: int, h: nat)
    requires h > 0 && n - h < m < n
    ensures Slot(m, h) != Slot(n, h)
  {
    if Slot(m, h) == Slot(n, h) {
      var k := n / h - m / h;
      assert k * h == n - m by {
        assert k * h == n / h * h - m / h * h;
      }
      QuotientUnique(k, 0, 0, n - m, h);
    }
  }

  /** Indexing by the low 16 bits keeps the numbers of every window apart exactly when the ring size
      divides the sequence space. */
  lemma RingSizeCondition(h: nat)
    requires 0 < h < 0x1_0000
    ensures (forall m: int, n: int :: n - h < m < n ==> Slot(Low16(m), h) != Slot(Low16(n), h)) <==> DividesSpace(h)
  {
    if DividesSpace(h) {
      forall m: int, n: int | n - h < m < n
        ensures Slot(Low16(m), h) != Slot(Low16(n), h)
      {
        SlotOfLowBits(m, h);
        SlotOfLowBits(n, h);
        SlotsApart(m, n, h);
      }
    } else {
      var r := 0x1_0000 % h;
      var m, n := 0x1_0000 - r, 0x1_0000;
      ModUnique(m, 0x1_0000 / h, 0, h);
      ModUnique(0, 0, 0, h);
      assert Slot(Low16(m), h) == Slot(Low16(n), h) && n - h < m < n;
    }
  }

  /** The test that slides the lower edge, made on the 16-bit numbers, tells the truth about a window that
      was `span` long and grows by `diff`. */
  predicate SlideTestRight(h: nat, lo: int, span: nat, diff: nat) {
    SeqDistance(Low16(lo), Low16(lo + span + diff)) >= h <==> span + diff >= h
  }

  /** That test is right for every window exactly when two windows fit in half of the sequence space. */
  lemma SlideTestCondition(h: nat)
    requires 0 < h < 0x1_0000
    ensures (forall lo, span, diff | 0 <= span < h && 0 <= diff < h :: SlideTestRight(h, lo, span, diff)) <==> h <= 0x4000
  {
    if h <= 0x4000 {
      forall lo, span, diff | 0 <= span < h && 0 <= diff < h
        ensures SlideTestRight(h, lo, span, diff)
      {
        UnwrapIsExact(lo, lo + span + diff);
      }
    } else if h <= 0x8000 {
      assert !SlideTestRight(h, 0, h - 1, 0x8000 - (h - 1));
    } else {
      assert !SlideTestRight(h, 0, h - 1, 1);
    }
  }

  /** A ring slot tells the same story as the reference entry: always the received flag, and for a missing
      number everything. */
  predicate Agrees(ring: Info, entry: Info) {
    ring.received == entry.received && (!entry.received ==> ring == entry)
  }

  /** The constructor argument for which the ring is sound: it divides 65536 and two windows fit in half of
      the sequence space. */
  predicate SoundSize(h: nat) {
    0 < h <= 0x4000 && DividesSpace(h)
  }

  /** The slots of the numbers strictly between `a` and `b` agree with the reference. */
  predicate WindowOk(ring: seq<Info>, info: map<int, Info>, a: int, b: int)
    requires |ring| > 0
  {
    forall n :: a < n < b ==> Agrees(ring[Slot(n, |ring|)], At(info, n))
  }

  /** Writing the slot of one number of the window, or of the number just above it, touches no other number. */
  lemma WindowUpdate(ring: seq<Info>, info: map<int, Info>, a: int, b: int, k: int, v: Info, i: Info)
    requires |ring| > 0 && a < k <= b && b - a <= |ring| + 1 && k - a <= |ring|
    requires WindowOk(ring, info, a, b) && Agrees(v, i)
    ensures WindowOk(ring[Slot(k, |ring|) := v], info[k := i], a, Max(b, k + 1))
  {
    hide Slot;
    forall n | a < n < Max(b, k + 1) && n != k
      ensures Slot(n, |ring|) != Slot(k, |ring|)
    {
      SlotsApart(Min(k, n), Max(k, n), |ring|);
    }
  }

  lemma WindowAt(ring: seq<Info>, info: map<int, Info>, a: int, b: int, n: int)
    requires |ring| > 0 && a < n < b && WindowOk(ring, info, a, b)
    ensures Agrees(ring[Slot(n, |ring|)], At(info, n))
  {
  }

  lemma WindowShrink(ring: seq<Info>, info: map<int, Info>, a: int, b: int, a': int)
    requires |ring| > 0 && a <= a' && WindowOk(ring, info, a, b)
    ensures WindowOk(ring, info, a', b)
  {
  }

  lemma WindowSame(ring: seq<Info>, info: map<int, Info>, info': map<int, Info>, a: int, b: int)
    requires |ring| > 0 && WindowOk(ring, info, a, b)
    requires forall n :: At(info, n) == At(info', n)
    ensures WindowOk(ring, info', a, b)
  {
    forall n | a < n < b ensures Agrees(ring[Slot(n, |ring|)], At(info', n)) {
      assert At(info, n) == At(info', n);
    }
  }

  lemma WindowFresh(ring: seq<Info>, info: map<int, Info>, a: int, b: int)
    requires |ring| > 0 && forall k :: 0 <= k < |ring| ==> ring[k] == FRESH
    requires forall n :: n in info ==> n <= a
    ensures WindowOk(ring, info, a, b)
  {
  }

  class Ring {
    const h: U16
    const maxRetries: U8
    var rtt: int
    var initialized: bool
    var highest: U16
    var lowest: U16
    const buffer: array<Info>
    ghost var model: Model

    ghost predicate Valid()
      reads this, buffer
    {
      && SoundSize(h) && buffer.Length == h
      && model.h == h && model.maxRetries == maxRetries && model.rtt == rtt && model.started == initialized
      && (forall n :: n in model.info ==> n <= model.hi)
      && (initialized ==>
            && highest == Low16(model.hi) && lowest == Low16(model.lo)
            && 0 <= model.hi - model.lo < h
            && WindowOk(buffer[..], model.info, model.hi - h, model.hi + 1))
      && (!initialized ==> model.info == map[] && buffer[..] == seq(h, _ => FRESH))
    }

    constructor (historySize: U16, retries: U8, rttMs: int)
      requires SoundSize(historySize)
      ensures Valid() && fresh(buffer)
      ensures model == Initial(historySize, retries, rttMs)
    {
      h, maxRetries, rtt := historySize, retries, rttMs;
      initialized, highest, lowest := false, 0, 0;
      buffer := new Info[historySize](_ => FRESH);
      model := Initial(historySize, retries, rttMs);
    }

    method ReceivePacket(s: U16)
      requires Valid()
      modifies this, buffer
      ensures Valid() && model == Receive(old(model), s)
    {
      hide Slot, DividesSpace, Low16, SeqDistance, WindowOk;
      ghost var ring, info := buffer[..], model.info;
      if !initialized {
        highest, lowest, initialized := s, s, true;
        WindowFresh(ring, info, s - h, s);
        LowSelf(s);
        SlotOfLowBits(s, h);
        WindowUpdate(ring, info, s - h, s, s, FRESH.(received := true), FRESH.(received := true));
        buffer[Slot(s, h)] := buffer[Slot(s, h)].(received := true);
        model := Receive(model, s);
        return;
      }
      var diff := SeqDistance(highest, s);
      ghost var n := model.hi + diff;
      model := Receive(model, s);
      if diff <= 0 {
        if diff > -(h as int) {
          UnwrapKeepsLowBits(old(model).hi, s);
          SlotOfLowBits(n, h);
          WindowAt(ring, info, n - diff - h, n - diff + 1, n);
          WindowUpdate(ring, info, n - diff - h, n - diff + 1, n,
                       ring[Slot(n, h)].(received := true), At(info, n).(received := true));
          buffer[Slot(s, h)] := buffer[Slot(s, h)].(received := true);
        }
        return;
      }
      UnwrapKeepsLowBits(old(model).hi, s);
      Advance(s, diff, info, n, old(model).lo);
    }

    /** Moves the window up to a newer packet. */
    method Advance(s: U16, diff: nat, ghost info: map<int, Info>, ghost n: int, ghost lo: int)
      requires SoundSize(h) && buffer.Length == h && 0 < diff < 0x8000
      requires highest == Low16(n - diff) && s == Low16(n)
      requires lowest == Low16(lo) && 0 <= n - diff - lo < h
      requires WindowOk(buffer[..], info, n - diff - h, n - diff + 1) && forall k :: k in info ==> k <= n - diff
      modifies `highest, `lowest, buffer
      ensures highest == s && lowest == Low16(Max(lo, n - h + 1))
      ensures WindowOk(buffer[..], info[n := FRESH.(received := true)], n - h, n + 1)
    {
      hide Slot, DividesSpace, Low16, SeqDistance, WindowOk;
      if diff >= h {
        forall k | 0 <= k < h {
          buffer[k] := FRESH;
        }
        WindowFresh(buffer[..], info, n - h, n);
        lowest := Low16(s - (h - 1));
      } else {
        Recycle(diff, info, n - diff);
      }
      SlotOfLowBits(n, h);
      WindowUpdate(buffer[..], info, n - h, n, n, buffer[Slot(n, h)].(received := true), FRESH.(received := true));
      buffer[Slot(s, h)] := buffer[Slot(s, h)].(received := true);
      highest := s;
      LowAdd(n, 1 - h);
      UnwrapIsExact(if diff >= h then n - h + 1 else lo, n);
      if SeqDistance(lowest, highest) >= h {
        lowest := Low16(highest - (h - 1));
      }
    }

    /** Resets the slots of the numbers that a jump of `diff` above `hi` skips over. */
    method Recycle(diff: nat, ghost info: map<int, Info>, ghost hi: int)
      requires SoundSize(h) && buffer.Length == h && 0 < diff < h && highest == Low16(hi)
      requires WindowOk(buffer[..], info, hi - h, hi + 1) && forall n :: n in info ==> n <= hi
      modifies buffer
      ensures WindowOk(buffer[..], info, hi + diff - h, hi + diff)
    {
      hide Slot, DividesSpace, Low16, SeqDistance, WindowOk;
      WindowShrink(buffer[..], info, hi - h, hi + 1, hi + diff - h);
      for i := 1 to diff
        invariant WindowOk(buffer[..], info, hi + diff - h, hi + i)
      {
        var missing := Low16(highest + i);
        LowAdd(hi, i);
        SlotOfLowBits(hi + i, h);
        WindowUpdate(buffer[..], info, hi + diff - h, hi + i, hi + i, FRESH, FRESH);
        buffer[Slot(missing, h)] := FRESH;
        WindowSame(buffer[..], info[hi + i := FRESH], info, hi + diff - h, hi + i + 1);
      }
    }

    method GetNacks(now: int) returns (nacks: seq<U16>)
      requires Valid()
      modifies `model, buffer
      ensures Valid() && model == Poll(old(model), now)
      ensures Nums(model.log) == Nums(old(model).log) + nacks
    {
      hide Slot, DividesSpace, Low16, SeqDistance, WindowOk;
      nacks := [];
      if !initialized {
        return;
      }
      var backoff := rtt + 20;
      var span := Span();
      ghost var m0 := model;
      var i := 1;
      while i < span
        invariant 1 <= i <= Max(span, 1)
        invariant model == Scan(m0, now, i - 1) && Valid()
        invariant model.hi == m0.hi && model.rtt == m0.rtt && Nums(model.log) == Nums(m0.log) + nacks
      {
        nacks := Consider(i, now, backoff, nacks);
        i := i + 1;
      }
    }

    /** Length of the window above its lowest number. */
    method Span() returns (span: nat)
      requires Valid() && initialized
      ensures span == model.hi - model.lo
    {
      hide Slot, DividesSpace, Low16, SeqDistance, WindowOk;
      UnwrapIsExact(model.lo, model.hi);
      var distance: int := SeqDistance(lowest, highest);
      if distance < 0 {
        distance := distance + 0x1_0000;
      }
      if distance > h {
        distance := h;
      }
      span := distance;
    }

    /** One turn of the scan: the `i`-th number below the highest. */
    method Consider(i: int, now: int, backoff: int, nacks: seq<U16>) returns (out: seq<U16>)
      requires Valid() && initialized && 0 < i < h && backoff == rtt + 20
      modifies `model, buffer
      ensures Valid() && model == Visit(old(model), now, old(model).hi - i)
      ensures nacks <= out && Nums(model.log) == Nums(old(model).log) + out[|nacks|..]
    {
      hide Slot, DividesSpace, Low16, SeqDistance, WindowOk;
      out := nacks;
      var s := Low16(highest - i);
      LowAdd(model.hi, 0 - i as int);
      ghost var n := model.hi - i;
      SlotOfLowBits(n, h);
      var slot := buffer[Slot(s, h)];
      ghost var entry := At(model.info, n);
      WindowAt(buffer[..], model.info, model.hi - h, model.hi + 1, n);
      model := Visit(model, now, n);
      WindowUpdate(buffer[..], old(model).info, model.hi - h, model.hi + 1, n,
                   if slot.received then slot else Touch(model, now, slot), Touch(model, now, entry));
      if slot.received {
        assert buffer[..] == buffer[..][Slot(s, h) := slot];
        return;
      }
      if slot.retries >= maxRetries {
        buffer[Slot(s, h)] := slot.(received := true);
        return;
      }
      if !slot.nacked || now - slot.last >= backoff {
        out := out + [s];
        buffer[Slot(s, h)] := Info(false, true, slot.retries + 1, now);
      } else {
        assert buffer[..] == buffer[..][Slot(s, h) := slot];
      }
    }

    method UpdateRttEstimate(sample: int)
      requires Valid()
      modifies `rtt, `model
      ensures Valid() && model == UpdateRtt(old(model), sample)
    {
      rtt := TruncDiv(rtt * 7 + sample, 8);
      model := UpdateRtt(model, sample);
    }
  }
}
