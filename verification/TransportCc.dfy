/** Transport-wide congestion control feedback: which transport sequence numbers arrived, and when.

    Arrivals wait in a list; a report covers a run of consecutive numbers that starts at the next number to
    report, and removes what it covers. */
module TransportCc {
  import opened Words
  import RtpExtension

  const MAX_COUNT := 100

  /** A transport sequence number and its arrival time in nanoseconds. */
  datatype Arrival = Arrival(num: U16, at: int)

  datatype Status = NotReceived | SmallDelta | LargeDelta | WithoutDelta

  /** Status of one number; deltas are in units of 250 microseconds, as a signed 16-bit value. */
  datatype Info = Info(status: Status, delta: int)

  datatype Feedback = Feedback(base: U16, refTime: int, fbCount: U8, infos: seq<Info>)

  datatype State = State(recv: seq<Arrival>, next: U16, fbCount: U8)

  /** Distance from `base` forward to `num` on the 16-bit circle. */
  function Offset(base: U16, num: U16): nat {
    Low16(num - base)
  }

  // ---------------------------------------------------------------------------------------------
  // Arrivals

  /** `a` comes before `b` for the comparison that orders the list. */
  predicate Before(a: U16, b: U16) {
    SeqDistance(b, a) < 0
  }

  /** The library's binary search for the first element not before `num`. */
  function LowerBound(recv: seq<Arrival>, first: nat, len: nat, num: U16): (p: nat)
    requires first + len <= |recv|
    ensures first <= p <= first + len
    decreases len
  {
    if len == 0 then first
    else
      var half := len / 2;
      if Before(recv[first + half].num, num) then LowerBound(recv, first + half + 1, len - half - 1, num)
      else LowerBound(recv, first, half, num)
  }

  function Insert(recv: seq<Arrival>, a: Arrival): seq<Arrival> {
    var p := LowerBound(recv, 0, |recv|, a.num);
    if p < |recv| && recv[p].num == a.num then recv else recv[..p] + [a] + recv[p..]
  }

  /** Every arrival lies within half the sequence space at or after `base`. */
  predicate InWindow(recv: seq<Arrival>, base: U16) {
    forall i :: 0 <= i < |recv| ==> Offset(base, recv[i].num) < 0x8000
  }

  predicate Ordered(recv: seq<Arrival>, base: U16) {
    forall i, j :: 0 <= i < j < |recv| ==> Offset(base, recv[i].num) < Offset(base, recv[j].num)
  }

  lemma BeforeIsOffset(base: U16, a: U16, b: U16)
    requires Offset(base, a) < 0x8000 && Offset(base, b) < 0x8000
    ensures Before(a, b) <==> Offset(base, a) < Offset(base, b)
    ensures a == b <==> Offset(base, a) == Offset(base, b)
  {
    var x, y := Offset(base, a), Offset(base, b);
    UnwrapIsExact(base + y, base + x);
    LowAdd(base, x);
    LowAdd(base, y);
    OffsetBack(base, a);
    OffsetBack(base, b);
  }

  lemma OffsetBack(base: U16, num: U16)
    ensures Low16(base + Offset(base, num)) == num
  {
  }

  /** The first `p` arrivals are closer to `base` than distance `o`, the others are not. */
  predicate Below(recv: seq<Arrival>, base: U16, o: nat, p: nat) {
    forall i :: 0 <= i < p && i < |recv| ==> Offset(base, recv[i].num) < o
  }

  predicate NotBelow(recv: seq<Arrival>, base: U16, o: nat, p: nat) {
    forall i :: p <= i < |recv| ==> Offset(base, recv[i].num) >= o
  }

  lemma SplitAt(recv: seq<Arrival>, base: U16, o: nat, mid: nat)
    requires Ordered(recv, base) && mid < |recv|
    ensures Offset(base, recv[mid].num) < o ==> Below(recv, base, o, mid + 1)
    ensures Offset(base, recv[mid].num) >= o ==> NotBelow(recv, base, o, mid)
  {
    hide Offset;
    forall i | 0 <= i < |recv| ensures Offset(base, recv[i].num) < Offset(base, recv[mid].num) <==> i < mid {
      assert mid < i ==> Offset(base, recv[mid].num) < Offset(base, recv[i].num);
    }
  }

  lemma {:induction false} LowerBoundSplits(recv: seq<Arrival>, first: nat, len: nat, num: U16, base: U16)
    requires first + len <= |recv| && Ordered(recv, base) && InWindow(recv, base) && Offset(base, num) < 0x8000
    requires Below(recv, base, Offset(base, num), first) && NotBelow(recv, base, Offset(base, num), first + len)
    ensures var p := LowerBound(recv, first, len, num);
            Below(recv, base, Offset(base, num), p) && NotBelow(recv, base, Offset(base, num), p)
    decreases len
  {
    hide Offset, Before, Below, NotBelow, Ordered;
    if len > 0 {
      var mid := first + len / 2;
      BeforeIsOffset(base, recv[mid].num, num);
      SplitAt(recv, base, Offset(base, num), mid);
      if Before(recv[mid].num, num) {
        LowerBoundSplits(recv, mid + 1, len - len / 2 - 1, num, base);
      } else {
        LowerBoundSplits(recv, first, len / 2, num, base);
      }
    }
  }

  lemma SpliceKeepsOrder(recv: seq<Arrival>, p: nat, a: Arrival, base: U16)
    requires Ordered(recv, base) && InWindow(recv, base) && Offset(base, a.num) < 0x8000 && p <= |recv|
    requires p > 0 ==> Offset(base, recv[p - 1].num) < Offset(base, a.num)
    requires p < |recv| ==> Offset(base, recv[p].num) > Offset(base, a.num)
    ensures var r := recv[..p] + [a] + recv[p..]; Ordered(r, base) && InWindow(r, base)
  {
    hide Offset;
    var r := recv[..p] + [a] + recv[p..];
    forall i | 0 <= i < |r| ensures r[i] == At(recv, p, a, i) {}
    forall i, j | 0 <= i < j < |r| ensures Offset(base, r[i].num) < Offset(base, r[j].num) {
      SplicedPair(recv, p, a, base, i, j);
    }
  }

  /** Element `i` of the list with `a` inserted at `p`. */
  function At(recv: seq<Arrival>, p: nat, a: Arrival, i: nat): Arrival
    requires p <= |recv| && i <= |recv|
  {
    if i < p then recv[i] else if i == p then a else recv[i - 1]
  }

  lemma SplicedPair(recv: seq<Arrival>, p: nat, a: Arrival, base: U16, i: nat, j: nat)
    requires Ordered(recv, base) && p <= |recv| && i < j <= |recv|
    requires p > 0 ==> Offset(base, recv[p - 1].num) < Offset(base, a.num)
    requires p < |recv| ==> Offset(base, recv[p].num) > Offset(base, a.num)
    ensures Offset(base, At(recv, p, a, i).num) < Offset(base, At(recv, p, a, j).num)
  {
    hide Offset;
    if i < p {
      assert i == p - 1 || Offset(base, recv[i].num) < Offset(base, recv[p - 1].num);
    }
    if j > p {
      assert j - 1 == p || Offset(base, recv[p].num) < Offset(base, recv[j - 1].num);
    }
  }

  predicate Has(recv: seq<Arrival>, num: U16) {
    exists i :: 0 <= i < |recv| && recv[i].num == num
  }

  /** The list after an insertion holds the old arrivals, and the new one unless its number was there already. */
  lemma InsertAdds(recv: seq<Arrival>, a: Arrival)
    ensures var r := Insert(recv, a);
            && Has(r, a.num) && multiset(r) >= multiset(recv)
            && (r == recv || multiset(r) == multiset(recv) + multiset{a})
  {
    hide LowerBound;
    var p, r := LowerBound(recv, 0, |recv|, a.num), Insert(recv, a);
    if p < |recv| && recv[p].num == a.num {
      assert r[p].num == a.num;
    } else {
      assert r[p].num == a.num;
      assert recv == recv[..p] + recv[p..];
    }
  }

  /** Inserting keeps the list strictly increasing and duplicate-free; a known number changes nothing. */
  lemma InsertKeepsOrder(recv: seq<Arrival>, a: Arrival, base: U16)
    requires Ordered(recv, base) && InWindow(recv, base) && Offset(base, a.num) < 0x8000
    ensures Ordered(Insert(recv, a), base) && InWindow(Insert(recv, a), base)
    ensures Has(recv, a.num) <==> Insert(recv, a) == recv
  {
    var p := LowerBound(recv, 0, |recv|, a.num);
    LowerBoundSplits(recv, 0, |recv|, a.num, base);
    hide Offset, LowerBound;
    if p < |recv| {
      BeforeIsOffset(base, recv[p].num, a.num);
    }
    if Has(recv, a.num) {
      var i :| 0 <= i < |recv| && recv[i].num == a.num;
      assert p <= i;
    }
    if p == |recv| || recv[p].num != a.num {
      hide Ordered, InWindow;
      SpliceKeepsOrder(recv, p, a, base);
    }
  }

  // ---------------------------------------------------------------------------------------------
  // Reports

  /** Time from `last` to `at` in report units, truncated to microseconds and then to units. */
  function Ticks(at: int, last: int): int {
    TruncDiv(TruncDiv(at - last, 1000), 250)
  }

  function Received(ticks: int): Info {
    Info(if ticks < -128 || ticks > 127 then if ticks < -32768 || ticks > 32767 then WithoutDelta else LargeDelta
         else SmallDelta,
         AsInt16(Low16(ticks)))
  }

  function Missing(n: nat): (infos: seq<Info>)
    ensures |infos| == n && forall i :: 0 <= i < n ==> infos[i].status == NotReceived
  {
    seq(n, _ => Info(NotReceived, 0))
  }

  /** Walks the list from number `pos`; yields the statuses and the arrivals left over.  A report stops at the limit,
      but a number whose turn has come is still reported, so it may hold one status more. */
  function Walk(recv: seq<Arrival>, pos: U16, last: int, infos: seq<Info>): (seq<Info>, seq<Arrival>)
    decreases |recv|
  {
    if recv == [] || |infos| >= MAX_COUNT then (infos, recv)
    else
      var gap := Offset(pos, recv[0].num);
      if gap > MAX_COUNT - |infos| then (infos + Missing(MAX_COUNT - |infos|), recv)
      else Walk(recv[1..], Low16(recv[0].num + 1), recv[0].at, infos + Missing(gap) + [Received(Ticks(recv[0].at, last))])
  }

  /** Reference time of a report in microseconds: the first arrival's, rounded down to 64 milliseconds. */
  function Reference(first: Arrival): int {
    TruncDiv(TruncDiv(first.at, 1000), 64000) * 64000
  }

  /** The time the first delta counts from. */
  function Start(first: Arrival): int {
    first.at - (TruncDiv(first.at, 1000) - Reference(first)) * 1000
  }

  function Base(s: State): U16
    requires s.recv != []
  {
    if s.fbCount == 0 then s.recv[0].num else s.next
  }

  function Report(s: State): (State, Option<Feedback>) {
    if s.recv == [] then (s, None)
    else
      var (infos, rest) := Walk(s.recv, Base(s), Start(s.recv[0]), []);
      var count := (s.fbCount + 1) % 0x100;
      (State(rest, Low16(Base(s) + |infos|), count),
       Some(Feedback(Base(s), Reference(s.recv[0]) / 64000 % 0x100_0000, count, infos)))
  }

  /** Any report carries between 1 and 101 statuses and removes a prefix of the list. */
  lemma {:induction false} WalkIsBounded(recv: seq<Arrival>, pos: U16, last: int, infos: seq<Info>)
    requires |infos| <= MAX_COUNT + 1
    ensures var (out, rest) := Walk(recv, pos, last, infos);
            && infos <= out && |out| <= MAX_COUNT + 1
            && (recv != [] && |infos| < MAX_COUNT ==> |out| > |infos|)
            && |rest| <= |recv| && rest == recv[|recv| - |rest|..]
            && (|rest| < |recv| <==> recv != [] && |infos| < MAX_COUNT && Offset(pos, recv[0].num) <= MAX_COUNT - |infos|)
    decreases |recv|
  {
    hide Offset, Received, Ticks;
    if recv != [] && |infos| < MAX_COUNT {
      var gap := Offset(pos, recv[0].num);
      if gap <= MAX_COUNT - |infos| {
        WalkIsBounded(recv[1..], Low16(recv[0].num + 1), recv[0].at, infos + Missing(gap) + [Received(Ticks(recv[0].at, last))]);
      }
    }
  }

  /** The number at distance `j` from `base` is buffered. */
  predicate Buffered(recv: seq<Arrival>, base: U16, j: nat) {
    exists i :: 0 <= i < |recv| && Offset(base, recv[i].num) == j
  }

  lemma BufferedSplit(recv: seq<Arrival>, base: U16, j: nat)
    requires recv != []
    ensures Buffered(recv, base, j) <==> Offset(base, recv[0].num) == j || Buffered(recv[1..], base, j)
  {
    hide Offset;
    if Buffered(recv[1..], base, j) {
      var i :| 0 <= i < |recv[1..]| && Offset(base, recv[1..][i].num) == j;
      assert recv[1..][i] == recv[i + 1];
    }
    if Buffered(recv, base, j) && Offset(base, recv[0].num) != j {
      var i :| 0 <= i < |recv| && Offset(base, recv[i].num) == j;
      assert recv[1..][i - 1] == recv[i];
    }
  }

  lemma GapIs(base: U16, k: nat, num: U16)
    requires Offset(base, num) >= k
    ensures Offset(Low16(base + k), num) == Offset(base, num) - k
    ensures Low16(num + 1) == Low16(base + Offset(base, num) + 1)
  {
  }

  /** The arrivals from distance `k` on. */
  predicate AllFrom(recv: seq<Arrival>, base: U16, k: nat) {
    forall i :: 0 <= i < |recv| ==> Offset(base, recv[i].num) >= k
  }

  /** Exactly the first arrivals, those at a distance below `n`, are gone. */
  predicate TakesBelow(recv: seq<Arrival>, rest: seq<Arrival>, base: U16, n: nat) {
    && |rest| <= |recv| && rest == recv[|recv| - |rest|..]
    && forall i :: 0 <= i < |recv| ==> (i < |recv| - |rest| <==> Offset(base, recv[i].num) < n)
  }

  lemma {:induction false} WalkIsExact(recv: seq<Arrival>, base: U16, last: int, infos: seq<Info>)
    requires Ordered(recv, base) && AllFrom(recv, base, |infos|)
    ensures var (out, rest) := Walk(recv, Low16(base + |infos|), last, infos);
            && infos <= out && TakesBelow(recv, rest, base, |out|)
            && (forall j :: |infos| <= j < |out| ==> (out[j].status != NotReceived <==> Buffered(recv, base, j)))
    decreases |recv|
  {
    hide Offset, Ticks, Low16, AsInt16, Walk, Ordered, TakesBelow;
    var pos := Low16(base + |infos|);
    if recv != [] && |infos| < MAX_COUNT && Offset(base, recv[0].num) <= MAX_COUNT {
      var o := Offset(base, recv[0].num);
      GapIs(base, |infos|, recv[0].num);
      var more := infos + Missing(o - |infos|) + [Received(Ticks(recv[0].at, last))];
      WalkOn(recv, pos, last, infos);
      TailOrdered(recv, base);
      WalkIsExact(recv[1..], base, recv[0].at, more);
      var (out, rest) := Walk(recv[1..], Low16(base + |more|), recv[0].at, more);
      WalkStep(recv, base, |infos|, more, out, rest);
    } else {
      if recv != [] && |infos| < MAX_COUNT {
        GapIs(base, |infos|, recv[0].num);
      }
      WalkStops(recv, base, last, infos);
    }
  }

  lemma WalkOn(recv: seq<Arrival>, pos: U16, last: int, infos: seq<Info>)
    requires recv != [] && |infos| < MAX_COUNT && Offset(pos, recv[0].num) <= MAX_COUNT - |infos|
    ensures Walk(recv, pos, last, infos) ==
            Walk(recv[1..], Low16(recv[0].num + 1), recv[0].at,
                 infos + Missing(Offset(pos, recv[0].num)) + [Received(Ticks(recv[0].at, last))])
  {
  }

  lemma WalkGivesUp(recv: seq<Arrival>, pos: U16, last: int, infos: seq<Info>)
    requires recv != [] && |infos| < MAX_COUNT && Offset(pos, recv[0].num) > MAX_COUNT - |infos|
    ensures Walk(recv, pos, last, infos) == (infos + Missing(MAX_COUNT - |infos|), recv)
  {
  }

  lemma WalkEnds(recv: seq<Arrival>, pos: U16, last: int, infos: seq<Info>)
    requires recv == [] || |infos| >= MAX_COUNT
    ensures Walk(recv, pos, last, infos) == (infos, recv)
  {
  }

  lemma WalkStops(recv: seq<Arrival>, base: U16, last: int, infos: seq<Info>)
    requires Ordered(recv, base) && AllFrom(recv, base, |infos|)
    requires recv == [] || |infos| >= MAX_COUNT ||
             (Offset(base, recv[0].num) > MAX_COUNT && Offset(Low16(base + |infos|), recv[0].num) > MAX_COUNT - |infos|)
    ensures var (out, rest) := Walk(recv, Low16(base + |infos|), last, infos);
            && infos <= out && TakesBelow(recv, rest, base, |out|)
            && (forall j :: |infos| <= j < |out| ==> out[j].status == NotReceived && !Buffered(recv, base, j))
  {
    hide Offset, Ticks, Low16, AsInt16;
    if recv != [] {
      assert forall i :: 0 <= i < |recv| ==> Offset(base, recv[i].num) >= Offset(base, recv[0].num);
    }
  }

  lemma TailOrdered(recv: seq<Arrival>, base: U16)
    requires recv != [] && Ordered(recv, base)
    ensures Ordered(recv[1..], base) && AllFrom(recv[1..], base, Offset(base, recv[0].num) + 1)
  {
    hide Offset;
    forall i | 0 <= i < |recv[1..]| ensures Offset(base, recv[1..][i].num) > Offset(base, recv[0].num) {
      assert recv[1..][i] == recv[i + 1];
    }
  }

  lemma WalkStep(recv: seq<Arrival>, base: U16, k: nat, more: seq<Info>, out: seq<Info>, rest: seq<Arrival>)
    requires recv != [] && Ordered(recv, base) && k <= Offset(base, recv[0].num) == |more| - 1 && more <= out
    requires forall j :: k <= j < |more| - 1 ==> more[j].status == NotReceived
    requires more[|more| - 1].status != NotReceived
    requires TakesBelow(recv[1..], rest, base, |out|)
    requires forall j :: |more| <= j < |out| ==> (out[j].status != NotReceived <==> Buffered(recv[1..], base, j))
    ensures TakesBelow(recv, rest, base, |out|)
    ensures forall j :: k <= j < |out| ==> (out[j].status != NotReceived <==> Buffered(recv, base, j))
  {
    hide Offset;
    forall i | 0 <= i < |recv| ensures i < |recv| - |rest| <==> Offset(base, recv[i].num) < |out| {
      if i > 0 {
        assert recv[1..][i - 1] == recv[i];
      }
    }
    assert recv[1..][|recv| - 1 - |rest|..] == recv[|recv| - |rest|..];
    TailOrdered(recv, base);
    forall j | k <= j < |out| ensures out[j].status != NotReceived <==> Buffered(recv, base, j) {
      BufferedSplit(recv, base, j);
      assert j < |more| ==> out[j] == more[j];
    }
  }

  /** A report of an ordered list is exact: status j is "received" exactly when base + j is buffered, exactly the
      arrivals it covers are removed, and the next number to report is base + count. */
  lemma ReportIsExact(s: State)
    requires s.recv != [] && Ordered(s.recv, Base(s))
    ensures var (t, f) := Report(s);
            && f.Some? && f.value.base == Base(s) && 1 <= |f.value.infos| <= MAX_COUNT + 1
            && (forall j :: 0 <= j < |f.value.infos| ==> (f.value.infos[j].status != NotReceived <==> Buffered(s.recv, Base(s), j)))
            && TakesBelow(s.recv, t.recv, Base(s), |f.value.infos|)
            && t.next == Low16(Base(s) + |f.value.infos|)
            && t.fbCount == f.value.fbCount == (s.fbCount + 1) % 0x100
  {
    hide Walk, Ordered, Offset, Low16, Reference, Start;
    WalkIsExact(s.recv, Base(s), Start(s.recv[0]), []);
    WalkIsBounded(s.recv, Base(s), Start(s.recv[0]), []);
    LowSelf(Base(s));
  }

  // ---------------------------------------------------------------------------------------------
  // Draining

  /** Every report makes progress: it removes an arrival, or brings the next number closer to the first one. */
  lemma ReportProgresses(s: State)
    requires s.recv != []
    ensures var t := Report(s).0;
            |t.recv| < |s.recv| ||
            (t.recv == s.recv && Offset(t.next, s.recv[0].num) < Offset(s.next, s.recv[0].num))
  {
    hide Ticks, Received;
    WalkIsBounded(s.recv, Base(s), Start(s.recv[0]), []);
    var t := Report(s).0;
    var o := Offset(Base(s), s.recv[0].num);
    if |t.recv| == |s.recv| {
      GapIs(Base(s), MAX_COUNT, s.recv[0].num);
      assert o > MAX_COUNT;
    }
  }

  /** Reports until at most 200 arrivals are left. */
  function Drain(s: State): (State, seq<Feedback>)
    decreases |s.recv|, if s.recv == [] then 0 else Offset(s.next, s.recv[0].num)
  {
    if |s.recv| <= 200 then (s, [])
    else
      ReportProgresses(s);
      var (t, f) := Report(s);
      var (u, fs) := Drain(t);
      (u, [f.value] + fs)
  }

  function InsertAll(recv: seq<Arrival>, arrivals: seq<Arrival>): seq<Arrival>
    decreases |arrivals|
  {
    if arrivals == [] then recv else InsertAll(Insert(recv, arrivals[0]), arrivals[1..])
  }

  function Incoming(s: State, arrivals: seq<Arrival>): (State, seq<Feedback>) {
    Drain(s.(recv := InsertAll(s.recv, arrivals)))
  }

  // ---------------------------------------------------------------------------------------------
  // Whole runs: tiling

  /** Consecutive reports: the counter goes up by one modulo 256, and each report starts where the one before it
      ended unless the counter has just returned to 0. */
  predicate Follows(f: Feedback, g: Feedback) {
    && g.fbCount == (f.fbCount + 1) % 0x100
    && (f.fbCount != 0 ==> g.base == Low16(f.base + |f.infos|))
  }

  predicate Tiled(fs: seq<Feedback>) {
    && (forall i :: 0 <= i < |fs| ==> 1 <= |fs[i].infos| <= MAX_COUNT + 1)
    && (forall i :: 0 < i < |fs| ==> Follows(fs[i - 1], fs[i]))
  }

  /** The state continues the last report. */
  predicate Continues(s: State, fs: seq<Feedback>) {
    if fs == [] then s.fbCount == 0
    else s.fbCount == fs[|fs| - 1].fbCount && s.next == Low16(fs[|fs| - 1].base + |fs[|fs| - 1].infos|)
  }

  datatype Event = Packet(arrivals: seq<Arrival>) | Tick

  /** The state and all reports so far. */
  datatype World = World(state: State, reports: seq<Feedback>)

  function Step(w: World, e: Event): World {
    match e
    case Packet(arrivals) => var (t, fs) := Incoming(w.state, arrivals); World(t, w.reports + fs)
    case Tick =>
      var (t, f) := Report(w.state);
      World(t, w.reports + if f.Some? then [f.value] else [])
  }

  function Run(w: World, es: seq<Event>): World
    decreases |es|
  {
    if es == [] then w else Run(Step(w, es[0]), es[1..])
  }

  lemma ReportContinues(s: State, fs: seq<Feedback>)
    requires s.recv != [] && Tiled(fs) && Continues(s, fs)
    ensures var (t, f) := Report(s);
            f.Some? && Tiled(fs + [f.value]) && Continues(t, fs + [f.value])
  {
    hide Low16, Walk;
    WalkIsBounded(s.recv, Base(s), Start(s.recv[0]), []);
    var f := Report(s).1.value;
    var gs := fs + [f];
    forall i | 0 < i < |gs| ensures Follows(gs[i - 1], gs[i]) {
      assert gs[i - 1] == fs[i - 1];
    }
  }

  lemma DrainContinues(s: State, fs: seq<Feedback>)
    requires Tiled(fs) && Continues(s, fs)
    ensures var (t, gs) := Drain(s); Tiled(fs + gs) && Continues(t, fs + gs) && |t.recv| <= 200
    decreases |s.recv|, if s.recv == [] then 0 else Offset(s.next, s.recv[0].num)
  {
    hide Report, Tiled, Continues;
    if |s.recv| <= 200 {
      assert fs + [] == fs;
    } else {
      var (t, f) := Report(s);
      ReportContinues(s, fs);
      ReportProgresses(s);
      DrainContinues(t, fs + [f.value]);
      Assoc(fs, [f.value], Drain(t).1);
    }
  }

  /** Over every run, late and reordered packets included, the reports tile the sequence space, each carries between 1
      and 101 statuses, and no more than 200 arrivals are ever left buffered. */
  lemma {:induction false} RunTiles(w: World, es: seq<Event>)
    requires Tiled(w.reports) && Continues(w.state, w.reports) && |w.state.recv| <= 200
    ensures var v := Run(w, es); Tiled(v.reports) && Continues(v.state, v.reports) && |v.state.recv| <= 200
    decreases |es|
  {
    hide Report, Tiled, Continues, Drain, InsertAll;
    if es != [] {
      match es[0] {
        case Packet(arrivals) =>
          var s := w.state.(recv := InsertAll(w.state.recv, arrivals));
          ContinuesIgnoresArrivals(w.state, s, w.reports);
          DrainContinues(s, w.reports);
        case Tick =>
          if w.state.recv == [] {
            ReportOfNothing(w.state);
            assert w.reports + [] == w.reports;
          } else {
            ReportContinues(w.state, w.reports);
            ReportShrinks(w.state);
          }
      }
      RunTiles(Step(w, es[0]), es[1..]);
    }
  }

  lemma ReportShrinks(s: State)
    requires s.recv != []
    ensures |Report(s).0.recv| <= |s.recv|
  {
    hide Walk, Start, Base;
    WalkIsBounded(s.recv, Base(s), Start(s.recv[0]), []);
  }

  lemma ContinuesIgnoresArrivals(s: State, t: State, fs: seq<Feedback>)
    requires Continues(s, fs) && t == s.(recv := t.recv)
    ensures Continues(t, fs)
  {
  }

  lemma ReportOfNothing(s: State)
    requires s.recv == []
    ensures Report(s) == (s, None)
  {
  }

  // ---------------------------------------------------------------------------------------------
  // Whole runs: exactness

  /** The buffered arrivals lie in order within half the sequence space at or after `base`. */
  predicate Fits(s: State, base: U16) {
    Ordered(s.recv, base) && InWindow(s.recv, base) && (s.fbCount != 0 ==> base == s.next)
  }

  lemma Rebase(recv: seq<Arrival>, base: U16, base': U16)
    requires Ordered(recv, base) && InWindow(recv, base) && AllFrom(recv, base, Offset(base, base'))
    ensures Ordered(recv, base') && InWindow(recv, base')
  {
    hide Offset, Low16;
    forall i | 0 <= i < |recv| ensures Offset(base', recv[i].num) == Offset(base, recv[i].num) - Offset(base, base') {
      OffsetBack(base, base');
      GapIs(base, Offset(base, base'), recv[i].num);
    }
  }

  lemma RebaseToFirst(recv: seq<Arrival>, base: U16)
    requires recv != [] && Ordered(recv, base) && InWindow(recv, base)
    ensures Ordered(recv, recv[0].num) && InWindow(recv, recv[0].num)
  {
    hide Offset;
    assert AllFrom(recv, base, Offset(base, recv[0].num)) by {
      forall i | 0 <= i < |recv| ensures Offset(base, recv[i].num) >= Offset(base, recv[0].num) {
        assert i > 0 ==> Offset(base, recv[0].num) < Offset(base, recv[i].num);
      }
    }
    Rebase(recv, base, recv[0].num);
  }

  lemma OffsetOfForward(base: U16, n: nat)
    requires n < 0x1_0000
    ensures Offset(base, Low16(base + n)) == n
  {
  }

  lemma RestFits(recv: seq<Arrival>, rest: seq<Arrival>, base: U16, n: nat)
    requires Ordered(recv, base) && InWindow(recv, base) && TakesBelow(recv, rest, base, n) && n < 0x1_0000
    ensures Ordered(rest, Low16(base + n)) && InWindow(rest, Low16(base + n))
  {
    hide Offset, Low16;
    var k := |recv| - |rest|;
    forall i | 0 <= i < |rest| ensures rest[i] == recv[k + i] {}
    forall i, j | 0 <= i < j < |rest| ensures Offset(base, rest[i].num) < Offset(base, rest[j].num) {
      assert Offset(base, recv[k + i].num) < Offset(base, recv[k + j].num);
    }
    forall i | 0 <= i < |rest| ensures n <= Offset(base, rest[i].num) < 0x8000 {
      assert Offset(base, recv[k + i].num) < 0x8000;
    }
    OffsetOfForward(base, n);
    Rebase(rest, base, Low16(base + n));
  }

  /** What one report must say about the arrivals buffered when it is made. */
  ghost predicate ExactReport(s: State) {
    s.recv != [] ==>
      var (t, f) := Report(s);
      && f.Some? && f.value.base == Base(s)
      && (forall j :: 0 <= j < |f.value.infos| ==> (f.value.infos[j].status != NotReceived <==> Buffered(s.recv, Base(s), j)))
      && TakesBelow(s.recv, t.recv, Base(s), |f.value.infos|)
  }

  lemma ReportKeepsFit(s: State, base: U16)
    requires Fits(s, base)
    ensures ExactReport(s)
    ensures s.recv != [] ==> Fits(Report(s).0, Report(s).0.next)
  {
    if s.recv != [] {
      hide Report, Offset, Low16, Walk, Ordered, InWindow, TakesBelow, Buffered;
      RebaseToFirst(s.recv, base);
      ReportIsExact(s);
      RestFits(s.recv, Report(s).0.recv, Base(s), |Report(s).1.value.infos|);
    }
  }

  datatype Move = Add(a: Arrival) | Emit

  function StateAfter(s: State, m: Move): State {
    match m
    case Add(a) => s.(recv := Insert(s.recv, a))
    case Emit => Report(s).0
  }

  /** The number that distances are taken from after a move. */
  function BaseAfter(s: State, base: U16, m: Move): U16 {
    if m.Emit? && s.recv != [] then Report(s).0.next else base
  }

  /** Every arriving number lies within half the sequence space at or after the next number to report. */
  predicate Timely(s: State, base: U16, ms: seq<Move>)
    decreases |ms|
  {
    ms != [] ==>
      && (ms[0].Add? ==> Offset(base, ms[0].a.num) < 0x8000)
      && Timely(StateAfter(s, ms[0]), BaseAfter(s, base, ms[0]), ms[1..])
  }

  /** Every report of the run is exact. */
  ghost predicate AllExact(s: State, ms: seq<Move>)
    decreases |ms|
  {
    ms != [] ==> (ms[0].Emit? ==> ExactReport(s)) && AllExact(StateAfter(s, ms[0]), ms[1..])
  }

  /** In every run of timely arrivals and reports, every report is exact. */
  lemma {:induction false} RunIsExact(s: State, base: U16, ms: seq<Move>)
    requires Fits(s, base) && Timely(s, base, ms)
    ensures AllExact(s, ms)
    decreases |ms|
  {
    if ms != [] {
      hide Report, Offset, Ordered, InWindow, Insert, ExactReport;
      match ms[0] {
        case Add(a) => InsertKeepsOrder(s.recv, a, base);
        case Emit =>
          ReportKeepsFit(s, base);
          if s.recv == [] {
            ReportOfNothing(s);
          }
      }
      RunIsExact(StateAfter(s, ms[0]), BaseAfter(s, base, ms[0]), ms[1..]);
    }
  }

  // ---------------------------------------------------------------------------------------------
  // Arrival times

  function DeltaSum(infos: seq<Info>): int {
    if infos == [] then 0 else DeltaSum(infos[..|infos| - 1]) + infos[|infos| - 1].delta
  }

  /** The times a reader of the report computes for the received numbers, in nanoseconds. */
  function Rebuilt(start: int, infos: seq<Info>): seq<int> {
    if infos == [] then []
    else
      Rebuilt(start, infos[..|infos| - 1]) +
      if infos[|infos| - 1].status == NotReceived then [] else [start + 250_000 * DeltaSum(infos)]
  }

  /** The k-th time is within k units of the k-th arrival. */
  predicate Close(times: seq<int>, arrivals: seq<Arrival>) {
    && |times| <= |arrivals|
    && forall k :: 0 <= k < |times| ==> -250_000 * (k + 1) < times[k] - arrivals[k].at < 250_000 * (k + 1)
  }

  predicate NoneWithoutDelta(infos: seq<Info>) {
    forall i :: 0 <= i < |infos| ==> infos[i].status != WithoutDelta
  }

  lemma TicksAreClose(at: int, last: int)
    ensures -250_000 < at - last - 250_000 * Ticks(at, last) < 250_000
    ensures at - last >= 0 && (at - last) % 1000 == 0 ==> at - last - 250_000 * Ticks(at, last) < 249_001
    ensures Received(Ticks(at, last)).status != WithoutDelta ==> Received(Ticks(at, last)).delta == Ticks(at, last)
  {
    NestedTrunc(at - last);
  }

  lemma NestedTrunc(d: int)
    ensures -250_000 < d - 250_000 * TruncDiv(TruncDiv(d, 1000), 250) < 250_000
    ensures d >= 0 && d % 1000 == 0 ==> d - 250_000 * TruncDiv(TruncDiv(d, 1000), 250) < 249_001
  {
  }

  lemma {:induction false} RebuiltMissing(start: int, infos: seq<Info>, n: nat)
    ensures Rebuilt(start, infos + Missing(n)) == Rebuilt(start, infos) && DeltaSum(infos + Missing(n)) == DeltaSum(infos)
  {
    if n == 0 {
      assert infos + Missing(0) == infos;
    } else {
      var more := infos + Missing(n);
      assert more[..|more| - 1] == infos + Missing(n - 1) && more[|more| - 1] == Info(NotReceived, 0);
      RebuiltMissing(start, infos, n - 1);
    }
  }

  lemma RebuiltReceived(start: int, infos: seq<Info>, n: nat, i: Info)
    requires i.status != NotReceived
    ensures var more := infos + Missing(n) + [i];
            && DeltaSum(more) == DeltaSum(infos) + i.delta
            && Rebuilt(start, more) == Rebuilt(start, infos) + [start + 250_000 * (DeltaSum(infos) + i.delta)]
  {
    RebuiltMissing(start, infos, n);
    var more := infos + Missing(n) + [i];
    assert more[..|more| - 1] == infos + Missing(n);
  }

  /** The walk so far has rebuilt the times of `done`, and its running sum stands for `last` with that accuracy. */
  predicate Tracks(start: int, infos: seq<Info>, done: seq<Arrival>, last: int) {
    && Close(Rebuilt(start, infos), done) && |Rebuilt(start, infos)| == |done|
    && -250_000 * |done| <= start + 250_000 * DeltaSum(infos) - last <= 250_000 * |done|
  }

  lemma {:induction false} WalkTracks(start: int, done: seq<Arrival>, recv: seq<Arrival>, pos: U16, last: int, infos: seq<Info>)
    requires Tracks(start, infos, done, last)
    requires NoneWithoutDelta(Walk(recv, pos, last, infos).0)
    ensures var (out, rest) := Walk(recv, pos, last, infos);
            Close(Rebuilt(start, out), done + recv) && |Rebuilt(start, out)| == |done| + |recv| - |rest|
    decreases |recv|
  {
    hide Offset, Ticks, Low16, Rebuilt, Received, DeltaSum;
    if recv == [] || |infos| >= MAX_COUNT {
    } else if Offset(pos, recv[0].num) > MAX_COUNT - |infos| {
      RebuiltMissing(start, infos, MAX_COUNT - |infos|);
    } else {
      var a, gap := recv[0], Offset(pos, recv[0].num);
      var r := Received(Ticks(a.at, last));
      var more := infos + Missing(gap) + [r];
      WalkOn(recv, pos, last, infos);
      WalkKeeps(recv[1..], Low16(a.num + 1), a.at, more);
      assert more[|more| - 1] == r;
      ReceivedIsReceived(Ticks(a.at, last));
      RebuiltReceived(start, infos, gap, r);
      TicksAreClose(a.at, last);
      assert Tracks(start, more, done + [a], a.at);
      WalkTracks(start, done + [a], recv[1..], Low16(a.num + 1), a.at, more);
      assert done + [a] + recv[1..] == done + recv;
    }
  }

  lemma ReceivedIsReceived(ticks: int)
    ensures Received(ticks).status != NotReceived
  {
  }

  lemma {:induction false} WalkKeeps(recv: seq<Arrival>, pos: U16, last: int, infos: seq<Info>)
    ensures infos <= Walk(recv, pos, last, infos).0
    decreases |recv|
  {
    hide Offset, Received, Ticks, Low16;
    if recv != [] && |infos| < MAX_COUNT && Offset(pos, recv[0].num) <= MAX_COUNT - |infos| {
      WalkKeeps(recv[1..], Low16(recv[0].num + 1), recv[0].at,
                infos + Missing(Offset(pos, recv[0].num)) + [Received(Ticks(recv[0].at, last))]);
    }
  }

  /** When every received number of a report has a delta, summing the deltas from the reference time reproduces the
      time of the k-th received packet within 250 k microseconds. */
  lemma TimesFollow(s: State)
    requires s.recv != [] && s.recv[0].at >= 0
    requires NoneWithoutDelta(Report(s).1.value.infos)
    ensures var (t, f) := Report(s);
            var times := Rebuilt(Reference(s.recv[0]) * 1000, f.value.infos);
            |times| == |s.recv| - |t.recv| && Close(times, s.recv)
  {
    var recv, base := s.recv, Base(s);
    var a, start := recv[0], Reference(recv[0]) * 1000;
    var gap := Offset(base, a.num);
    if gap > MAX_COUNT {
      WalkGivesUp(recv, base, Start(a), []);
      RebuiltMissing(start, [], MAX_COUNT);
      assert [] + Missing(MAX_COUNT) == Missing(MAX_COUNT);
    } else {
      var r := Received(Ticks(a.at, Start(a)));
      var more := [] + Missing(gap) + [r];
      WalkOn(recv, base, Start(a), []);
      WalkKeeps(recv[1..], Low16(a.num + 1), a.at, more);
      assert more[|more| - 1] == r;
      FirstIsTracked(a, gap);
      hide Offset, Ticks, Low16, Rebuilt, Received, DeltaSum, Walk, Close;
      WalkTracks(start, [a], recv[1..], Low16(a.num + 1), a.at, more);
      assert [a] + recv[1..] == recv;
    }
  }

  lemma FirstIsTracked(a: Arrival, gap: nat)
    requires a.at >= 0 && Received(Ticks(a.at, Start(a))).status != WithoutDelta
    ensures Tracks(Reference(a) * 1000, [] + Missing(gap) + [Received(Ticks(a.at, Start(a)))], [a], a.at)
  {
    var start, r := Reference(a) * 1000, Received(Ticks(a.at, Start(a)));
    assert Rebuilt(start, []) == [] && DeltaSum([]) == 0;
    hide Ticks, Rebuilt, Received, DeltaSum, Reference, Start;
    ReceivedIsReceived(Ticks(a.at, Start(a)));
    RebuiltReceived(start, [], gap, r);
    StartIsClose(a);
    TicksAreClose(a.at, Start(a));
  }

  lemma StartIsClose(a: Arrival)
    requires a.at >= 0
    ensures 0 <= Start(a) - Reference(a) * 1000 < 1000
    ensures 0 <= a.at - Start(a) && (a.at - Start(a)) % 1000 == 0
  {
    assert a.at - Start(a) == 1000 * (TruncDiv(a.at, 1000) - Reference(a));
  }

  // ---------------------------------------------------------------------------------------------
  // The feedback generator

  /** The transport numbers an extension block announces: elements with id 4 and two bytes of data. */
  function Announced(es: seq<RtpExtension.Element>): seq<U16> {
    if es == [] then []
    else (if es[0].id == 4 && |es[0].data| == 2 then [Get16(es[0].data, 0)] else []) + Announced(es[1..])
  }

  lemma AnnouncedAppend(a: seq<RtpExtension.Element>, b: seq<RtpExtension.Element>)
    ensures Announced(a + b) == Announced(a) + Announced(b)
  {
    if a == [] {
      assert a + b == b;
    } else {
      assert (a + b)[1..] == a[1..] + b;
      AnnouncedAppend(a[1..], b);
    }
  }

  lemma {:induction false} NoneAnnounced(es: seq<RtpExtension.Element>)
    requires forall e :: e in es ==> e.id != 4 || |e.data| != 2
    ensures Announced(es) == []
  {
    if es != [] {
      NoneAnnounced(es[1..]);
    }
  }

  /** A stream id of two bytes sent under id 4 looks like a transport number. */
  function RidAsNumber(s: RtpExtension.SendInfo): seq<U16> {
    if s.ridId == 4 && |s.rid| == 2 then [Get16(s.rid, 0)] else []
  }

  lemma StreamAnnounces(s: RtpExtension.SendInfo)
    ensures Announced(RtpExtension.StreamElements(s)) == RidAsNumber(s)
  {
    hide Announced;
    var mid := if RtpExtension.Usable(s.midId) then [RtpExtension.Element(s.midId, [s.mid])] else [];
    var rid := if RtpExtension.Usable(s.ridId) && s.rid != [] then [RtpExtension.Element(s.ridId, s.rid)] else [];
    var abs := if s.video && RtpExtension.Usable(s.absId)
               then [RtpExtension.Element(s.absId, [s.abs / 0x1_0000, s.abs / 0x100 % 0x100, s.abs % 0x100])] else [];
    AnnouncedAppend(mid + rid, abs);
    AnnouncedAppend(mid, rid);
    NoneAnnounced(mid);
    NoneAnnounced(abs);
    AnnouncedOne(rid);
  }

  lemma AnnouncedOne(es: seq<RtpExtension.Element>)
    requires |es| <= 1
    ensures Announced(es) == if es != [] && es[0].id == 4 && |es[0].data| == 2 then [Get16(es[0].data, 0)] else []
  {
    if es != [] {
      assert es[1..] == [];
    }
  }

  /** The numbers a sent block announces to this receiver, which looks for id 4 only: a stream id mistaken for one, and the
      transport number when that is the id negotiated for it. */
  lemma AnnouncedNumbers(s: RtpExtension.SendInfo)
    requires RtpExtension.RidFits(s)
    ensures Announced(RtpExtension.Elements(RtpExtension.SentBlock(s))) == RidAsNumber(s) + if s.tccId == 4 then [s.tcc] else []
  {
    hide Announced, RtpExtension.Raw, RtpExtension.Elements, RtpExtension.StreamElements, RtpExtension.PaddingItems,
         RtpExtension.SentBlock, Get16, Be16;
    var es := RtpExtension.SentElements(s);
    var padding := RtpExtension.PaddingItems(PadTo4(|RtpExtension.Raw(es)|));
    RtpExtension.SentBlockReadsIff(s);
    AnnouncedAppend(es, padding);
    NoneAnnounced(padding);
    var last := if RtpExtension.Usable(s.tccId) then [RtpExtension.Element(s.tccId, Be16(s.tcc))] else [];
    AnnouncedAppend(RtpExtension.StreamElements(s), last);
    StreamAnnounces(s);
    AnnouncedOne(last);
    Get16OfBe16(s.tcc);
    assert Announced(es) + [] == Announced(es) && RidAsNumber(s) + [] == RidAsNumber(s);
  }

  /** The transport number arrives, and no other, exactly when its id is 4 and no stream id is mistaken for one, or when a
      mistaken stream id happens to spell it. */
  lemma TransportNumberArrives(s: RtpExtension.SendInfo)
    requires RtpExtension.RidFits(s)
    ensures Announced(RtpExtension.Elements(RtpExtension.SentBlock(s))) == [s.tcc] <==>
            if s.tccId == 4 then !(s.ridId == 4 && |s.rid| == 2)
            else s.ridId == 4 && |s.rid| == 2 && Get16(s.rid, 0) == s.tcc
  {
    hide Announced, RtpExtension.Elements, RtpExtension.SentBlock, Get16;
    AnnouncedNumbers(s);
    var rid := RidAsNumber(s);
    assert rid + [] == rid && |rid + [s.tcc]| == |rid| + 1;
    assert [] + [s.tcc] == [s.tcc];
  }

  /** Arrivals for the announced numbers, each with its own clock reading. */
  function Stamped(nums: seq<U16>, clock: seq<int>): seq<Arrival>
    requires |nums| <= |clock|
  {
    seq(|nums|, i requires 0 <= i < |nums| => Arrival(nums[i], clock[i]))
  }

  class Generator {
    var recv: seq<Arrival>
    var next: U16
    var fbCount: U8

    ghost function View(): State
      reads this
    {
      State(recv, next, fbCount)
    }

    constructor ()
      ensures View() == State([], 0, 0)
    {
      recv, next, fbCount := [], 0, 0;
    }

    /** Reports numbers as missing until the next number is `num` or the limit is reached. */
    method FillGap(num: U16, infos: seq<Info>) returns (out: seq<Info>, reached: bool)
      requires |infos| <= MAX_COUNT
      modifies `next
      ensures var gap := Offset(old(next), num);
              && (reached <==> gap <= MAX_COUNT - |infos|)
              && out == infos + Missing(if reached then gap else MAX_COUNT - |infos|)
              && next == Low16(old(next) + |out| - |infos|) && (reached ==> next == num)
    {
      hide Low16, Offset;
      out := infos;
      ghost var gap, k := Offset(next, num), 0;
      LowSelf(next);
      SameIsNoOffset(next, num);
      while next != num
        invariant 0 <= k <= gap && out == infos + Missing(k) && |out| <= MAX_COUNT
        invariant next == Low16(old(next) + k) && Offset(next, num) == gap - k
        decreases gap - k
      {
        SameIsNoOffset(next, num);
        if |out| >= MAX_COUNT {
          return out, false;
        }
        out := out + [Info(NotReceived, 0)];
        GapIs(next, 1, num);
        LowAdd(old(next) + k, 1);
        next := Low16(next + 1);
        k := k + 1;
      }
      SameIsNoOffset(next, num);
      reached := true;
    }

    /** The nested loops of a report: the statuses from `next` on, and how many arrivals they use up. */
    method WalkList(start: int) returns (infos: seq<Info>, it: nat)
      modifies `next
      ensures it <= |recv| && (infos, recv[it..]) == Walk(recv, old(next), start, [])
      ensures next == Low16(old(next) + |infos|)
    {
      hide Offset, Received, Ticks, Low16, Walk;
      infos, it := [], 0;
      var last := start;
      LowSelf(next);
      while it < |recv| && |infos| < MAX_COUNT
        invariant it <= |recv| && |infos| <= MAX_COUNT + 1 && next == Low16(old(next) + |infos|)
        invariant Walk(recv[it..], next, last, infos) == Walk(recv, old(next), start, [])
      {
        ghost var pos, before := next, infos;
        var reached: bool;
        infos, reached := FillGap(recv[it].num, infos);
        LowAdd(old(next) + |before|, |infos| - |before|);
        if !reached {
          WalkGivesUp(recv[it..], pos, last, before);
          return;
        }
        WalkOn(recv[it..], pos, last, before);
        DropDrop(recv, it, 1);
        LowAdd(old(next) + |infos|, 1);
        infos := infos + [Received(Ticks(recv[it].at, last))];
        next := Low16(next + 1);
        last := recv[it].at;
        it := it + 1;
      }
      WalkEnds(recv[it..], next, last, infos);
    }

    method MakeReport() returns (f: Option<Feedback>)
      modifies this
      ensures (View(), f) == Report(old(View()))
    {
      if recv == [] {
        return None;
      }
      if fbCount == 0 {
        next := recv[0].num;
      }
      hide Walk, Start, Reference;
      var base, first := next, recv[0];
      var infos, it := WalkList(Start(first));
      recv := recv[it..];
      fbCount := (fbCount + 1) % 0x100;
      f := Some(Feedback(base, Reference(first) / 64000 % 0x100_0000, fbCount, infos));
    }

    method InsertArrival(a: Arrival)
      modifies `recv
      ensures recv == Insert(old(recv), a)
    {
      hide Before;
      var first: nat, len: nat := 0, |recv|;
      while len > 0
        invariant first + len <= |recv|
        invariant LowerBound(recv, first, len, a.num) == LowerBound(recv, 0, |recv|, a.num)
      {
        var half := len / 2;
        if Before(recv[first + half].num, a.num) {
          first := first + half + 1;
          len := len - half - 1;
        } else {
          len := half;
        }
      }
      if first == |recv| || recv[first].num != a.num {
        recv := recv[..first] + [a] + recv[first..];
      }
    }

    /** Takes the numbers announced by one packet's extension block, then reports until few enough are left. */
    method HandleIncoming(ext: Bytes, clock: seq<int>) returns (sent: seq<Feedback>)
      requires |Announced(RtpExtension.Elements(ext))| <= |clock|
      modifies this
      ensures (View(), sent) == Incoming(old(View()), Stamped(Announced(RtpExtension.Elements(ext)), clock))
    {
      hide Insert, Report, RtpExtension.Elements;
      var iter := new RtpExtension.Iterator(ext);
      ghost var all := Stamped(Announced(RtpExtension.Elements(ext)), clock);
      var n := 0;
      var end := iter.AtEnd();
      while !end
        invariant iter.Valid() && fresh(iter) && end == (iter.Remaining() == []) && iter.data == ext
        invariant n + |Announced(iter.Remaining())| <= |clock|
        invariant InsertAll(recv, Stamped(Announced(iter.Remaining()), clock[n..])) == InsertAll(old(recv), all)
        invariant next == old(next) && fbCount == old(fbCount)
        decreases |ext| - iter.current
      {
        var e := iter.Current();
        ghost var remaining := iter.Remaining();
        if e.id == 4 && |e.data| == 2 {
          var a := Arrival(Get16(e.data, 0), clock[n]);
          ghost var stamped := Stamped(Announced(remaining), clock[n..]);
          assert stamped[0] == a;
          DropDrop(clock, n, 1);
          assert stamped[1..] == Stamped(Announced(remaining[1..]), clock[n + 1..]);
          InsertArrival(a);
          n := n + 1;
        } else {
          assert Announced(remaining) == Announced(remaining[1..]);
        }
        iter.Next();
        end := iter.AtEnd();
      }
      assert recv == InsertAll(old(recv), all);
      sent := DrainReports();
    }

    method DrainReports() returns (sent: seq<Feedback>)
      modifies this
      ensures (View(), sent) == Drain(old(View()))
    {
      hide Report, Offset;
      sent := [];
      ghost var s0 := View();
      while |recv| > 200
        invariant Drain(View()).0 == Drain(s0).0 && sent + Drain(View()).1 == Drain(s0).1
        decreases |recv|, if recv == [] then 0 else Offset(next, recv[0].num)
      {
        ghost var s := View();
        ReportProgresses(s);
        var f := MakeReport();
        ReportIsSome(s);
        Assoc(sent, [f.value], Drain(View()).1);
        sent := sent + [f.value];
      }
      assert sent + [] == sent;
    }
  }

  lemma SameIsNoOffset(a: U16, b: U16)
    ensures Offset(a, b) == 0 <==> a == b
  {
  }

  lemma ReportIsSome(s: State)
    requires s.recv != []
    ensures Report(s).1.Some?
  {
  }
}
