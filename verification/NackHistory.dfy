/** What loss bookkeeping requests, told from the packets that arrived and the requests that were made alone. */
module NackHistory {
  import opened Words
  import opened NackGenerator

  // ---------------------------------------------------------------------------------------------
  // What the history says

  /** The highest of some numbers. */
  function Top(ns: seq<int>): (t: int)
    requires ns != []
    ensures t in ns && forall n :: n in ns ==> n <= t
  {
    var last := ns[|ns| - 1];
    if |ns| == 1 then last
    else
      var t := Top(ns[..|ns| - 1]);
      assert forall n :: n in ns ==> n in ns[..|ns| - 1] || n == last;
      if t < last then last else t
  }

  /** The true numbers of the packets that arrived: the first one's own, then those nearest to the highest so far. */
  function Numbers(es: seq<Event>): seq<int> {
    if es == [] then []
    else
      var before, last := Numbers(es[..|es| - 1]), es[|es| - 1];
      if !last.Packet? then before
      else before + [if before == [] then last.s else Top(before) + SeqDistance(Low16(Top(before)), last.s)]
  }

  /** Number `n` arrived while it was in the window of the `h` highest. */
  predicate Taken(es: seq<Event>, h: nat, n: int) {
    es != [] &&
    var before := Numbers(es[..|es| - 1]);
    || Taken(es[..|es| - 1], h, n)
    || (es[|es| - 1].Packet? && Numbers(es)[|before|] == n && (before == [] || n > Top(before) - h))
  }

  /** The numbers that can be asked for: above the first to arrive and within the `h` highest, and below the highest. */
  predicate Open(ns: seq<int>, h: nat, n: int) {
    ns != [] && Max(ns[0], Top(ns) - h + 1) < n < Top(ns)
  }

  // ---------------------------------------------------------------------------------------------
  // The window

  lemma NumbersStep(es: seq<Event>)
    requires es != []
    ensures var before, last := Numbers(es[..|es| - 1]), es[|es| - 1];
            Numbers(es) == if !last.Packet? then before
                           else before + [if before == [] then last.s else Top(before) + SeqDistance(Low16(Top(before)), last.s)]
  {
    hide Top, SeqDistance, Low16;
  }

  lemma TopMore(ns: seq<int>, n: int)
    ensures Top(ns + [n]) == if ns == [] then n else Max(Top(ns), n)
  {
    assert (ns + [n])[..|ns|] == ns;
  }

  lemma PollKeepsWindow(m: Model, now: int)
    ensures var p := Poll(m, now); p == m.(info := p.info, log := p.log)
  {
    hide Poll;
    PollIsExact(m, now, 0);
  }

  predicate WindowIs(m: Model, ns: seq<int>) {
    (m.started <==> ns != []) && (m.started ==> m.hi == Top(ns) && m.lo == Max(ns[0], Top(ns) - m.h + 1))
  }

  lemma ReceiveMovesWindow(m: Model, ns: seq<int>, s: U16)
    requires m.h > 0 && WindowIs(m, ns)
    ensures WindowIs(Receive(m, s), ns + [if ns == [] then s else Top(ns) + SeqDistance(Low16(Top(ns)), s)])
  {
    hide SeqDistance, Low16, Top, At;
    TopMore(ns, if ns == [] then s else Top(ns) + SeqDistance(Low16(Top(ns)), s));
  }

  /** In every run the window reaches from the first packet, or the `h`-th highest number, to the highest that arrived. */
  lemma {:induction false} WindowIsExact(h: nat, maxRetries: nat, rtt: int, es: seq<Event>)
    requires h > 0
    ensures var m := Run(Initial(h, maxRetries, rtt), es); m.h == h && m.maxRetries == maxRetries && WindowIs(m, Numbers(es))
  {
    if es != [] {
      var n := |es| - 1;
      var p := Run(Initial(h, maxRetries, rtt), es[..n]);
      WindowIsExact(h, maxRetries, rtt, es[..n]);
      NumbersStep(es);
      hide Numbers, SeqDistance, Low16, Poll, Top;
      match es[n] {
        case Packet(s) => ReceiveMovesWindow(p, Numbers(es[..n]), s);
        case Tick(now) => PollKeepsWindow(p, now);
        case RttSample(_) =>
      }
    }
  }

  // ---------------------------------------------------------------------------------------------
  // What is settled

  lemma ReceiveIs(m: Model, s: U16, k: int)
    ensures var n := if m.started then m.hi + SeqDistance(Low16(m.hi), s) else s;
            At(Receive(m, s).info, k).received <==> At(m.info, k).received || (k == n && (!m.started || n > m.hi - m.h))
    ensures AsksOf(Receive(m, s).log, k) == AsksOf(m.log, k)
  {
    hide SeqDistance, Low16, AsksOf;
  }

  /** A number counts as received exactly when it arrived in time, or when a poll has given it up after the last request. */
  lemma {:induction false} SettledIff(h: nat, maxRetries: nat, rtt: int, es: seq<Event>, n: int)
    requires h > 0
    ensures var m := Run(Initial(h, maxRetries, rtt), es);
            && (Taken(es, h, n) ==> At(m.info, n).received)
            && (At(m.info, n).received ==> Taken(es, h, n) || |AsksOf(m.log, n)| >= maxRetries)
  {
    if es != [] {
      var k := |es| - 1;
      var p := Run(Initial(h, maxRetries, rtt), es[..k]);
      SettledIff(h, maxRetries, rtt, es[..k], n);
      WindowIsExact(h, maxRetries, rtt, es[..k]);
      RunIsSafe(h, maxRetries, rtt, es[..k]);
      assert EntryOk(p, n);
      NumbersStep(es);
      hide Numbers, Top, Receive, Poll, SeqDistance, Low16, AsksOf, Inv;
      match es[k] {
        case Packet(s) => ReceiveIs(p, s, n);
        case Tick(now) => PollIsExact(p, now, n);
        case RttSample(_) =>
      }
    }
  }

  // ---------------------------------------------------------------------------------------------
  // What is requested

  /** In every run a poll requests a number exactly when it is open, has not arrived in time, has been requested fewer than
      `maxRetries` times, and was never requested or last at least the round-trip time and 20 ms ago; and then once. */
  lemma RequestedIff(h: nat, maxRetries: nat, rtt: int, es: seq<Event>, now: int, n: int)
    requires h > 0
    ensures var m := Run(Initial(h, maxRetries, rtt), es);
            var asks := AsksOf(m.log, n);
            AsksOf(Poll(m, now).log, n) ==
            asks + if && Open(Numbers(es), h, n) && !Taken(es, h, n) && |asks| < maxRetries
                      && (asks == [] || now - asks[|asks| - 1].at >= m.rtt + 20)
                   then [Ask(n, now, m.rtt + 20)] else []
  {
    var m := Run(Initial(h, maxRetries, rtt), es);
    WindowIsExact(h, maxRetries, rtt, es);
    SettledIff(h, maxRetries, rtt, es, n);
    RunIsSafe(h, maxRetries, rtt, es);
    assert EntryOk(m, n);
    hide Numbers, Taken, Run, Poll, AsksOf, Inv;
    PollIsExact(m, now, n);
  }

  /** The requests of one poll go from the newest number down. */
  lemma {:induction false} ScanDescends(m: Model, now: int, k: nat)
    ensures |m.log| <= |Scan(m, now, k).log|
    ensures var asks := Scan(m, now, k).log[|m.log|..];
            (forall a :: a in asks ==> m.hi - k <= a.num < m.hi) && forall i, j :: 0 <= i < j < |asks| ==> asks[i].num > asks[j].num
  {
    if k > 0 {
      ScanDescends(m, now, k - 1);
      ScanKeeps(m, now, k - 1);
      var s, a := Scan(m, now, k - 1), Ask(m.hi - k, now, m.rtt + 20);
      hide Scan;
      ScanStep(m, now, k - 1);
      var asks := s.log[|m.log|..];
      assert (s.log + [a])[|m.log|..] == asks + [a];
      forall i | 0 <= i < |asks| ensures asks[i].num > m.hi - k {
        assert asks[i] in asks;
      }
    }
  }

  /** The estimate moves an eighth of the way towards the sample, rounded towards zero. */
  lemma SmoothingIsAnEighth(m: Model, sample: int)
    ensures var r := UpdateRtt(m, sample);
            && r == m.(rtt := r.rtt)
            && -8 < 8 * (r.rtt - m.rtt) - (sample - m.rtt) < 8
            && (m.rtt >= 0 && sample >= 0 ==> Min(m.rtt, sample) <= r.rtt <= Max(m.rtt, sample)
                                              && 8 * r.rtt <= 7 * m.rtt + sample < 8 * r.rtt + 8)
  {
  }
}
