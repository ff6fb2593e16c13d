/** What reception statistics say, told from the packets that arrived and the report ticks alone. */
module ReceiverHistory {
  import opened Words
  import opened ReceiverStats

  /** The packets among some events. */
  function Packets(es: seq<Event>): seq<Event> {
    if es == [] then []
    else Packets(es[..|es| - 1]) + if es[|es| - 1].Packet? then [es[|es| - 1]] else []
  }

  /** What had happened when the last report was made. */
  function UpToReport(es: seq<Event>): seq<Event> {
    if es == [] then [] else if es[|es| - 1].Tick? then es else UpToReport(es[..|es| - 1])
  }

  lemma {:induction false} RunSplits(s: Stats, es: seq<Event>)
    requires es != []
    ensures Run(s, es) == Step(Run(s, es[..|es| - 1]), es[|es| - 1])
    decreases |es|
  {
    hide Step;
    if |es| == 1 {
      assert es[1..] == [] && es[..0] == [];
    } else {
      RunSplits(Step(s, es[0]), es[1..]);
      assert es[1..][..|es| - 2] == es[..|es| - 1][1..];
    }
  }

  /** What the fields say of the packets so far: how many there are, the first one's number, and the last one's times. */
  predicate Tells(s: Stats, ps: seq<Event>) {
    && s.received == |ps| && (s.started <==> ps != [])
    && (ps != [] ==>
          var last := ps[|ps| - 1];
          && ps[0].Packet? && s.base == ps[0].num && s.expected == ExtendedMax(s) - s.base + 1
          && last.Packet? && s.lastArrival == last.arrival && s.lastRtp == last.rtp)
    && (ps == [] ==> s.expected == 0 && s.lastArrival == 0)
  }

  lemma TrackTells(s: Stats, ps: seq<Event>, p: Event)
    requires Tells(s, ps) && p.Packet?
    ensures Tells(Step(s, p), ps + [p])
  {
    hide NextJitter;
  }

  /** In every run the counts are of the packets that arrived, all of them and those before the last report, whose difference is
      the interval a report is about. */
  lemma {:induction false} CountsAreExact(es: seq<Event>)
    ensures var s, r := Run(FRESH, es), Run(FRESH, UpToReport(es));
            && Tells(s, Packets(es))
            && s.receivedPrior == |Packets(UpToReport(es))| && s.expectedPrior == r.expected
  {
    if es != [] {
      var before, last := es[..|es| - 1], es[|es| - 1];
      CountsAreExact(before);
      RunSplits(FRESH, es);
      hide Run;
      if last.Packet? {
        TrackTells(Run(FRESH, before), Packets(before), last);
      }
    }
  }

  /** The distance of two 32-bit clocks readings, whatever wraps there were between them. */
  lemma AsInt32IsDistance(x: int, y: int)
    requires -0x8000_0000 <= y - x < 0x8000_0000
    ensures AsInt32(y % 0x1_0000_0000 - x % 0x1_0000_0000) == y - x
  {
    var qx, qy := x / 0x1_0000_0000, y / 0x1_0000_0000;
    var d := y % 0x1_0000_0000 - x % 0x1_0000_0000;
    assert d == y - x + 0x1_0000_0000 * (qx - qy);
    Shifted(y - x, qx - qy);
  }

  lemma Shifted(d: int, q: int)
    ensures (d + 0x1_0000_0000 * q) % 0x1_0000_0000 == d % 0x1_0000_0000
  {
  }

  /** The transit difference is the true one, |(R2 - R1) - (S2 - S1)| of section 6.4.1 of RFC 3550, as long as neither clock
      moved by half its range. */
  lemma TransitIsTrue(r1: int, s1: int, r2: int, s2: int)
    requires -0x8000_0000 <= r2 - r1 < 0x8000_0000 && -0x8000_0000 <= s2 - s1 < 0x8000_0000
    ensures var m := 0x1_0000_0000;
            Difference(r1 % m, s1 % m, r2 % m, s2 % m) == Abs((r2 - r1) - (s2 - s1))
  {
    hide AsInt32;
    AsInt32IsDistance(r1, r2);
    AsInt32IsDistance(s1, s2);
  }

  /** Each packet after the first moves the estimate, kept in sixteenths, by the difference less a sixteenth of itself, rounded
      to the nearest (section A.8 of RFC 3550); the first one leaves it alone. */
  lemma JitterMovesASixteenth(s: Stats, num: U16, rtp: U32, arrival: U32)
    ensures var j, t, d := s.jitter, Step(s, Packet(num, rtp, arrival)), Difference(s.lastArrival, s.lastRtp, arrival, rtp);
            if s.lastArrival == 0 then t.jitter == j else -8 <= 16 * (t.jitter - j - d) + j < 8
  {
    hide Difference;
  }
}
