/** The payload formats of RFC 6184 byte by byte: what the packetizer puts into its fragments, and what the receiver makes of
    single units, aggregation packets and fragments, whoever packed them. */
module H264Payloads {
  import opened Words
  import opened H264

  function Concat(parts: seq<Bytes>): Bytes {
    if parts == [] then [] else parts[0] + Concat(parts[1..])
  }

  // ---------------------------------------------------------------------------------------------
  // What is sent

  /** The fragments' bytes (section 5.8 of RFC 6184): type 28 with the unit's importance bits, then its type, then a piece of
      what follows its header; all but the last fill a packet, and the pieces are the rest of the unit in order. */
  predicate Carry(fs: seq<Bytes>, nal: Bytes, off: nat)
    requires 1 <= off <= |nal|
  {
    && (forall i :: 0 <= i < |fs| ==> |fs[i]| > 2 && fs[i][0] == nal[0] / 32 % 4 * 32 + 28
                                      && fs[i][1] % 32 == nal[0] % 32 && fs[i][1] / 32 % 2 == 0)
    && (forall i :: 0 <= i < |fs| - 1 ==> |fs[i]| == 1200)
    && Concat(Contents(fs)) == nal[off..]
  }

  function Contents(fs: seq<Bytes>): seq<Bytes> {
    seq(|fs|, i requires 0 <= i < |fs| => if |fs[i]| > 2 then fs[i][2..] else [])
  }

  lemma HeaderIs(header: U8, first: bool, last: bool)
    ensures var h := FuHeader(header, first, last); h % 32 == header % 32 && h / 32 % 2 == 0
  {
  }

  lemma {:induction false} FragmentsCarry(nal: Bytes, off: nat)
    requires 1 <= off <= |nal|
    ensures Carry(Fragments(nal, off), nal, off)
    decreases |nal| - off
  {
    if off == |nal| {
      assert Contents(Fragments(nal, off)) == [] && nal[off..] == [];
    } else {
      var end := off + FragmentSize(nal, off);
      var f, more := Fragment(nal, off), Fragments(nal, end);
      FragmentsCarry(nal, end);
      HeaderIs(nal[0], off == 1, end >= |nal|);
      if more != [] {
        FragmentsEnd(nal, end);
      }
      assert f[2..] == nal[off..end];
      CarryMore(f, more, nal, off, end);
    }
  }

  lemma CarryMore(f: Bytes, more: seq<Bytes>, nal: Bytes, off: nat, end: nat)
    requires 1 <= off < end <= |nal| && Carry(more, nal, end)
    requires |f| > 2 && f[0] == nal[0] / 32 % 4 * 32 + 28 && f[1] % 32 == nal[0] % 32 && f[1] / 32 % 2 == 0
    requires (more != [] ==> |f| == 1200) && f[2..] == nal[off..end]
    ensures Carry([f] + more, nal, off)
  {
    var fs := [f] + more;
    assert Contents(fs)[1..] == Contents(more);
    assert nal[off..end] + nal[end..] == nal[off..];
    forall i | 0 <= i < |fs| - 1 ensures |fs[i]| == 1200 {
      if i > 0 {
        assert fs[i] == more[i - 1];
      }
    }
  }

  lemma FragmentsEnd(nal: Bytes, off: nat)
    requires nal != [] && Fragments(nal, off) != []
    ensures off < |nal|
  {
  }

  /** A unit of up to 1200 bytes is sent as it is, a longer one in such fragments. */
  lemma UnitIsSent(nal: Bytes)
    requires nal != []
    ensures if |nal| <= 1200 then PackNal(nal) == [nal] else Carry(PackNal(nal), nal, 1)
  {
    hide Fragments;
    if |nal| > 1200 {
      FragmentsCarry(nal, 1);
    }
  }

  // ---------------------------------------------------------------------------------------------
  // What is received: aggregation packets

  /** A unit behind its length, high byte first. */
  function Sized(unit: Bytes): Bytes
    requires |unit| <= 0xFFFF
  {
    [|unit| / 256, |unit| % 256] + unit
  }

  predicate Sizable(units: seq<Bytes>) {
    forall i :: 0 <= i < |units| ==> 0 < |units[i]| <= 0xFFFF
  }

  function AllSized(units: seq<Bytes>): Bytes
    requires Sizable(units)
  {
    if units == [] then [] else Sized(units[0]) + AllSized(units[1..])
  }

  /** Too short for a length, or a length that is zero or exceeds what is left. */
  predicate CutShort(tail: Bytes) {
    |tail| >= 2 ==> var size: nat := (tail[0] as int) * 256 + tail[1]; size == 0 || 2 + size > |tail|
  }

  lemma AggregatedStep(b: Bytes, off: nat, unit: Bytes, rest: Bytes)
    requires off <= |b| && 0 < |unit| <= 0xFFFF && b[off..] == Sized(unit) + rest
    ensures var end := off + 2 + |unit|;
            end <= |b| && b[end..] == rest && Aggregated(b, off) == START_CODE + unit + Aggregated(b, end)
  {
    var end, s := off + 2 + |unit|, Sized(unit) + rest;
    assert |b| - off == |s|;
    assert b[off] == s[0] && b[off + 1] == s[1] && |unit| == 256 * (|unit| / 256) + |unit| % 256;
    assert b[off + 2..end] == b[off..][2..2 + |unit|] == unit;
    assert b[end..] == b[off..][2 + |unit|..] == rest;
  }

  lemma AggregatedStops(b: Bytes, off: nat)
    requires off <= |b| && CutShort(b[off..])
    ensures Aggregated(b, off) == []
  {
    if |b| - off >= 2 {
      assert b[off..][0] == b[off] && b[off..][1] == b[off + 1];
    }
  }

  lemma {:induction false} UnitsAreUnpacked(b: Bytes, off: nat, units: seq<Bytes>, tail: Bytes)
    requires off <= |b| && Sizable(units) && CutShort(tail) && b[off..] == AllSized(units) + tail
    ensures Aggregated(b, off) == Joined(units)
    decreases |units|
  {
    hide Aggregated, AllSized, CutShort, Joined, Sizable;
    if units == [] {
      NoUnits(b, off, tail);
    } else {
      UnpackOne(b, off, units, tail);
      UnitsAreUnpacked(b, off + 2 + |units[0]|, units[1..], tail);
    }
  }

  lemma UnpackOne(b: Bytes, off: nat, units: seq<Bytes>, tail: Bytes)
    requires units != [] && off <= |b| && Sizable(units) && b[off..] == AllSized(units) + tail
    ensures Sizable(units[1..]) && Joined(units) == START_CODE + units[0] + Joined(units[1..])
    ensures var end := off + 2 + |units[0]|;
            end <= |b| && b[end..] == AllSized(units[1..]) + tail && Aggregated(b, off) == START_CODE + units[0] + Aggregated(b, end)
  {
    FirstSized(units);
    hide Aggregated, AllSized, Sized, Joined, Sizable;
    Assoc(Sized(units[0]), AllSized(units[1..]), tail);
    AggregatedStep(b, off, units[0], AllSized(units[1..]) + tail);
  }

  lemma NoUnits(b: Bytes, off: nat, tail: Bytes)
    requires off <= |b| && CutShort(tail) && b[off..] == AllSized([]) + tail
    ensures Aggregated(b, off) == Joined([])
  {
    assert AllSized([]) + tail == tail;
    hide Aggregated, CutShort;
    AggregatedStops(b, off);
  }

  lemma FirstSized(units: seq<Bytes>)
    requires units != [] && Sizable(units)
    ensures 0 < |units[0]| <= 0xFFFF && Sizable(units[1..])
    ensures AllSized(units) == Sized(units[0]) + AllSized(units[1..])
    ensures Joined(units) == START_CODE + units[0] + Joined(units[1..])
  {
  }

  /** An aggregation packet (section 5.7.1 of RFC 6184) adds every unit in it, in order, each behind a start code; what is cut
      short at its end adds nothing. */
  lemma AggregateIsUnpacked(a: Assembly, header: U8, units: seq<Bytes>, tail: Bytes)
    requires header % 32 == 24 && Sizable(units) && CutShort(tail)
    ensures Feed(a, [header] + AllSized(units) + tail) == a.(out := a.out + Joined(units))
  {
    hide AllSized, CutShort, Joined, Aggregated;
    var p := [header] + AllSized(units) + tail;
    assert p[1..] == AllSized(units) + tail;
    UnitsAreUnpacked(p, 1, units, tail);
  }

  // ---------------------------------------------------------------------------------------------
  // What is received: single units, fragments and the rest

  /** A single unit is added whole; types nobody handles, empty payloads and fragments without a header add nothing. */
  lemma SingleOrIgnored(a: Assembly, p: Bytes)
    ensures p != [] && 1 <= p[0] % 32 <= 23 ==> Feed(a, p) == a.(out := a.out + START_CODE + p)
    ensures p == [] || p[0] % 32 == 0 || 25 <= p[0] % 32 <= 27 || p[0] % 32 >= 29 || (p[0] % 32 == 28 && |p| == 1) ==> Feed(a, p) == a
  {
  }

  /** A fragment: indicator with importance bits, header with start bit, end bit and type, and a piece. */
  function FragmentOf(importance: nat, kind: nat, first: bool, last: bool, piece: Bytes): Bytes
    requires importance < 8 && kind < 32
  {
    [32 * importance + 28, (if first then 128 else 0) + (if last then 64 else 0) + kind] + piece
  }

  lemma FragmentFields(importance: nat, kind: nat, first: bool, last: bool, piece: Bytes)
    requires importance < 8 && kind < 32
    ensures var f := FragmentOf(importance, kind, first, last, piece);
            && |f| >= 2 && f[0] % 32 == 28 && f[0] / 32 == importance && f[1] % 32 == kind && f[2..] == piece
            && (StartBit(f) <==> first) && (EndBit(f) <==> last)
  {
  }

  /** One fragment: the first begins a unit, whatever was there; later ones extend it if its beginning was seen; the last
      hands it over. Without a beginning pieces are dropped, and a last one adds a bare start code. */
  lemma FragmentIsTaken(a: Assembly, importance: nat, kind: nat, first: bool, last: bool, piece: Bytes)
    requires importance < 8 && kind < 32
    ensures var partial := if first then [32 * importance + kind] + piece else if a.inFu then a.partial + piece else a.partial;
            Feed(a, FragmentOf(importance, kind, first, last, piece)) ==
            if last then Assembly(a.out + START_CODE + partial, [], false) else Assembly(a.out, partial, a.inFu || first)
  {
    hide FragmentOf, StartBit, EndBit;
    FragmentFields(importance, kind, first, last, piece);
  }

  /** The fragments of a unit cut into any pieces. */
  function Fragmented(importance: nat, kind: nat, first: bool, pieces: seq<Bytes>): seq<Bytes>
    requires importance < 8 && kind < 32
  {
    if pieces == [] then []
    else [FragmentOf(importance, kind, first, |pieces| == 1, pieces[0])] + Fragmented(importance, kind, false, pieces[1..])
  }

  lemma {:induction false} LaterPieces(a: Assembly, importance: nat, kind: nat, pieces: seq<Bytes>)
    requires importance < 8 && kind < 32 && a.inFu && pieces != []
    ensures FeedAll(a, Fragmented(importance, kind, false, pieces)) ==
            Assembly(a.out + START_CODE + (a.partial + Concat(pieces)), [], false)
    decreases |pieces|
  {
    hide Feed, FragmentOf;
    FragmentIsTaken(a, importance, kind, false, |pieces| == 1, pieces[0]);
    var fs := Fragmented(importance, kind, false, pieces);
    assert fs[1..] == Fragmented(importance, kind, false, pieces[1..]);
    if |pieces| == 1 {
      assert a.partial + pieces[0] == a.partial + Concat(pieces);
    } else {
      var b := Feed(a, fs[0]);
      LaterPieces(b, importance, kind, pieces[1..]);
      assert a.partial + pieces[0] + Concat(pieces[1..]) == a.partial + Concat(pieces);
    }
  }

  /** However a sender cuts a unit into two or more fragments, the receiver puts it together again behind a start code, and a
      unit begun before and never finished is dropped. */
  lemma AnyFragmentsRebuild(a: Assembly, importance: nat, kind: nat, pieces: seq<Bytes>)
    requires importance < 8 && kind < 32 && |pieces| >= 2
    ensures FeedAll(a, Fragmented(importance, kind, true, pieces)) ==
            Assembly(a.out + START_CODE + ([32 * importance + kind] + Concat(pieces)), [], false)
  {
    hide Feed, FragmentOf;
    FragmentIsTaken(a, importance, kind, true, false, pieces[0]);
    var fs := Fragmented(importance, kind, true, pieces);
    assert fs[1..] == Fragmented(importance, kind, false, pieces[1..]);
    LaterPieces(Feed(a, fs[0]), importance, kind, pieces[1..]);
    Assoc([32 * importance + kind], pieces[0], Concat(pieces[1..]));
  }
}
