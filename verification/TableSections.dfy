/** Table sections of an MPEG transport stream, put together again from the payloads of one stream's packets. */
module TableSections {

  import opened Words

  const MAX_BUFFERED := 4096
  const MAX_SECTION := 1021
  const STUFFING: U8 := 0xFF

  /** Sections handed on, and the bytes kept; nothing is kept once the stream is given up. */
  datatype Cut = Cut(sections: seq<Bytes>, rest: Option<Bytes>)

  /** Length of the section that starts here, with its three leading bytes. */
  function SizeOf(buf: Bytes): nat
    requires |buf| >= 3
  {
    3 + (buf[1] as int % 0x10) * 0x100 + buf[2] as int
  }

  function CutSections(buf: Bytes): (r: Cut)
    ensures forall i :: 0 <= i < |r.sections| ==> |r.sections[i]| >= 3 && |r.sections[i]| == SizeOf(r.sections[i])
    ensures r.rest.Some? ==> |r.rest.value| < 3 + MAX_SECTION && |r.rest.value| <= |buf|
    decreases |buf|
  {
    if |buf| < 3 then Cut([], Some(buf))
    else if buf[0] == STUFFING || SizeOf(buf) > 3 + MAX_SECTION then Cut([], None)
    else if |buf| < SizeOf(buf) then Cut([], Some(buf))
    else
      var r := CutSections(buf[SizeOf(buf)..]);
      Cut([buf[..SizeOf(buf)]] + r.sections, r.rest)
  }

  /** One payload. A starting payload drops what was kept and what precedes its pointer; a continuing one needs something
      to continue. */
  function Take(kept: Option<Bytes>, data: Bytes, start: bool): Cut
    requires data != []
  {
    if start then
      var first := 1 + data[0] as int;
      var before := if kept.Some? then |kept.value| else 0;
      if first >= |data| || before + |data| - first > MAX_BUFFERED then Cut([], None) else CutSections(data[first..])
    else if kept.None? || kept.value == [] || |kept.value| + |data| > MAX_BUFFERED then Cut([], None)
    else CutSections(kept.value + data)
  }

  // ---------------------------------------------------------------------------------------------
  // Splitting does not matter

  lemma CutStep(buf: Bytes)
    ensures CutSections(buf) ==
            if |buf| < 3 then Cut([], Some(buf))
            else if buf[0] == STUFFING || SizeOf(buf) > 3 + MAX_SECTION then Cut([], None)
            else if |buf| < SizeOf(buf) then Cut([], Some(buf))
            else
              var r := CutSections(buf[SizeOf(buf)..]);
              Cut([buf[..SizeOf(buf)]] + r.sections, r.rest)
  {
  }

  /** A section starts here and all of it is there. */
  predicate StartsWhole(buf: Bytes) {
    |buf| >= 3 && buf[0] != STUFFING && SizeOf(buf) <= 3 + MAX_SECTION && |buf| >= SizeOf(buf)
  }

  lemma WholeAppend(a: Bytes, b: Bytes)
    requires StartsWhole(a)
    ensures StartsWhole(a + b) && SizeOf(a + b) == SizeOf(a) && (a + b)[..SizeOf(a)] == a[..SizeOf(a)]
    ensures (a + b)[SizeOf(a)..] == a[SizeOf(a)..] + b
  {
  }

  /** Bytes that arrive later are cut as if they had been there from the start. */
  lemma {:induction false} CutContinues(a: Bytes, b: Bytes)
    ensures var x := CutSections(a);
            x.rest.Some? ==> var y := CutSections(x.rest.value + b);
            CutSections(a + b) == Cut(x.sections + y.sections, y.rest)
    decreases |a|
  {
    hide CutSections, SizeOf;
    CutStep(a);
    if StartsWhole(a) {
      var n := SizeOf(a);
      WholeAppend(a, b);
      CutStep(a + b);
      CutContinues(a[n..], b);
      var x := CutSections(a[n..]);
      if x.rest.Some? {
        Assoc([a[..n]], x.sections, CutSections(x.rest.value + b).sections);
      }
    } else if CutSections(a).rest.Some? {
      var y := CutSections(a + b);
      assert [] + y.sections == y.sections;
    }
  }

  /** A section: a table id that is not stuffing, and behind three bytes as many as their last twelve bits say (section 2.4.4 of
      ISO/IEC 13818-1), 1021 at most. */
  predicate IsSection(s: Bytes) {
    |s| >= 3 && s[0] != 0xFF && |s| == 3 + 256 * (s[1] as int % 16) + s[2] as int && |s| <= 1024
  }

  /** What stands behind the last section: stuffing, a length no section has, or a section's beginning. */
  predicate Ends(tail: Bytes) {
    |tail| >= 3 && tail[0] != 0xFF ==>
      var size := 3 + 256 * (tail[1] as int % 16) + tail[2] as int; size > 1024 || size > |tail|
  }

  /** What is kept of it: its bytes, or nothing when they cannot begin a section. */
  function KeptOf(tail: Bytes): Option<Bytes> {
    if |tail| >= 3 && (tail[0] == 0xFF || 3 + 256 * (tail[1] as int % 16) + tail[2] as int > 1024) then None else Some(tail)
  }

  lemma TailIsCut(tail: Bytes)
    requires Ends(tail)
    ensures CutSections(tail) == Cut([], KeptOf(tail))
  {
    CutStep(tail);
  }

  /** Sections that stand one behind the other come out whole and in order, and the cut stops where they end. */
  lemma {:induction false} SectionsComeOut(sections: seq<Bytes>, tail: Bytes)
    requires (forall i :: 0 <= i < |sections| ==> IsSection(sections[i])) && Ends(tail)
    ensures CutSections(Concat(sections) + tail) == Cut(sections, KeptOf(tail))
    decreases |sections|
  {
    if sections == [] {
      assert Concat(sections) + tail == tail;
      TailIsCut(tail);
    } else {
      var s, more := sections[0], Concat(sections[1..]) + tail;
      Assoc(s, Concat(sections[1..]), tail);
      assert (s + more)[..|s|] == s && (s + more)[|s|..] == more;
      assert IsSection(s) && SizeOf(s + more) == |s|;
      hide CutSections, Concat, Ends, KeptOf;
      CutStep(s + more);
      SectionsComeOut(sections[1..], tail);
      assert [s] + sections[1..] == sections;
    }
  }

  /** A starting payload is cut from behind its pointer field and the bytes that points over; without such bytes, or with more
      than 4096 to keep, the stream is given up. */
  lemma StartIsCutBehindPointer(kept: Option<Bytes>, skipped: Bytes, data: Bytes)
    requires |skipped| < 256
    ensures Take(kept, [|skipped|] + skipped + data, true) ==
            if data == [] || (kept.Some? && |kept.value| + |data| > 4096) || |data| > 4096 then Cut([], None) else CutSections(data)
  {
    hide CutSections;
    var p := [|skipped|] + skipped + data;
    assert p[1 + |skipped|..] == data;
  }

  /** A continuing payload is cut behind what was kept; without anything kept, or with more than 4096 bytes together, the stream
      is given up. */
  lemma ContinuationIsCutBehindKept(kept: Option<Bytes>, data: Bytes)
    requires data != []
    ensures Take(kept, data, false) ==
            if kept == None || kept == Some([]) || |kept.value| + |data| > 4096 then Cut([], None) else CutSections(kept.value + data)
  {
    hide CutSections;
  }

  function TakeAll(kept: Bytes, payloads: seq<Bytes>): Cut
    requires forall i :: 0 <= i < |payloads| ==> payloads[i] != []
    decreases |payloads|
  {
    if payloads == [] then Cut([], Some(kept))
    else
      var x := Take(Some(kept), payloads[0], false);
      if x.rest.None? then x
      else
        var y := TakeAll(x.rest.value, payloads[1..]);
        Cut(x.sections + y.sections, y.rest)
  }

  function Concat(payloads: seq<Bytes>): Bytes {
    if payloads == [] then [] else payloads[0] + Concat(payloads[1..])
  }

  /** No payload but the last ends exactly where a section does: the next one would have nothing to continue. */
  predicate Continued(kept: Bytes, payloads: seq<Bytes>)
    decreases |payloads|
  {
    payloads != [] ==> kept != [] && var x := CutSections(kept + payloads[0]);
                       x.rest.Some? ==> Continued(x.rest.value, payloads[1..])
  }

  /** However a run of sections is spread over continuing payloads, the sections handed on are those of the whole. */
  lemma {:induction false} SplittingDoesNotMatter(kept: Bytes, payloads: seq<Bytes>)
    requires |kept| < 3 + MAX_SECTION && forall i :: 0 <= i < |payloads| ==> payloads[i] != [] && |payloads[i]| <= 188
    requires CutSections(kept) == Cut([], Some(kept)) && Continued(kept, payloads)
    requires CutSections(kept + Concat(payloads)).rest.Some?
    ensures TakeAll(kept, payloads) == CutSections(kept + Concat(payloads))
    decreases |payloads|
  {
    if payloads == [] {
      assert kept + [] == kept;
    } else {
      hide CutSections;
      var p, more := payloads[0], Concat(payloads[1..]);
      var x := CutSections(kept + p);
      Assoc(kept, p, more);
      CutStops(kept + p, more);
      CutContinues(kept + p, more);
      CutRests(kept + p);
      SplittingDoesNotMatter(x.rest.value, payloads[1..]);
    }
  }

  /** Giving up is final. */
  lemma {:induction false} CutStops(a: Bytes, b: Bytes)
    ensures CutSections(a).rest.None? ==> CutSections(a + b).rest.None?
    decreases |a|
  {
    hide CutSections;
    CutStep(a);
    CutStep(a + b);
    if StartsWhole(a) {
      WholeAppend(a, b);
      CutStops(a[SizeOf(a)..], b);
    } else if |a| >= 3 {
      assert SizeOf(a + b) == SizeOf(a);
    }
  }

  /** What is kept holds no whole section. */
  lemma {:induction false} CutRests(a: Bytes)
    ensures var x := CutSections(a); x.rest.Some? ==> CutSections(x.rest.value) == Cut([], x.rest)
    decreases |a|
  {
    hide CutSections, SizeOf;
    CutStep(a);
    if StartsWhole(a) {
      CutRests(a[SizeOf(a)..]);
    }
  }

  // ---------------------------------------------------------------------------------------------
  // The buffer of one stream

  lemma SizeIsPositive(buf: Bytes)
    requires |buf| >= 3
    ensures SizeOf(buf) >= 3
  {
  }

  class SectionBuffer {
    var kept: Option<Bytes>
    ghost var handled: seq<Bytes>

    constructor ()
      ensures kept == None && handled == []
    {
      kept, handled := None, [];
    }

    method ParsePsi(data: Bytes, start: bool)
      requires data != []
      modifies this
      ensures var r := Take(old(kept), data, start); handled == old(handled) + r.sections && kept == r.rest
    {
      hide CutSections;
      assert handled + [] == handled;
      var before := if kept.Some? then |kept.value| else 0;
      if start {
        var first := 1 + data[0] as int;
        if first >= |data| || before + |data| - first > MAX_BUFFERED {
          kept := None;
          return;
        }
        kept := Some(data[first..]);
      } else {
        if kept.None? || kept.value == [] || |kept.value| + |data| > MAX_BUFFERED {
          kept := None;
          return;
        }
        kept := Some(kept.value + data);
      }
      ProcessSections();
    }

    method ProcessSections()
      requires kept.Some?
      modifies this
      ensures var r := CutSections(old(kept.value)); handled == old(handled) + r.sections && kept == r.rest
    {
      hide CutSections, SizeOf;
      var buf := kept.value;
      ghost var whole := CutSections(buf);
      ghost var before, cut: seq<Bytes> := handled, [];
      assert before + [] == before && [] + whole.sections == whole.sections;
      while |buf| >= 3
        invariant kept.Some? && handled == before + cut
        invariant cut + CutSections(buf).sections == whole.sections && CutSections(buf).rest == whole.rest
        decreases |buf|
      {
        CutStep(buf);
        if buf[0] == STUFFING || SizeOf(buf) > 3 + MAX_SECTION {
          kept := None;
          return;
        }
        if |buf| < SizeOf(buf) {
          break;
        }
        var n := SizeOf(buf);
        SizeIsPositive(buf);
        Assoc(cut, [buf[..n]], CutSections(buf[n..]).sections);
        Assoc(before, cut, [buf[..n]]);
        handled, cut := handled + [buf[..n]], cut + [buf[..n]];
        buf := buf[n..];
      }
      CutStep(buf);
      kept := Some(buf);
    }
  }
}
