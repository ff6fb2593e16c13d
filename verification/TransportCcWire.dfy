/** The byte form of transport-wide feedback: the builder, and a reader written from section 3.1 of
    draft-holmer-rmcat-transport-wide-cc-extensions-01 that knows every chunk type. */
module TransportCcWire {
  import opened Words
  import opened TransportCc
  import Rtcp
  import Rtp

  // ---------------------------------------------------------------------------------------------
  // Building

  function Symbol(i: Info): (s: nat)
    ensures s < 4
  {
    match i.status
    case NotReceived => 0
    case SmallDelta => 1
    case LargeDelta => 2
    case WithoutDelta => 3
  }

  function Symbols(infos: seq<Info>): (ss: seq<nat>)
    ensures |ss| == |infos| && forall k :: 0 <= k < |ss| ==> ss[k] == Symbol(infos[k]) < 4
  {
    seq(|infos|, k requires 0 <= k < |infos| => Symbol(infos[k]))
  }

  predicate Fours(ss: seq<nat>) {
    forall k :: 0 <= k < |ss| ==> ss[k] < 4
  }

  function Pow4(n: nat): (p: nat)
    ensures p >= 1
  {
    if n == 0 then 1 else 4 * Pow4(n - 1)
  }

  /** Two-bit symbols side by side, the first one in the highest place. */
  function Packed(ss: seq<nat>): nat {
    if ss == [] then 0 else 4 * Packed(ss[..|ss| - 1]) + ss[|ss| - 1]
  }

  function NoSymbols(n: nat): (z: seq<nat>)
    ensures |z| == n && Fours(z)
  {
    seq(n, _ => 0)
  }

  lemma PackedIsBounded(ss: seq<nat>)
    requires Fours(ss)
    ensures Packed(ss) < Pow4(|ss|)
  {
    if ss != [] {
      PackedIsBounded(ss[..|ss| - 1]);
    }
  }

  /** The status-vector chunk for up to seven packets; unused places are zero. */
  function Chunk(infos: seq<Info>): U16
    requires |infos| <= 7
  {
    var ss := Symbols(infos) + NoSymbols(7 - |infos|);
    PackedIsBounded(ss);
    SevenSymbols();
    0xC000 + Packed(ss)
  }

  function Chunks(infos: seq<Info>): (b: Bytes)
    ensures |b| == (|infos| + 6) / 7 * 2
  {
    if infos == [] then []
    else
      var n := Min(7, |infos|);
      Be16(Chunk(infos[..n])) + Chunks(infos[n..])
  }

  /** A small delta takes one byte, even when it is negative; a large one takes two. */
  function DeltaBytes(i: Info): (b: Bytes)
    ensures |b| <= 2
  {
    match i.status
    case SmallDelta => [i.delta % 0x100]
    case LargeDelta => Be16(Low16(i.delta))
    case _ => []
  }

  function Deltas(infos: seq<Info>): (b: Bytes)
    ensures |b| <= 2 * |infos|
  {
    if infos == [] then [] else DeltaBytes(infos[0]) + Deltas(infos[1..])
  }

  predicate Encodable(f: Feedback) {
    && |f.infos| < 0x1_0000 && 0 <= f.refTime < 0x100_0000
    && forall i :: 0 <= i < |f.infos| ==> -0x8000 <= f.infos[i].delta < 0x8000
  }

  function ControlInfo(f: Feedback): (b: Bytes)
    requires Encodable(f)
    ensures 8 <= |b| <= 0x3_0000
  {
    Be16(f.base) + Be16(|f.infos|) + Be32(f.refTime * 0x100 + f.fbCount) + (Chunks(f.infos) + Deltas(f.infos))
  }

  /** Zero to three bytes up to a multiple of four; the last one is their count. */
  function Trailer(n: nat): (b: Bytes)
    ensures |b| == PadTo4(n) && (b != [] ==> b[|b| - 1] == |b|)
  {
    var k := PadTo4(n);
    if k == 0 then [] else Zeros(k - 1) + [k]
  }

  function Build(sender: U32, media: U32, f: Feedback): Bytes
    requires Encodable(f)
  {
    var fci := ControlInfo(f);
    var pad := Trailer(|fci|);
    Rtcp.Feedback(if pad == [] then 0 else 1, 15, (12 + |fci| + |pad|) / 4 - 1, sender, media, fci + pad)
  }

  // ---------------------------------------------------------------------------------------------
  // Reading

  /** The last `n` two-bit symbols of `v`. */
  function Unpacked(v: nat, n: nat): (ss: seq<nat>)
    ensures |ss| == n
  {
    if n == 0 then [] else Unpacked(v / 4, n - 1) + [v % 4]
  }

  /** The last `n` one-bit symbols of `v`: not received, or received with a small delta. */
  function UnpackedBits(v: nat, n: nat): (ss: seq<nat>)
    ensures |ss| == n
  {
    if n == 0 then [] else UnpackedBits(v / 2, n - 1) + [v % 2]
  }

  /** The symbols of a chunk: a run, fourteen one-bit symbols, or seven two-bit symbols. */
  function ChunkSymbols(v: U16): seq<nat> {
    if v < 0x8000 then seq(v % 0x2000, _ => v / 0x2000)
    else if v < 0xC000 then UnpackedBits(v % 0x4000, 14)
    else Unpacked(v % 0x4000, 7)
  }

  /** The first `n` symbols and what follows the chunks they take. */
  function ReadSymbols(b: Bytes, n: nat): Option<(seq<nat>, Bytes)> {
    if n == 0 then Some(([], b))
    else if |b| < 2 then None
    else
      var ss := ChunkSymbols(Get16(b, 0));
      var take := Min(n, |ss|);
      match ReadSymbols(b[2..], n - take)
      case None => None
      case Some((more, rest)) => Some((ss[..take] + more, rest))
  }

  /** A packet as the report describes it; the delta is 0 where the report carries none. */
  datatype Item = Item(symbol: nat, delta: int)

  function ReadDeltas(ss: seq<nat>, b: Bytes): Option<seq<Item>> {
    if ss == [] then Some([])
    else if (ss[0] == 1 && |b| < 1) || (ss[0] == 2 && |b| < 2) then None
    else
      var n := if ss[0] == 1 then 1 else if ss[0] == 2 then 2 else 0;
      var delta := if n == 1 then b[0] as int else if n == 2 then AsInt16(Get16(b, 0)) else 0;
      match ReadDeltas(ss[1..], b[n..])
      case None => None
      case Some(more) => Some([Item(ss[0], delta)] + more)
  }

  datatype Description = Description(base: U16, refTime: int, fbCount: U8, items: seq<Item>)

  function ReadControlInfo(b: Bytes): Option<Description> {
    if |b| < 8 then None
    else
      match ReadSymbols(b[8..], Get16(b, 2))
      case None => None
      case Some((ss, rest)) =>
        match ReadDeltas(ss, rest)
        case None => None
        case Some(items) => Some(Description(Get16(b, 0), Get32(b, 4) / 0x100, Get32(b, 4) % 0x100, items))
  }

  /** What a receiver of the datagram learns. */
  function Read(b: Bytes): Option<Description> {
    match Rtcp.Parse(b)
    case None => None
    case Some(p) => if p.kind == Rtcp.RTPFB && p.count == 15 then ReadControlInfo(p.payload) else None
  }

  // ---------------------------------------------------------------------------------------------
  // Reading what was built

  /** The item for one packet: a large delta exactly, a small one as an unsigned byte. */
  function ItemOf(i: Info): Item {
    Item(Symbol(i), if i.status == SmallDelta then i.delta % 0x100 else if i.status == LargeDelta then i.delta else 0)
  }

  function Items(infos: seq<Info>): seq<Item> {
    if infos == [] then [] else [ItemOf(infos[0])] + Items(infos[1..])
  }

  lemma {:induction false} UnpackedOfPacked(ss: seq<nat>)
    requires Fours(ss)
    ensures Unpacked(Packed(ss), |ss|) == ss
  {
    if ss != [] {
      UnpackedOfPacked(ss[..|ss| - 1]);
      assert ss == ss[..|ss| - 1] + [ss[|ss| - 1]];
    }
  }

  lemma ChunkRoundTrip(infos: seq<Info>)
    requires |infos| <= 7
    ensures ChunkSymbols(Chunk(infos)) == Symbols(infos) + NoSymbols(7 - |infos|)
  {
    var ss := Symbols(infos) + NoSymbols(7 - |infos|);
    PackedIsBounded(ss);
    UnpackedOfPacked(ss);
    SevenSymbols();
    hide Packed, Unpacked, Pow4, Symbols, NoSymbols;
    assert Chunk(infos) % 0x4000 == Packed(ss);
  }

  lemma SevenSymbols()
    ensures Pow4(7) == 0x4000
  {
  }

  lemma {:induction false} ReadSymbolsOfChunks(infos: seq<Info>, rest: Bytes)
    ensures ReadSymbols(Chunks(infos) + rest, |infos|) == Some((Symbols(infos), rest))
    decreases |infos|
  {
    if infos == [] {
      assert Chunks(infos) + rest == rest;
    } else {
      var n := Min(7, |infos|);
      var chunk, tail := Chunk(infos[..n]), Chunks(infos[n..]);
      assert Chunks(infos) == Be16(chunk) + tail;
      hide Be16, Get16, Chunk, ChunkSymbols, Chunks, Symbols, ReadSymbols;
      Assoc(Be16(chunk), tail, rest);
      ReadSymbolsStep(chunk, tail + rest, |infos|);
      ChunkRoundTrip(infos[..n]);
      ReadSymbolsOfChunks(infos[n..], rest);
      SymbolsSplit(infos, n);
    }
  }

  lemma ReadSymbolsStep(chunk: U16, rest: Bytes, n: nat)
    requires n > 0
    ensures var ss := ChunkSymbols(chunk);
            var take := Min(n, |ss|);
            ReadSymbols(Be16(chunk) + rest, n) == match ReadSymbols(rest, n - take)
                                                  case None => None
                                                  case Some((more, left)) => Some((ss[..take] + more, left))
  {
    hide Be16, Get16, ChunkSymbols;
    var b := Be16(chunk) + rest;
    assert b[0..2] == Be16(chunk) && b[2..] == rest;
    Get16Reads(b, 0, chunk);
  }

  lemma SymbolsSplit(infos: seq<Info>, n: nat)
    requires n <= |infos|
    ensures Symbols(infos) == Symbols(infos[..n]) + Symbols(infos[n..])
  {
  }

  lemma ReadDeltasStep(ss: seq<nat>, i: Info, tail: Bytes)
    requires ss != [] && ss[0] == Symbol(i) && -0x8000 <= i.delta < 0x8000
    ensures ReadDeltas(ss, DeltaBytes(i) + tail) ==
            match ReadDeltas(ss[1..], tail)
            case None => None
            case Some(more) => Some([ItemOf(i)] + more)
  {
    hide Be16, Get16;
    var b, n := DeltaBytes(i) + tail, |DeltaBytes(i)|;
    assert b[n..] == tail;
    if i.status == LargeDelta {
      assert b[0..2] == Be16(Low16(i.delta));
      Get16Reads(b, 0, Low16(i.delta));
    }
  }

  lemma {:induction false} ReadDeltasOfDeltas(infos: seq<Info>)
    requires forall i :: 0 <= i < |infos| ==> -0x8000 <= infos[i].delta < 0x8000
    ensures ReadDeltas(Symbols(infos), Deltas(infos)) == Some(Items(infos))
  {
    if infos != [] {
      hide DeltaBytes, ReadDeltas, ItemOf;
      assert Symbols(infos)[1..] == Symbols(infos[1..]);
      ReadDeltasStep(Symbols(infos), infos[0], Deltas(infos[1..]));
      ReadDeltasOfDeltas(infos[1..]);
    }
  }

  lemma ReferenceWord(refTime: int, fbCount: U8)
    requires 0 <= refTime < 0x100_0000
    ensures var w := refTime * 0x100 + fbCount; w / 0x100 == refTime && w % 0x100 == fbCount
  {
  }

  lemma ControlInfoRoundTrip(f: Feedback)
    requires Encodable(f)
    ensures ReadControlInfo(ControlInfo(f)) == Some(Description(f.base, f.refTime, f.fbCount, Items(f.infos)))
  {
    hide Be16, Be32, Get16, Get32, Chunks, Deltas, ReadSymbols, ReadDeltas, Items;
    var b, word := ControlInfo(f), f.refTime * 0x100 + f.fbCount;
    assert b[0..2] == Be16(f.base) && b[2..4] == Be16(|f.infos|) && b[4..8] == Be32(word);
    assert b[8..] == Chunks(f.infos) + Deltas(f.infos);
    Get16Reads(b, 0, f.base);
    Get16Reads(b, 2, |f.infos|);
    Get32Reads(b, 4, word);
    ReferenceWord(f.refTime, f.fbCount);
    ReadSymbolsOfChunks(f.infos, Deltas(f.infos));
    ReadDeltasOfDeltas(f.infos);
  }

  lemma TrailerIsStripped(b: Bytes)
    ensures Rtp.StripPadding(if Trailer(|b|) == [] then 0 else 1, b + Trailer(|b|)) == Some(b)
  {
    var pad := Trailer(|b|);
    if pad == [] {
      assert b + pad == b;
    } else {
      assert (b + pad)[|b + pad| - 1] == pad[|pad| - 1];
      assert (b + pad)[..|b|] == b;
    }
  }

  /** The built datagram reads back as the report: base, count, reference time, counter and every status, with the
      padding stripped exactly. */
  lemma BuildThenRead(sender: U32, media: U32, f: Feedback)
    requires Encodable(f)
    ensures Read(Build(sender, media, f)) == Some(Description(f.base, f.refTime, f.fbCount, Items(f.infos)))
  {
    hide ControlInfo, Trailer, ReadControlInfo, Items, Rtcp.Feedback, Rtcp.Parse;
    var fci := ControlInfo(f);
    var pad := Trailer(|fci|);
    var words := (12 + |fci| + |pad|) / 4 - 1;
    Rtcp.ParseOfFeedback(if pad == [] then 0 else 1, 15, words, sender, media, fci + pad);
    assert (fci + pad)[..4 * (words - 2)] == fci + pad;
    TrailerIsStripped(fci);
    ControlInfoRoundTrip(f);
  }

  lemma ItemsAt(infos: seq<Info>, k: nat)
    requires k < |infos|
    ensures |Items(infos)| == |infos| && Items(infos)[k] == ItemOf(infos[k])
  {
    if k > 0 {
      ItemsAt(infos[1..], k - 1);
    } else if |infos| > 1 {
      ItemsAt(infos[1..], 0);
    }
  }

  lemma {:induction false} WalkDeltas(recv: seq<Arrival>, pos: U16, last: int, infos: seq<Info>)
    requires forall i :: 0 <= i < |infos| ==> InfoOk(infos[i])
    ensures forall i :: 0 <= i < |Walk(recv, pos, last, infos).0| ==> InfoOk(Walk(recv, pos, last, infos).0[i])
    decreases |recv|
  {
    hide Offset, Ticks, Low16;
    if recv == [] || |infos| >= MAX_COUNT {
      WalkEnds(recv, pos, last, infos);
    } else if Offset(pos, recv[0].num) > MAX_COUNT - |infos| {
      WalkGivesUp(recv, pos, last, infos);
      MissingIsMissing(MAX_COUNT - |infos|);
    } else {
      WalkOn(recv, pos, last, infos);
      MissingIsMissing(Offset(pos, recv[0].num));
      SmallIsSmall(Ticks(recv[0].at, last));
      hide Walk, InfoOk, Received;
      WalkDeltas(recv[1..], Low16(recv[0].num + 1), recv[0].at,
                 infos + Missing(Offset(pos, recv[0].num)) + [Received(Ticks(recv[0].at, last))]);
    }
  }

  /** A small delta fits one signed byte, any other two. */
  predicate InfoOk(i: Info) {
    && -0x8000 <= i.delta < 0x8000
    && (i.status == SmallDelta ==> -128 <= i.delta <= 127)
    && (i.status == NotReceived ==> i.delta == 0)
  }

  lemma MissingIsMissing(n: nat)
    ensures forall i :: 0 <= i < n ==> InfoOk(Missing(n)[i])
  {
  }

  lemma SmallIsSmall(ticks: int)
    ensures InfoOk(Received(ticks))
  {
  }

  /** A small delta below zero, which the one-byte form cannot tell from one above 127. */
  predicate Misread(i: Info) {
    i.status == SmallDelta && i.delta < 0
  }

  /** The k-th packet of a report as a reader of the datagram sees it: its status always, its delta exactly unless
      it is a negative one in the one-byte form, which reads 256 units too high. */
  ghost predicate Survives(f: Feedback, b: Bytes, k: nat)
    requires k < |f.infos|
  {
    var d := Read(b);
    && d.Some? && d.value.base == f.base && d.value.refTime == f.refTime && d.value.fbCount == f.fbCount
    && |d.value.items| == |f.infos| && d.value.items[k].symbol == Symbol(f.infos[k])
    && (f.infos[k].status != WithoutDelta ==>
          d.value.items[k].delta == f.infos[k].delta + if Misread(f.infos[k]) then 0x100 else 0)
  }

  lemma FeedbackSurvives(f: Feedback, sender: U32, media: U32, k: nat)
    requires Encodable(f) && k < |f.infos| && InfoOk(f.infos[k])
    ensures Survives(f, Build(sender, media, f), k)
  {
    hide Encodable, Read, Build, Items;
    BuildThenRead(sender, media, f);
    ItemsAt(f.infos, k);
  }

  /** Every report that is made survives the wire. */
  lemma ReportSurvives(s: State, sender: U32, media: U32, k: nat)
    requires s.recv != [] && k < |Report(s).1.value.infos|
    ensures Encodable(Report(s).1.value) && Survives(Report(s).1.value, Build(sender, media, Report(s).1.value), k)
  {
    hide Report, Encodable, Survives, Build;
    MadeReportIsOk(s);
    FeedbackSurvives(Report(s).1.value, sender, media, k);
  }

  lemma MadeReportIsOk(s: State)
    requires s.recv != []
    ensures Report(s).1.Some? && var f := Report(s).1.value; Encodable(f) && forall i :: 0 <= i < |f.infos| ==> InfoOk(f.infos[i])
  {
    hide Walk, Start;
    WalkIsBounded(s.recv, Base(s), Start(s.recv[0]), []);
    WalkDeltas(s.recv, Base(s), Start(s.recv[0]), []);
    var infos := Report(s).1.value.infos;
    assert infos == Walk(s.recv, Base(s), Start(s.recv[0]), []).0;
    assert forall i :: 0 <= i < |infos| ==> InfoOk(infos[i]);
  }

  const UP := Info(SmallDelta, 1)
  const DOWN := Info(SmallDelta, -1)
  const EARLY := Arrival(1, 64_000_000)
  const LATE := Arrival(0, 64_250_000)

  lemma ReorderedTicks()
    ensures Start(LATE) == 64_000_000 && Reference(LATE) / 64000 == 1
    ensures Received(Ticks(64_250_000, 64_000_000)) == UP && Received(Ticks(64_000_000, 64_250_000)) == DOWN
  {
  }

  lemma ReorderedWalk()
    ensures Walk([LATE, EARLY], 0, 64_000_000, []) == ([UP, DOWN], [])
  {
    ReorderedTicks();
    WalkOn([LATE, EARLY], 0, 64_000_000, []);
    WalkOn([EARLY], 1, 64_250_000, [UP]);
    WalkEnds([], 2, 64_000_000, [UP, DOWN]);
    hide Walk, Received, Ticks;
    assert [LATE, EARLY][1..] == [EARLY] && [EARLY][1..] == [];
    assert [] + Missing(0) + [UP] == [UP] && [UP] + Missing(0) + [DOWN] == [UP, DOWN];
  }

  lemma ReorderedItems()
    ensures Items([UP, DOWN]) == [Item(1, 1), Item(1, 255)]
  {
    assert [UP, DOWN][1..] == [DOWN] && [DOWN][1..] == [];
    assert Items([DOWN]) == [ItemOf(DOWN)] + Items([]);
  }

  /** Two packets that arrived in the other order, 250 microseconds apart, make such a report: the second delta is -1 and
      is read as 255. */
  lemma ReorderedIsMisread(sender: U32, media: U32)
    ensures var f := Report(State([LATE, EARLY], 0, 0)).1;
            && f.Some? && f.value.infos == [UP, DOWN] && Encodable(f.value)
            && var d := Read(Build(sender, media, f.value));
            d.Some? && d.value.items == [Item(1, 1), Item(1, 255)]
  {
    ReorderedTicks();
    ReorderedWalk();
    ReorderedItems();
    hide Walk, Start, Read, Build, Items, Reference;
    var f := Report(State([LATE, EARLY], 0, 0)).1.value;
    assert f.infos == [UP, DOWN];
    BuildThenRead(sender, media, f);
  }

  // ---------------------------------------------------------------------------------------------
  // Arrival times as they are read

  function ItemSum(items: seq<Item>): int {
    if items == [] then 0 else ItemSum(items[..|items| - 1]) + items[|items| - 1].delta
  }

  /** The times a reader of the datagram computes for the received numbers, in nanoseconds. */
  function ItemTimes(start: int, items: seq<Item>): seq<int> {
    if items == [] then []
    else
      ItemTimes(start, items[..|items| - 1]) +
      if items[|items| - 1].symbol == 0 then [] else [start + 250_000 * ItemSum(items)]
  }

  predicate NoneMisread(infos: seq<Info>) {
    forall i :: 0 <= i < |infos| ==> !Misread(infos[i])
  }

  predicate AllOk(infos: seq<Info>) {
    forall i :: 0 <= i < |infos| ==> InfoOk(infos[i]) && infos[i].status != WithoutDelta
  }

  lemma {:induction false} ItemsAppend(infos: seq<Info>, i: Info)
    ensures Items(infos + [i]) == Items(infos) + [ItemOf(i)]
  {
    hide ItemOf;
    if infos != [] {
      assert (infos + [i])[1..] == infos[1..] + [i];
      ItemsAppend(infos[1..], i);
    }
  }

  lemma ItemsLast(infos: seq<Info>)
    requires infos != []
    ensures var n, items := |infos| - 1, Items(infos);
            |items| == |infos| && items[..n] == Items(infos[..n]) && items[n] == ItemOf(infos[n])
  {
    hide ItemOf;
    var n := |infos| - 1;
    assert infos == infos[..n] + [infos[n]];
    ItemsAppend(infos[..n], infos[n]);
    ItemsAt(infos, n);
  }

  /** The sum read is the sum meant plus 256 for every misread delta. */
  lemma {:induction false} SumsRead(infos: seq<Info>)
    requires AllOk(infos)
    ensures ItemSum(Items(infos)) >= DeltaSum(infos)
    ensures ItemSum(Items(infos)) == DeltaSum(infos) <==> NoneMisread(infos)
  {
    if infos != [] {
      var n := |infos| - 1;
      ItemsLast(infos);
      SumsRead(infos[..n]);
      assert NoneMisread(infos) <==> NoneMisread(infos[..n]) && !Misread(infos[n]);
      assert ItemOf(infos[n]).delta == infos[n].delta + if Misread(infos[n]) then 0x100 else 0;
    }
  }

  /** A reader computes the times the report stands for exactly when no delta is misread. */
  lemma {:induction false} TimesReadIff(start: int, infos: seq<Info>)
    requires AllOk(infos)
    ensures |ItemTimes(start, Items(infos))| == |Rebuilt(start, infos)|
    ensures ItemTimes(start, Items(infos)) == Rebuilt(start, infos) <==> NoneMisread(infos)
  {
    if infos != [] {
      var n := |infos| - 1;
      ItemsLast(infos);
      SumsRead(infos);
      TimesReadIff(start, infos[..n]);
      assert NoneMisread(infos) <==> NoneMisread(infos[..n]) && !Misread(infos[n]);
      hide Items, DeltaSum, ItemSum, InfoOk;
      var meant, read := Rebuilt(start, infos[..n]), ItemTimes(start, Items(infos[..n]));
      if infos[n].status == NotReceived {
        assert meant + [] == meant && read + [] == read;
      } else {
        LastDiffers(read, meant, start + 250_000 * ItemSum(Items(infos)), start + 250_000 * DeltaSum(infos));
      }
    }
  }

  lemma LastDiffers(a: seq<int>, b: seq<int>, x: int, y: int)
    requires |a| == |b|
    ensures a + [x] == b + [y] <==> a == b && x == y
  {
    if a + [x] == b + [y] {
      assert a == (a + [x])[..|a|] && b == (b + [y])[..|b|] && (a + [x])[|a|] == x && (b + [y])[|b|] == y;
    }
  }

  /** From the datagram of a report with a delta for every received number, none of them misread, a reader recovers the
      time of the k-th received packet within 250 k microseconds. */
  lemma TimesAreRead(s: State, sender: U32, media: U32)
    requires s.recv != [] && s.recv[0].at >= 0
    requires NoneWithoutDelta(Report(s).1.value.infos) && NoneMisread(Report(s).1.value.infos)
    ensures var (t, f) := Report(s);
            && Encodable(f.value) && Read(Build(sender, media, f.value)).Some?
            && var times := ItemTimes(Reference(s.recv[0]) * 1000, Read(Build(sender, media, f.value)).value.items);
            |times| == |s.recv| - |t.recv| && Close(times, s.recv)
  {
    hide Report, Encodable, Read, Build, Items, ItemTimes, Rebuilt, Close, Reference, NoneMisread;
    MadeReportIsOk(s);
    var f := Report(s).1.value;
    BuildThenRead(sender, media, f);
    TimesReadIff(Reference(s.recv[0]) * 1000, f.infos);
    TimesFollow(s);
  }

  // ---------------------------------------------------------------------------------------------
  // The building loops

  /** Putting a symbol into a free place adds it at that place's weight. */
  lemma {:induction false} PackedPlace(ss: seq<nat>, x: nat, k: nat)
    ensures Packed(ss + [x] + NoSymbols(k)) == Packed(ss + NoSymbols(k + 1)) + x * Pow4(k)
  {
    var a, b := ss + [x] + NoSymbols(k), ss + NoSymbols(k + 1);
    if k == 0 {
      assert a == ss + [x] && b == ss + [0];
      assert (ss + [x])[..|ss|] == ss && (ss + [0])[..|ss|] == ss;
    } else {
      assert a[..|a| - 1] == ss + [x] + NoSymbols(k - 1) && a[|a| - 1] == 0;
      assert b[..|b| - 1] == ss + NoSymbols(k) && b[|b| - 1] == 0;
      PackedPlace(ss, x, k - 1);
      assert 4 * (x * Pow4(k - 1)) == x * (4 * Pow4(k - 1));
    }
  }

  lemma NothingPacked(k: nat)
    ensures Packed(NoSymbols(k)) == 0
  {
    if k > 0 {
      assert NoSymbols(k)[..k - 1] == NoSymbols(k - 1);
      NothingPacked(k - 1);
    }
  }

  /** One chunk: each symbol goes into its place, from the highest down. */
  method FillChunk(infos: seq<Info>) returns (chunk: U16)
    requires |infos| <= 7
    ensures chunk == Chunk(infos)
  {
    hide Packed, Pow4, Symbols, NoSymbols;
    ghost var ss := Symbols(infos);
    var value, j := 0xC000, 0;
    NothingPacked(7);
    assert ss[..0] + NoSymbols(7) == NoSymbols(7);
    while j < |infos|
      invariant j <= |infos| && value == 0xC000 + Packed(ss[..j] + NoSymbols(7 - j))
    {
      PackedPlace(ss[..j], ss[j], 6 - j);
      assert ss[..j + 1] == ss[..j] + [ss[j]];
      value := value + Symbol(infos[j]) * Pow4(6 - j);
      j := j + 1;
    }
    assert ss[..|infos|] == ss;
    assert value == Chunk(infos);
    chunk := value;
  }

  lemma {:induction false} DeltasAppend(infos: seq<Info>, i: Info)
    ensures Deltas(infos + [i]) == Deltas(infos) + DeltaBytes(i)
  {
    hide DeltaBytes;
    if infos != [] {
      assert (infos + [i])[1..] == infos[1..] + [i];
      DeltasAppend(infos[1..], i);
      Assoc(DeltaBytes(infos[0]), Deltas(infos[1..]), DeltaBytes(i));
    } else {
      assert infos + [i] == [i] && [i][1..] == [];
    }
  }

  lemma ChunksStep(infos: seq<Info>, i: nat)
    requires i < |infos|
    ensures var n := Min(7, |infos| - i);
            Chunks(infos[i..]) == Be16(Chunk(infos[i..i + n])) + Chunks(infos[i + n..])
  {
    hide Be16, Chunk;
    var n := Min(7, |infos| - i);
    DropTake(infos, i, n);
    DropDrop(infos, i, n);
  }

  /** The deltas of the packets from `i` up to `stop`. */
  method AppendDeltas(before: Bytes, infos: seq<Info>, from: nat, stop: nat) returns (deltas: Bytes)
    requires from <= stop <= |infos| && before == Deltas(infos[..from])
    ensures deltas == Deltas(infos[..stop])
  {
    hide Deltas, DeltaBytes;
    deltas := before;
    for i := from to stop
      invariant deltas == Deltas(infos[..i])
    {
      assert infos[..i + 1] == infos[..i] + [infos[i]];
      DeltasAppend(infos[..i], infos[i]);
      deltas := deltas + DeltaBytes(infos[i]);
    }
  }

  /** All chunks, then all deltas. */
  method BuildStatus(infos: seq<Info>) returns (b: Bytes)
    ensures b == Chunks(infos) + Deltas(infos)
  {
    NoChunks();
    hide Be16, Chunk, Chunks, Deltas;
    var chunks: Bytes, deltas: Bytes, i := [], [], 0;
    NoDeltas();
    assert infos[..0] == [] && infos[0..] == infos && [] + Chunks(infos) == Chunks(infos);
    while i < |infos|
      invariant i <= |infos| && chunks + Chunks(infos[i..]) == Chunks(infos) && deltas == Deltas(infos[..i])
    {
      var n := Min(7, |infos| - i);
      var chunk := FillChunk(infos[i..i + n]);
      ChunksStep(infos, i);
      Assoc(chunks, Be16(chunk), Chunks(infos[i + n..]));
      chunks := chunks + Be16(chunk);
      deltas := AppendDeltas(deltas, infos, i, i + n);
      i := i + n;
    }
    assert infos[..|infos|] == infos && infos[i..] == [] && chunks + [] == chunks;
    b := chunks + deltas;
  }

  lemma NoChunks()
    ensures Chunks([]) == []
  {
  }

  lemma NoDeltas()
    ensures Deltas([]) == []
  {
  }

  /** The whole datagram; padding and the final length are added at the end. */
  method BuildDatagram(sender: U32, media: U32, f: Feedback) returns (b: Bytes)
    requires Encodable(f)
    ensures b == Build(sender, media, f)
  {
    hide Be16, Be32, Chunks, Deltas, Trailer, Rtcp.Feedback;
    var status := BuildStatus(f.infos);
    var fci := Be16(f.base) + Be16(|f.infos|) + Be32(f.refTime * 0x100 + f.fbCount) + status;
    var trailer := PadToWords(12 + |fci|);
    TrailerOfTotal(|fci|);
    b := Rtcp.Feedback(if trailer == [] then 0 else 1, 15, (12 + |fci| + |trailer|) / 4 - 1, sender, media, fci + trailer);
  }

  /** Zeros up to a whole number of words; the last of them becomes their count. */
  method PadToWords(total: nat) returns (trailer: Bytes)
    ensures trailer == Trailer(total)
  {
    var size := total;
    while size % 4 != 0
      invariant total <= size <= total + PadTo4(total)
      decreases total + PadTo4(total) - size
    {
      size := size + 1;
    }
    trailer := if size > total then Zeros(size - total - 1) + [size - total] else [];
  }

  lemma TrailerOfTotal(n: nat)
    ensures Trailer(12 + n) == Trailer(n) && (12 + n + |Trailer(n)|) % 4 == 0
  {
  }
}
