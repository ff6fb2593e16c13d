/** H.264 over RTP: splitting an Annex-B frame into NAL units, packing them as single NAL units or FU-A
    fragments (section 5.8 of RFC 6184), and rebuilding the byte stream at the other end. */
module H264 {
  import opened Words

  const PACKET_MAX := 1200
  const START_CODE: Bytes := [0, 0, 1]

  // ---------------------------------------------------------------------------------------------
  // Start codes

  predicate ShortCode(b: Bytes, i: nat) {
    i + 2 < |b| && b[i] == 0 && b[i + 1] == 0 && b[i + 2] == 1
  }

  predicate LongCode(b: Bytes, i: nat) {
    i + 3 < |b| && b[i] == 0 && b[i + 1] == 0 && b[i + 2] == 0 && b[i + 3] == 1
  }

  predicate CodeAt(b: Bytes, i: nat) {
    ShortCode(b, i) || LongCode(b, i)
  }

  function CodeLength(b: Bytes, i: nat): nat {
    if ShortCode(b, i) then 3 else 4
  }

  /** Position of the first start code; the length of `b` when there is none. */
  function FirstCode(b: Bytes): (p: nat)
    ensures p <= |b| && (p < |b| ==> p + CodeLength(b, p) <= |b|)
  {
    FirstCodeFrom(b, 0)
  }

  function FirstCodeFrom(b: Bytes, i: nat): (p: nat)
    requires i <= |b|
    ensures i <= p <= |b| && (p < |b| ==> p + CodeLength(b, p) <= |b|)
    decreases |b| - i
  {
    if i == |b| || CodeAt(b, i) then i else FirstCodeFrom(b, i + 1)
  }

  lemma FirstCodeFromFacts(b: Bytes, i: nat)
    requires i <= |b|
    ensures var p := FirstCodeFrom(b, i);
            (p < |b| ==> CodeAt(b, p)) && forall k :: i <= k < p ==> !CodeAt(b, k)
    decreases |b| - i
  {
    if i < |b| && !CodeAt(b, i) {
      FirstCodeFromFacts(b, i + 1);
    }
  }

  /** It is a start code, and nothing before it is. */
  lemma FirstCodeFacts(b: Bytes)
    ensures var p := FirstCode(b);
            (p < |b| ==> CodeAt(b, p)) && forall i :: 0 <= i < p ==> !CodeAt(b, i)
  {
    FirstCodeFromFacts(b, 0);
  }

  lemma FirstCodeIs(b: Bytes, p: nat)
    requires p <= |b| && (p < |b| ==> CodeAt(b, p)) && forall i :: 0 <= i < p ==> !CodeAt(b, i)
    ensures FirstCode(b) == p
  {
    FirstCodeFacts(b);
  }

  /** The scan for a start code. */
  method FindStartCode(b: Bytes) returns (p: nat, length: nat)
    ensures p == FirstCode(b) && (p < |b| ==> length == CodeLength(b, p))
  {
    var i := 0;
    while i + 2 < |b|
      invariant i <= |b| && forall k :: 0 <= k < i ==> !CodeAt(b, k)
    {
      if b[i] == 0 && b[i + 1] == 0 {
        if b[i + 2] == 1 {
          FirstCodeIs(b, i);
          return i, 3;
        }
        if i + 3 < |b| && b[i + 2] == 0 && b[i + 3] == 1 {
          FirstCodeIs(b, i);
          return i, 4;
        }
      }
      i := i + 1;
    }
    FirstCodeIs(b, |b|);
    p, length := |b|, 0;
  }

  lemma CodeAtSlice(b: Bytes, n: nat, i: nat)
    requires n <= |b|
    ensures CodeAt(b[n..], i) == CodeAt(b, n + i) && CodeLength(b[n..], i) == CodeLength(b, n + i)
  {
  }

  /** Dropping `n` bytes before which no code starts moves the first code down by `n`. */
  lemma FirstCodeSlice(b: Bytes, n: nat)
    requires n <= |b| && FirstCode(b) >= n
    ensures FirstCode(b[n..]) == FirstCode(b) - n
  {
    hide FirstCode, CodeAt, CodeLength;
    FirstCodeFacts(b);
    forall i | 0 <= i <= FirstCode(b) - n ensures CodeAt(b[n..], i) == CodeAt(b, n + i) {
      CodeAtSlice(b, n, i);
    }
    FirstCodeIs(b[n..], FirstCode(b) - n);
  }

  // ---------------------------------------------------------------------------------------------
  // Splitting into NAL units

  function Unless(nal: Bytes): seq<Bytes> {
    if nal == [] then [] else [nal]
  }

  /** The NAL units the packetizer cuts out.  It skips the length of the first start code from the current
      offset, wherever that code was found. */
  function Nals(b: Bytes): seq<Bytes>
    decreases |b|
  {
    var p := FirstCode(b);
    if p == |b| then []
    else
      var rest := b[CodeLength(b, p)..];
      var end := FirstCode(rest);
      Unless(rest[..end]) + Nals(rest[end..])
  }

  /** What lies between the start codes. */
  function Pieces(b: Bytes): seq<Bytes>
    decreases |b|
  {
    var p := FirstCode(b);
    if p == |b| then []
    else
      var rest := b[p + CodeLength(b, p)..];
      var end := FirstCode(rest);
      Unless(rest[..end]) + Pieces(rest[end..])
  }

  lemma CodeLengthBound(b: Bytes, i: nat)
    ensures 3 <= CodeLength(b, i) <= 4
  {
  }

  lemma NalsStep(b: Bytes)
    requires FirstCode(b) < |b|
    ensures var rest := b[CodeLength(b, FirstCode(b))..];
            Nals(b) == Unless(rest[..FirstCode(rest)]) + Nals(rest[FirstCode(rest)..])
  {
  }

  /** The same inside a frame, with offsets into it. */
  lemma NalsStepAt(data: Bytes, off: nat, begin: nat, end: nat)
    requires off < begin <= end <= |data|
    requires FirstCode(data[off..]) < |data| - off && begin == off + CodeLength(data[off..], FirstCode(data[off..]))
    requires end == begin + FirstCode(data[begin..])
    ensures Nals(data[off..]) == Unless(data[begin..end]) + Nals(data[end..])
  {
    hide FirstCode, CodeLength, Nals, Unless;
    NalsStep(data[off..]);
    DropDrop(data, off, begin - off);
    DropDrop(data, begin, end - begin);
    DropTake(data, begin, end - begin);
  }

  lemma PiecesStep(b: Bytes)
    requires FirstCode(b) < |b|
    ensures var rest := b[FirstCode(b) + CodeLength(b, FirstCode(b))..];
            Pieces(b) == Unless(rest[..FirstCode(rest)]) + Pieces(rest[FirstCode(rest)..])
  {
  }

  lemma NoNals(b: Bytes)
    requires FirstCode(b) == |b|
    ensures Nals(b) == Pieces(b) == []
  {
  }

  lemma TailStartsWithCode(rest: Bytes)
    ensures var t := rest[FirstCode(rest)..]; t == [] || FirstCode(t) == 0
  {
    FirstCodeSlice(rest, FirstCode(rest));
  }

  lemma {:induction false} AlignedNals(b: Bytes)
    requires b == [] || FirstCode(b) == 0 || FirstCode(b) == |b|
    ensures Nals(b) == Pieces(b)
    decreases |b|
  {
    hide Nals, Pieces, FirstCode, CodeLength, Unless;
    if FirstCode(b) == |b| {
      NoNals(b);
    } else {
      var rest := b[CodeLength(b, 0)..];
      CodeLengthBound(b, 0);
      NalsStep(b);
      PiecesStep(b);
      TailStartsWithCode(rest);
      AlignedNals(rest[FirstCode(rest)..]);
    }
  }

  /** The data has no start code, begins with one, or has exactly as many bytes before the first one as its length (or three
      before a long one). */
  predicate StartsRight(b: Bytes) {
    var p := FirstCode(b);
    p == |b| || p == 0 || p == CodeLength(b, p) || (p == 3 && LongCode(b, p))
  }

  function Total(nals: seq<Bytes>): nat {
    if nals == [] then 0 else |nals[0]| + Total(nals[1..])
  }

  lemma TotalFirst(nal: Bytes, nals: seq<Bytes>)
    ensures Total([nal] + nals) == |nal| + Total(nals) == Total(Unless(nal) + nals)
  {
    assert ([nal] + nals)[1..] == nals;
    if nal == [] {
      assert Unless(nal) + nals == nals;
    }
  }

  /** The cut is what lies between the start codes exactly when the data starts right, and holds more bytes otherwise. */
  lemma NalsArePiecesIff(b: Bytes)
    ensures Nals(b) == Pieces(b) <==> StartsRight(b)
    ensures !StartsRight(b) ==> Total(Nals(b)) > Total(Pieces(b))
  {
    hide FirstCode, Nals, Pieces, Total;
    var p := FirstCode(b);
    if p == |b| || p == 0 {
      AlignedNals(b);
    } else {
      var n := CodeLength(b, p);
      FirstCodeFacts(b);
      if p >= n {
        LongPrefix(b, p, n);
      } else if p == 3 {
        ThreeBeforeLong(b);
      } else {
        ShortPrefix(b, p, n);
      }
    }
  }

  lemma LongPrefix(b: Bytes, p: nat, n: nat)
    requires p == FirstCode(b) < |b| && n == CodeLength(b, p) <= p
    ensures if p == n then Nals(b) == Pieces(b) else Total(Nals(b)) > Total(Pieces(b))
  {
    hide FirstCode, CodeLength, Nals, Pieces, Total;
    LongPrefixNals(b, p, n);
    LongPrefixPieces(b, p, n);
    TotalFirst(b[n..p], Nals(b[p..]));
    assert p == n ==> Unless(b[n..p]) + Nals(b[p..]) == Nals(b[p..]);
  }

  lemma LongPrefixNals(b: Bytes, p: nat, n: nat)
    requires p == FirstCode(b) < |b| && n == CodeLength(b, p) <= p
    ensures Nals(b) == Unless(b[n..p]) + Nals(b[p..])
  {
    hide FirstCode, CodeLength, Nals, Pieces, Unless;
    NalsStep(b);
    FirstCodeSlice(b, n);
    DropDrop(b, n, p - n);
    DropTake(b, n, p - n);
  }

  lemma LongPrefixPieces(b: Bytes, p: nat, n: nat)
    requires p == FirstCode(b) < |b| && n == CodeLength(b, p)
    ensures Pieces(b) == Nals(b[p..])
  {
    hide FirstCode, CodeLength, Nals, Pieces, Unless;
    FirstCodeSlice(b, p);
    CodeAtSlice(b, p, 0);
    AlignedNals(b[p..]);
    PiecesStep(b);
    PiecesStep(b[p..]);
    DropDrop(b, p, n);
  }

  lemma ThreeBeforeLong(b: Bytes)
    requires FirstCode(b) == 3 < |b| && CodeLength(b, 3) == 4
    ensures LongCode(b, 3) && Nals(b) == Pieces(b)
  {
    FirstCodeFacts(b);
    var rest, true' := b[4..], b[7..];
    var end := FirstCode(true');
    assert ShortCode(rest, 0);
    FirstCodeIs(rest, 0);
    hide FirstCode, ShortCode, LongCode, Nals, Pieces;
    NalsStep(b);
    NalsStep(rest);
    PiecesStep(b);
    assert rest[0..] == rest && rest[..0] == [] && rest[3..] == true';
    TailStartsWithCode(true');
    AlignedNals(true'[end..]);
    assert Nals(b) == Nals(rest);
    assert Nals(rest) == Unless(true'[..end]) + Nals(true'[end..]);
  }

  /** With one or two bytes before the first code the tail of that code is taken for part of the unit. */
  lemma ShortPrefix(b: Bytes, p: nat, n: nat)
    requires p == FirstCode(b) < |b| && n == CodeLength(b, p) && 0 < p < 3
    ensures Total(Nals(b)) > Total(Pieces(b))
  {
    hide FirstCode, CodeLength, Nals, Pieces, Total;
    CodeLengthBound(b, p);
    NalsStep(b);
    PiecesStep(b);
    var rest, true' := b[n..], b[p + n..];
    var end := FirstCode(true');
    CodeTailRest(b, p, n);
    TailStartsWithCode(true');
    AlignedNals(true'[end..]);
    var tail := Nals(true'[end..]);
    assert rest[p + end..] == true'[end..];
    var first := rest[..p + end];
    assert Nals(b) == [first] + tail;
    assert Pieces(b) == Unless(true'[..end]) + tail;
    TotalFirst(first, tail);
    TotalFirst(true'[..end], tail);
  }

  lemma CodeTailRest(b: Bytes, p: nat, n: nat)
    requires p == FirstCode(b) < |b| && n == CodeLength(b, p) && 0 < p < 3
    ensures FirstCode(b[n..]) == p + FirstCode(b[p + n..])
  {
    var rest, true' := b[n..], b[p + n..];
    var end := FirstCode(true');
    FirstCodeFacts(b);
    FirstCodeFacts(true');
    assert b[p + n - 1] == 1;
    forall i | 0 <= i < p ensures !CodeAt(rest, i) {
      CodeAtSlice(b, n, i);
    }
    hide FirstCode, CodeAt, CodeLength;
    forall i | p <= i <= p + end ensures CodeAt(rest, i) == CodeAt(true', i - p) {
      CodeAtSlice(b, n, i);
      CodeAtSlice(b, p + n, i - p);
    }
    FirstCodeIs(rest, p + end);
  }

  // ---------------------------------------------------------------------------------------------
  // The units of the byte stream format

  predicate EndsInZero(nal: Bytes) {
    nal != [] && nal[|nal| - 1] == 0
  }

  predicate NoneEndsInZero(nals: seq<Bytes>) {
    forall i :: 0 <= i < |nals| ==> !EndsInZero(nals[i])
  }

  /** Zero bytes before the next start code belong to no unit. */
  function Trim(piece: Bytes): (nal: Bytes)
    ensures !EndsInZero(nal) && |nal| <= |piece| && (nal == piece <==> !EndsInZero(piece))
  {
    if EndsInZero(piece) then Trim(piece[..|piece| - 1]) else piece
  }

  function TrimAll(pieces: seq<Bytes>): seq<Bytes> {
    if pieces == [] then [] else Unless(Trim(pieces[0])) + TrimAll(pieces[1..])
  }

  /** The NAL units of the byte stream format (Annex B of H.264): what lies between the start codes, without the zero bytes
      that trail it. */
  function TrueNals(b: Bytes): seq<Bytes> {
    TrimAll(Pieces(b))
  }

  lemma {:induction false} TrimmedTotal(pieces: seq<Bytes>)
    ensures Total(TrimAll(pieces)) <= Total(pieces) && NoneEndsInZero(TrimAll(pieces))
  {
    if pieces != [] {
      hide Trim, EndsInZero;
      var nal, more := Trim(pieces[0]), TrimAll(pieces[1..]);
      TrimmedTotal(pieces[1..]);
      TotalFirst(nal, more);
      forall i | 0 <= i < |Unless(nal) + more| ensures !EndsInZero((Unless(nal) + more)[i]) {
      }
    }
  }

  lemma {:induction false} NothingToTrim(pieces: seq<Bytes>)
    requires NoneEndsInZero(pieces) && NoneEmpty(pieces)
    ensures TrimAll(pieces) == pieces
  {
    if pieces != [] {
      NothingToTrim(pieces[1..]);
      assert !EndsInZero(pieces[0]);
    }
  }

  /** The cut is right exactly when the data starts right and no unit of the cut ends in a zero byte, as a unit does that has
      more than one zero byte before the next start code, or any at the end. */
  lemma NalsAreTrueIff(b: Bytes)
    ensures Nals(b) == TrueNals(b) <==> StartsRight(b) && NoneEndsInZero(Nals(b))
  {
    hide Nals, Pieces, TrimAll, Total, StartsRight, NoneEndsInZero, NoneEmpty;
    NalsArePiecesIff(b);
    TrimmedTotal(Pieces(b));
    NalsNotEmpty(b);
    if StartsRight(b) && NoneEndsInZero(Nals(b)) {
      NothingToTrim(Pieces(b));
    }
  }

  const TRAILED: Bytes := [0, 0, 1, 0x65, 0, 0, 0, 0, 1, 0x41]

  lemma TrailedCodes()
    ensures FirstCode(TRAILED) == 0 && CodeLength(TRAILED, 0) == 3
    ensures FirstCode(TRAILED[3..]) == 2 && TRAILED[3..][..2] == [0x65, 0]
  {
    var rest: Bytes := [0x65, 0, 0, 0, 0, 1, 0x41];
    assert TRAILED[3..] == rest;
    assert CodeAt(TRAILED, 0) && CodeAt(rest, 2) && !CodeAt(rest, 0) && !CodeAt(rest, 1);
    hide CodeAt, FirstCode;
    FirstCodeIs(TRAILED, 0);
    FirstCodeIs(rest, 2);
  }

  /** Such data is legal: with two zero bytes between the first unit and a three-byte code, one stays in the unit. */
  lemma TrailingZeroStays()
    ensures FirstCode(TRAILED) == 0 && Nals(TRAILED) != [] && Nals(TRAILED)[0] == [0x65, 0] && Nals(TRAILED) != TrueNals(TRAILED)
  {
    TrailedCodes();
    var tail := Nals(TRAILED[3..][2..]);
    hide FirstCode, CodeLength, Nals, TrueNals, TRAILED;
    NalsStep(TRAILED);
    NalsAreTrueIff(TRAILED);
    assert Nals(TRAILED) == [[0x65, 0]] + tail;
    assert EndsInZero(Nals(TRAILED)[0]);
  }

  // ---------------------------------------------------------------------------------------------
  // Frames in byte stream format

  /** A NAL unit and whether its start code is the four-byte one. */
  datatype Unit = Unit(long: bool, nal: Bytes)

  function Code(long: bool): (c: Bytes)
    ensures |c| == if long then 4 else 3
  {
    if long then [0] + START_CODE else START_CODE
  }

  function Frame(us: seq<Unit>): Bytes {
    if us == [] then [] else Code(us[0].long) + us[0].nal + Frame(us[1..])
  }

  function NalsOf(us: seq<Unit>): seq<Bytes> {
    if us == [] then [] else [us[0].nal] + NalsOf(us[1..])
  }

  /** What the byte stream format guarantees of a NAL unit: no start code inside, last byte not zero. */
  predicate Clean(nal: Bytes) {
    nal != [] && nal[|nal| - 1] != 0 && forall i :: 0 <= i < |nal| ==> !ShortCode(nal, i)
  }

  lemma CodeThenRest(long: bool, rest: Bytes)
    ensures var b := Code(long) + rest;
            FirstCode(b) == 0 && CodeLength(b, 0) == |Code(long)| && b[|Code(long)|..] == rest
  {
    var b := Code(long) + rest;
    assert CodeAt(b, 0);
    FirstCodeIs(b, 0);
  }

  lemma CleanThenCode(nal: Bytes, tail: Bytes)
    requires Clean(nal) && (tail == [] || FirstCode(tail) == 0)
    ensures FirstCode(nal + tail) == |nal|
  {
    var b := nal + tail;
    FirstCodeFacts(tail);
    assert b[|nal|..] == tail;
    CodeAtSlice(b, |nal|, 0);
    forall i | 0 <= i < |nal| ensures !CodeAt(b, i) {
      assert !ShortCode(nal, i) && !ShortCode(nal, i + 1);
      assert b[|nal| - 1] != 0;
    }
    FirstCodeIs(b, |nal|);
  }

  /** Splitting a byte stream built from clean NAL units gives those units back, whichever start codes separate
      them. */
  lemma {:induction false} NalsOfFrame(us: seq<Unit>)
    requires forall u :: u in us ==> Clean(u.nal)
    ensures Nals(Frame(us)) == NalsOf(us)
    ensures us != [] ==> FirstCode(Frame(us)) == 0 && Frame(us) != []
  {
    if us != [] {
      var c, nal, tail := Code(us[0].long), us[0].nal, Frame(us[1..]);
      var b := c + nal + tail;
      hide Nals, FirstCode, CodeLength, Clean;
      NalsOfFrame(us[1..]);
      Assoc(c, nal, tail);
      CodeThenRest(us[0].long, nal + tail);
      CleanThenCode(nal, tail);
      NalsStep(b);
      assert (nal + tail)[..|nal|] == nal && (nal + tail)[|nal|..] == tail;
      assert Unless(nal) == [nal] by {
        CleanIsNotEmpty(nal);
      }
    } else {
      FirstCodeIs([], 0);
    }
  }

  lemma CleanIsNotEmpty(nal: Bytes)
    requires Clean(nal)
    ensures nal != []
  {
  }

  // ---------------------------------------------------------------------------------------------
  // Packing

  function FuIndicator(header: U8): U8 {
    header / 32 % 4 * 32 + 28
  }

  function FuHeader(header: U8, first: bool, last: bool): U8 {
    header % 32 + (if first then 0x80 else 0) + if last then 0x40 else 0
  }

  /** How many bytes the fragment at offset `off` carries. */
  function FragmentSize(nal: Bytes, off: nat): nat
    requires off < |nal|
  {
    Min(|nal| - off, PACKET_MAX - 2)
  }

  function Fragment(nal: Bytes, off: nat): Bytes
    requires off < |nal|
  {
    var end := off + FragmentSize(nal, off);
    [FuIndicator(nal[0]), FuHeader(nal[0], off == 1, end >= |nal|)] + nal[off..end]
  }

  /** The FU-A payloads that carry the unit from offset `off` on. */
  function Fragments(nal: Bytes, off: nat): seq<Bytes>
    requires nal != []
    decreases |nal| - off
  {
    if off >= |nal| then []
    else [Fragment(nal, off)] + Fragments(nal, off + FragmentSize(nal, off))
  }

  function PackNal(nal: Bytes): seq<Bytes> {
    if |nal| <= PACKET_MAX then [nal] else Fragments(nal, 1)
  }

  function PackNals(nals: seq<Bytes>): seq<Bytes> {
    if nals == [] then [] else PackNal(nals[0]) + PackNals(nals[1..])
  }

  predicate NoneEmpty(nals: seq<Bytes>) {
    forall i :: 0 <= i < |nals| ==> nals[i] != []
  }

  lemma {:induction false} NalsNotEmpty(b: Bytes)
    ensures NoneEmpty(Nals(b))
    decreases |b|
  {
    hide FirstCode, CodeLength, Nals;
    if FirstCode(b) < |b| {
      CodeLengthBound(b, FirstCode(b));
      NalsStep(b);
      var rest := b[CodeLength(b, FirstCode(b))..];
      NalsNotEmpty(rest[FirstCode(rest)..]);
    } else {
      NoNals(b);
    }
  }

  lemma PackNalsAppend(a: seq<Bytes>, b: seq<Bytes>)
    ensures PackNals(a + b) == PackNals(a) + PackNals(b)
  {
    if a == [] {
      assert a + b == b;
    } else {
      assert (a + b)[1..] == a[1..] + b;
      PackNalsAppend(a[1..], b);
      Assoc(PackNal(a[0]), PackNals(a[1..]), PackNals(b));
    }
  }

  /** The packetizer's loops over a frame. */
  method Pack(data: Bytes) returns (payloads: seq<Bytes>)
    ensures payloads == PackNals(Nals(data))
  {
    hide FirstCode, CodeLength, CodeAt, Nals, PackNals, Fragments;
    payloads := [];
    var off := 0;
    ghost var done: seq<Bytes> := [];
    assert data[0..] == data;
    PackNothing();
    while off < |data|
      invariant off <= |data| && done + Nals(data[off..]) == Nals(data)
      invariant payloads == PackNals(done)
    {
      var p, length := FindStartCode(data[off..]);
      if p == |data[off..]| {
        NoNals(data[off..]);
        break;
      }
      CodeLengthBound(data[off..], p);
      var begin := off + length;
      var q, _ := FindStartCode(data[begin..]);
      var end := begin + q;
      NalsStepAt(data, off, begin, end);
      off := end;
      var nal := data[begin..end];
      Assoc(done, Unless(nal), Nals(data[end..]));
      if nal != [] {
        var more := PackOne(nal);
        PackNalsAppend(done, [nal]);
        PackSingle(nal);
        payloads := payloads + more;
        done := done + [nal];
      } else {
        assert done + Unless(nal) == done;
      }
    }
    if off == |data| {
      assert data[off..] == [];
      NoNals([]);
    }
    assert done + [] == done;
  }

  lemma PackNothing()
    ensures PackNals([]) == []
  {
  }

  lemma PackSingle(nal: Bytes)
    ensures PackNals([nal]) == PackNal(nal)
  {
    assert [nal][1..] == [];
  }

  /** One unit: as it is, or cut into fragments. */
  method PackOne(nal: Bytes) returns (payloads: seq<Bytes>)
    requires nal != []
    ensures payloads == PackNal(nal)
  {
    if |nal| <= PACKET_MAX {
      return [nal];
    }
    payloads := [];
    var off := 1;
    while off < |nal|
      invariant 1 <= off <= |nal| && payloads + Fragments(nal, off) == Fragments(nal, 1)
    {
      var size := FragmentSize(nal, off);
      var p := [FuIndicator(nal[0]), FuHeader(nal[0], off == 1, off + size >= |nal|)] + nal[off..off + size];
      Assoc(payloads, [p], Fragments(nal, off + size));
      payloads := payloads + [p];
      off := off + size;
    }
    assert payloads + [] == payloads;
  }

  /** Every payload fits the limit and is not empty. */
  lemma {:induction false} FragmentsFit(nal: Bytes, off: nat)
    requires nal != [] && off >= 1
    ensures forall p :: p in Fragments(nal, off) ==> 2 < |p| <= PACKET_MAX
    decreases |nal| - off
  {
    if off < |nal| {
      FragmentsFit(nal, off + FragmentSize(nal, off));
    }
  }

  lemma {:induction false} PayloadsFit(nals: seq<Bytes>)
    requires NoneEmpty(nals)
    ensures forall p :: p in PackNals(nals) ==> 0 < |p| <= PACKET_MAX
  {
    if nals != [] {
      if |nals[0]| > PACKET_MAX {
        FragmentsFit(nals[0], 1);
      }
      assert NoneEmpty(nals[1..]);
      PayloadsFit(nals[1..]);
    }
  }

  predicate StartBit(p: Bytes) {
    |p| > 1 && p[1] / 0x80 == 1
  }

  predicate EndBit(p: Bytes) {
    |p| > 1 && p[1] / 0x40 % 2 == 1
  }

  /** Only the first fragment starts, only the last one ends, and of a fragmented unit none does both. */
  lemma {:induction false} StartAndEndBits(nal: Bytes, off: nat)
    requires 1 <= off < |nal|
    ensures var fs := Fragments(nal, off);
            && fs != []
            && (forall i :: 0 <= i < |fs| ==> (StartBit(fs[i]) <==> i == 0 && off == 1) && (EndBit(fs[i]) <==> i == |fs| - 1))
            && (|nal| > PACKET_MAX && off == 1 ==> |fs| >= 2)
    decreases |nal| - off
  {
    hide FuHeader;
    var end := off + FragmentSize(nal, off);
    HeaderBits(nal[0], off == 1, end >= |nal|);
    if end < |nal| {
      StartAndEndBits(nal, end);
    }
  }

  lemma HeaderBits(header: U8, first: bool, last: bool)
    ensures var h := FuHeader(header, first, last);
            (h / 0x80 == 1 <==> first) && (h / 0x40 % 2 == 1 <==> last) && h % 32 == header % 32
    ensures FuIndicator(header) % 32 == 28 && FuIndicator(header) / 32 == header / 32 % 4
  {
  }

  // ---------------------------------------------------------------------------------------------
  // Rebuilding the byte stream

  /** Output so far, the unit being reassembled, and whether one is. */
  datatype Assembly = Assembly(out: Bytes, partial: Bytes, inFu: bool)

  /** The units of an aggregation packet from offset `off` on, each behind a start code. */
  function Aggregated(b: Bytes, off: nat): Bytes
    decreases |b| - off
  {
    if off + 2 > |b| then []
    else
      var size: nat := Get16(b, off);
      if size == 0 || off + 2 + size > |b| then []
      else START_CODE + b[off + 2..off + 2 + size] + Aggregated(b, off + 2 + size)
  }

  function FeedFragment(a: Assembly, p: Bytes): Assembly
    requires |p| >= 2
  {
    var partial :=
      if StartBit(p) then [p[0] / 32 * 32 + p[1] % 32] + p[2..]
      else if a.inFu then a.partial + p[2..]
      else a.partial;
    if EndBit(p) then Assembly(a.out + START_CODE + partial, [], false)
    else Assembly(a.out, partial, a.inFu || StartBit(p))
  }

  function Feed(a: Assembly, p: Bytes): Assembly {
    if p == [] then a
    else
      var kind := p[0] % 32;
      if kind == 24 then a.(out := a.out + Aggregated(p, 1))
      else if kind == 28 then if |p| < 2 then a else FeedFragment(a, p)
      else if 1 <= kind <= 23 then a.(out := a.out + START_CODE + p)
      else a
  }

  function FeedAll(a: Assembly, ps: seq<Bytes>): Assembly
    decreases |ps|
  {
    if ps == [] then a else FeedAll(Feed(a, ps[0]), ps[1..])
  }

  function AnnexB(ps: seq<Bytes>): Bytes {
    FeedAll(Assembly([], [], false), ps).out
  }

  lemma FeedAllAppend(a: Assembly, ps: seq<Bytes>, qs: seq<Bytes>)
    ensures FeedAll(a, ps + qs) == FeedAll(FeedAll(a, ps), qs)
    decreases |ps|
  {
    if ps == [] {
      assert ps + qs == qs;
    } else {
      assert (ps + qs)[1..] == ps[1..] + qs;
      FeedAllAppend(Feed(a, ps[0]), ps[1..], qs);
    }
  }

  /** The reassembly loop over the payloads of one frame. */
  method ToAnnexB(payloads: seq<Bytes>) returns (out: Bytes)
    ensures out == AnnexB(payloads)
  {
    hide Feed, FeedFragment, Aggregated;
    out := [];
    var partial: Bytes, inFu := [], false;
    for i := 0 to |payloads|
      invariant FeedAll(Assembly(out, partial, inFu), payloads[i..]) == FeedAll(Assembly([], [], false), payloads)
    {
      DropDrop(payloads, i, 1);
      out, partial, inFu := FeedPayload(out, partial, inFu, payloads[i]);
    }
  }

  method FeedPayload(o: Bytes, part: Bytes, fu: bool, p: Bytes) returns (out: Bytes, partial: Bytes, inFu: bool)
    ensures Assembly(out, partial, inFu) == Feed(Assembly(o, part, fu), p)
  {
    out, partial, inFu := o, part, fu;
    if p == [] {
      return;
    }
    var kind := p[0] % 32;
    if kind == 24 {
      var off := 1;
      while off + 2 <= |p|
        invariant out + Aggregated(p, off) == o + Aggregated(p, 1)
        decreases |p| - off
      {
        var size: nat := Get16(p, off);
        if size == 0 || off + 2 + size > |p| {
          break;
        }
        Assoc(out, START_CODE + p[off + 2..off + 2 + size], Aggregated(p, off + 2 + size));
        out := out + (START_CODE + p[off + 2..off + 2 + size]);
        off := off + 2 + size;
      }
      assert Aggregated(p, off) == [];
      assert out + [] == out;
    } else if kind == 28 {
      if |p| >= 2 {
        if p[1] / 0x80 == 1 {
          partial := [p[0] / 32 * 32 + p[1] % 32] + p[2..];
          inFu := true;
        } else if inFu {
          partial := partial + p[2..];
        }
        if p[1] / 0x40 % 2 == 1 {
          out := out + START_CODE + partial;
          partial, inFu := [], false;
        }
      }
    } else if 1 <= kind <= 23 {
      out := out + START_CODE + p;
    }
  }

  // ---------------------------------------------------------------------------------------------
  // One unit there and back

  /** The unit with the forbidden bit of its header cleared. */
  function Cleared(nal: Bytes): Bytes
    requires nal != []
  {
    [nal[0] % 0x80] + nal[1..]
  }

  lemma FeedFirst(a: Assembly, p: Bytes, more: seq<Bytes>)
    ensures FeedAll(a, [p] + more) == FeedAll(Feed(a, p), more)
  {
    assert ([p] + more)[1..] == more;
  }

  lemma FeedFragmentOf(a: Assembly, nal: Bytes, off: nat)
    requires 1 <= off < |nal| && (off == 1 || a.inFu)
    ensures var end := off + FragmentSize(nal, off);
            var partial := (if off == 1 then [nal[0] % 0x80] else a.partial) + nal[off..end];
            Feed(a, Fragment(nal, off)) ==
            if end == |nal| then Assembly(a.out + START_CODE + partial, [], false) else Assembly(a.out, partial, true)
  {
    hide FuIndicator, FuHeader;
    var p, end := Fragment(nal, off), off + FragmentSize(nal, off);
    HeaderBits(nal[0], off == 1, end >= |nal|);
    assert p[2..] == nal[off..end];
  }

  /** The fragments after the first complete the unit that was started. */
  lemma {:induction false} FeedLaterFragments(a: Assembly, nal: Bytes, off: nat)
    requires a.inFu && 1 < off < |nal|
    ensures FeedAll(a, Fragments(nal, off)) == Assembly(a.out + START_CODE + (a.partial + nal[off..]), [], false)
    decreases |nal| - off
  {
    hide FeedAll, Feed, Fragment;
    var end := off + FragmentSize(nal, off);
    FeedFirst(a, Fragment(nal, off), Fragments(nal, end));
    FeedFragmentOf(a, nal, off);
    if end == |nal| {
      FeedNothing(Assembly(a.out + START_CODE + (a.partial + nal[off..end]), [], false));
      assert nal[off..end] == nal[off..];
    } else {
      FeedLaterFragments(Assembly(a.out, a.partial + nal[off..end], true), nal, end);
      assert a.partial + nal[off..end] + nal[end..] == a.partial + nal[off..];
    }
  }

  /** A fragmented unit comes back with its forbidden bit cleared. */
  lemma FeedFragments(a: Assembly, nal: Bytes)
    requires |nal| > PACKET_MAX
    ensures FeedAll(a, Fragments(nal, 1)) == Assembly(a.out + START_CODE + Cleared(nal), [], false)
  {
    hide FeedAll, Feed, Fragment;
    var end := 1 + FragmentSize(nal, 1);
    FeedFirst(a, Fragment(nal, 1), Fragments(nal, end));
    FeedFragmentOf(a, nal, 1);
    FeedLaterFragments(Assembly(a.out, [nal[0] % 0x80] + nal[1..end], true), nal, end);
    assert [nal[0] % 0x80] + nal[1..end] + nal[end..] == Cleared(nal);
  }

  lemma FeedNothing(a: Assembly)
    ensures FeedAll(a, []) == a
  {
  }

  /** The units the path carries unchanged. */
  predicate Carriable(nal: Bytes) {
    nal != [] && if |nal| > PACKET_MAX then nal[0] < 0x80 else 1 <= nal[0] % 32 <= 23
  }

  lemma FeedOne(a: Assembly, p: Bytes)
    ensures FeedAll(a, [p]) == Feed(a, p)
  {
    hide Feed;
    assert [p][1..] == [];
    assert FeedAll(a, [p]) == FeedAll(Feed(a, p), []);
  }

  lemma CarriedUnchanged(a: Assembly, nal: Bytes)
    requires Carriable(nal) && a.partial == [] && !a.inFu
    ensures FeedAll(a, PackNal(nal)) == a.(out := a.out + START_CODE + nal)
  {
    if |nal| > PACKET_MAX {
      FeedFragments(a, nal);
      assert Cleared(nal) == nal;
    } else {
      hide FeedAll, Fragments;
      FeedOne(a, nal);
    }
  }

  lemma Periodic(b: Bytes, s: nat, k: nat)
    requires s + 3 <= |b| && b[3..3 + s] == b[..s] && k % 3 == 0 && k < s + 3
    ensures b[k] == b[0]
  {
    if k >= 3 {
      assert b[3..3 + s][k - 3] == b[..s][k - 3];
      Periodic(b, s, k - 3);
    }
  }

  lemma NotItsOwnTail(b: Bytes, s: nat, rest: Bytes)
    requires 3 + s <= |b| && b[0] % 32 == 24 && (|rest| >= 3 ==> rest[..3] == START_CODE)
    ensures b[3..3 + s] + rest != b
  {
    var head := b[3..3 + s];
    if head + rest == b {
      assert b[..s] == head && b[s..] == rest;
      var k := s + (3 - s % 3) % 3;
      Periodic(b, s, k);
    }
  }

  /** An aggregation packet never reads back as itself. */
  lemma AggregateIsNotItself(b: Bytes)
    requires b != [] && b[0] % 32 == 24
    ensures Aggregated(b, 1) != START_CODE + b
  {
    if |b| >= 3 {
      var s: nat := Get16(b, 1);
      if s != 0 && 3 + s <= |b| {
        var rest := Aggregated(b, 3 + s);
        AggregatedStart(b, 3 + s);
        NotItsOwnTail(b, s, rest);
        Assoc(START_CODE, b[3..3 + s], rest);
        hide Aggregated;
        if START_CODE + (b[3..3 + s] + rest) == START_CODE + b {
          SameTail(START_CODE, b[3..3 + s] + rest, b);
        }
      }
    }
  }

  lemma AggregatedStart(b: Bytes, off: nat)
    ensures var r := Aggregated(b, off); |r| >= 3 ==> r[..3] == START_CODE
  {
  }

  lemma SameTail(a: Bytes, b: Bytes, c: Bytes)
    requires a + b == a + c
    ensures b == c
  {
    assert b == (a + b)[|a|..] && c == (a + c)[|a|..];
  }

  /** Between units, a unit is restored exactly when it is carriable: a fragmented one must have forbidden bit 0,
      any other must have a single-unit type. */
  lemma RestoredIff(out: Bytes, nal: Bytes)
    requires nal != []
    ensures FeedAll(Assembly(out, [], false), PackNal(nal)).out == out + START_CODE + nal <==> Carriable(nal)
  {
    var a := Assembly(out, [], false);
    if Carriable(nal) {
      CarriedUnchanged(a, nal);
    } else if |nal| > PACKET_MAX {
      FeedFragments(a, nal);
      assert (out + START_CODE + nal)[|out| + 3] == nal[0];
    } else {
      FeedOne(a, nal);
      var got := Feed(a, nal).out;
      assert |out + START_CODE + nal| == |out| + 3 + |nal|;
      if nal[0] % 32 == 24 {
        AggregateIsNotItself(nal);
        assert got[|out|..] == Aggregated(nal, 1) && (out + START_CODE + nal)[|out|..] == START_CODE + nal;
      } else if nal[0] % 32 == 28 {
        assert |got| < |out| + 3 + |nal|;
      }
    }
  }

  /** Each unit behind a three-byte start code. */
  function Joined(nals: seq<Bytes>): Bytes {
    if nals == [] then [] else START_CODE + nals[0] + Joined(nals[1..])
  }

  predicate AllCarriable(nals: seq<Bytes>) {
    forall i :: 0 <= i < |nals| ==> Carriable(nals[i])
  }

  lemma {:induction false} FeedNals(a: Assembly, nals: seq<Bytes>)
    requires AllCarriable(nals) && a.partial == [] && !a.inFu
    ensures FeedAll(a, PackNals(nals)) == a.(out := a.out + Joined(nals))
    decreases |nals|
  {
    hide FeedAll, PackNal;
    if nals == [] {
      FeedNothing(a);
      assert a.out + [] == a.out;
    } else {
      var b := a.(out := a.out + START_CODE + nals[0]);
      CarriedUnchanged(a, nals[0]);
      FeedAllAppend(a, PackNal(nals[0]), PackNals(nals[1..]));
      assert AllCarriable(nals[1..]);
      FeedNals(b, nals[1..]);
      Assoc(a.out, START_CODE + nals[0], Joined(nals[1..]));
      Assoc(a.out, START_CODE, nals[0]);
    }
  }

  /** Packing carriable units and rebuilding yields exactly those units, in order, each behind 00 00 01. */
  lemma PackThenAnnexB(nals: seq<Bytes>)
    requires AllCarriable(nals)
    ensures AnnexB(PackNals(nals)) == Joined(nals)
  {
    FeedNals(Assembly([], [], false), nals);
    assert [] + Joined(nals) == Joined(nals);
  }

  /** Any data whose cut is carriable comes back as the units of the cut, each behind 00 00 01; these are the units of the
      byte stream format when the data starts right and none of them ends in a zero byte. */
  lemma FrameRoundTrip(data: Bytes)
    requires AllCarriable(Nals(data))
    ensures AnnexB(PackNals(Nals(data))) == Joined(Nals(data))
    ensures StartsRight(data) && NoneEndsInZero(Nals(data)) ==> AnnexB(PackNals(Nals(data))) == Joined(TrueNals(data))
  {
    hide Nals, TrueNals, StartsRight, NoneEndsInZero, PackNals, AnnexB, Joined;
    PackThenAnnexB(Nals(data));
    NalsAreTrueIff(data);
  }

  function WithShortCodes(us: seq<Unit>): seq<Unit> {
    if us == [] then [] else [Unit(false, us[0].nal)] + WithShortCodes(us[1..])
  }

  lemma {:induction false} JoinedIsFrame(us: seq<Unit>)
    ensures Joined(NalsOf(us)) == Frame(WithShortCodes(us))
  {
    if us != [] {
      JoinedIsFrame(us[1..]);
      assert NalsOf(us)[1..] == NalsOf(us[1..]) && WithShortCodes(us)[1..] == WithShortCodes(us[1..]);
    }
  }

  /** A byte stream of clean, carriable units comes back as the same stream with three-byte start codes. */
  lemma UnitsRoundTrip(us: seq<Unit>)
    requires forall u :: u in us ==> Clean(u.nal)
    requires AllCarriable(NalsOf(us))
    ensures Nals(Frame(us)) == NalsOf(us) && AnnexB(PackNals(Nals(Frame(us)))) == Joined(NalsOf(us)) == Frame(WithShortCodes(us))
  {
    hide Nals, Frame, PackNals, AnnexB, Joined;
    NalsOfFrame(us);
    FrameRoundTrip(Frame(us));
    JoinedIsFrame(us);
  }

  /** Data with at least one unit needs at least one packet. */
  lemma SomePayload(data: Bytes)
    requires Nals(data) != []
    ensures PackNals(Nals(data)) != []
  {
    hide Nals, Fragments;
    NalsNotEmpty(data);
    var nal := Nals(data)[0];
    assert nal != [];
    if |nal| > PACKET_MAX {
      StartAndEndBits(nal, 1);
    }
  }
}
