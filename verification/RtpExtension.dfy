/** One-byte header extension elements (section 4.2 of RFC 8285): the iterator the receiver uses and the
    block the sender builds. */
module RtpExtension {
  import opened Words

  datatype Element = Element(id: nat, data: Bytes)

  /** Data length announced by an element header. */
  function DataLength(header: U8): (n: nat)
    ensures 1 <= n <= 16
  {
    header % 16 + 1
  }

  /** Everything the iterator yields on `b`. */
  function Elements(b: Bytes): seq<Element> {
    if b == [] || 1 + DataLength(b[0]) > |b| then []
    else
      var n := 1 + DataLength(b[0]);
      [Element(b[0] / 16, b[1..n])] + Elements(b[n..])
  }

  /** The begin/sentinel pair walking over an extension block. */
  class Iterator {
    const data: Bytes
    var current: nat

    ghost predicate Valid()
      reads this
    {
      current <= |data|
    }

    /** What is still to come. */
    ghost function Remaining(): seq<Element>
      requires Valid()
      reads this
    {
      Elements(data[current..])
    }

    constructor (b: Bytes)
      ensures Valid() && Remaining() == Elements(b) && data == b
    {
      data, current := b, 0;
      new;
      assert data[0..] == b;
    }

    method AtEnd() returns (end: bool)
      requires Valid()
      ensures end <==> Remaining() == []
      ensures !end ==> current < |data| && current + 1 + DataLength(data[current]) <= |data|
    {
      end := current >= |data| || current + 1 + DataLength(data[current]) > |data|;
    }

    method Current() returns (e: Element)
      requires Valid() && Remaining() != []
      ensures e == Remaining()[0]
    {
      e := Element(data[current] / 16, data[current + 1..current + 1 + DataLength(data[current])]);
    }

    method Next()
      requires Valid() && Remaining() != []
      modifies this
      ensures Valid() && Remaining() == old(Remaining())[1..] && current > old(current)
    {
      var n := 1 + DataLength(data[current]);
      assert data[current..][n..] == data[current + n..];
      current := current + n;
    }
  }

  // ---------------------------------------------------------------------------------------------
  // Sending side

  /** An element the one-byte form can carry. */
  predicate Encodable(e: Element) {
    1 <= e.id <= 14 && 1 <= |e.data| <= 16
  }

  function EncodeElement(e: Element): (b: Bytes)
    requires Encodable(e)
    ensures |b| == 1 + |e.data|
  {
    [16 * e.id + (|e.data| - 1)] + e.data
  }

  function Encode(es: seq<Element>): Bytes
    requires forall e :: e in es ==> Encodable(e)
  {
    if es == [] then [] else EncodeElement(es[0]) + Encode(es[1..])
  }

  /** What iterating over `z` zero bytes yields: one id-0 item for every two bytes. */
  function PaddingItems(z: nat): (items: seq<Element>)
    ensures |items| == z / 2 && forall i :: i in items ==> i.id == 0
  {
    seq(z / 2, _ => Element(0, [0]))
  }

  lemma {:induction false} ElementsOfZeros(z: nat)
    ensures Elements(Zeros(z)) == PaddingItems(z)
  {
    if z >= 2 {
      ZerosStep(z);
      hide Zeros;
      ElementsOfZeros(z - 2);
      assert PaddingItems(z) == [Element(0, [0])] + PaddingItems(z - 2);
    }
  }

  lemma ZerosStep(z: nat)
    requires z >= 2
    ensures Zeros(z)[0] == 0 && Zeros(z)[2..] == Zeros(z - 2) && Zeros(z)[1..2] == [0]
  {
  }

  /** Encoded elements come back in order, and then whatever follows them. */
  lemma {:induction false} ElementsOfEncode(es: seq<Element>, rest: Bytes)
    requires forall e :: e in es ==> Encodable(e)
    ensures Elements(Encode(es) + rest) == es + Elements(rest)
  {
    if es == [] {
      assert Encode(es) + rest == rest;
    } else {
      var head, tail := EncodeElement(es[0]), Encode(es[1..]);
      assert Encode(es) == head + tail;
      hide EncodeElement, Elements, Encode;
      Assoc(head, tail, rest);
      HeadElement(es[0], tail + rest);
      ElementsOfEncode(es[1..], rest);
      Assoc([es[0]], es[1..], Elements(rest));
      assert es == [es[0]] + es[1..];
    }
  }

  lemma HeadElement(e: Element, rest: Bytes)
    requires Encodable(e)
    ensures Elements(EncodeElement(e) + rest) == [e] + Elements(rest)
  {
    var b, n := EncodeElement(e) + rest, 1 + |e.data|;
    assert b[0] == 16 * e.id + (|e.data| - 1);
    assert b[0] / 16 == e.id && DataLength(b[0]) == |e.data|;
    assert b[1..n] == e.data && b[n..] == rest;
  }

  /** Iterating over an encoded, zero-padded block yields the elements and then only id-0 items. */
  lemma IterateEncoded(es: seq<Element>)
    requires forall e :: e in es ==> Encodable(e)
    ensures Elements(Encode(es) + Zeros(PadTo4(|Encode(es)|))) == es + PaddingItems(PadTo4(|Encode(es)|))
  {
    ElementsOfEncode(es, Zeros(PadTo4(|Encode(es)|)));
    ElementsOfZeros(PadTo4(|Encode(es)|));
  }

  type U24 = x: int | 0 <= x < 0x100_0000

  /** Negotiated extension ids (0 when absent) and the values the sender has for one packet. */
  datatype SendInfo = SendInfo(midId: int, mid: U8, ridId: int, rid: Bytes, video: bool,
                               absId: int, abs: U24, tccId: int, tcc: U16)

  predicate Usable(id: int) {
    0 < id < 15
  }

  /** Bitwise or of two four-bit numbers. */
  function OrNibble(a: nat, b: nat): (r: nat)
    ensures r < 16
  {
    8 * Max(a / 8 % 2, b / 8 % 2) + 4 * Max(a / 4 % 2, b / 4 % 2) + 2 * Max(a / 2 % 2, b / 2 % 2) + Max(a % 2, b % 2)
  }

  /** The byte `(id << 4) | (size - 1)`; a size over 16 spills into the id. */
  function HeaderByte(id: nat, size: nat): U8
    requires id < 16 && size > 0
  {
    16 * OrNibble(id, (size - 1) / 16 % 16) + (size - 1) % 16
  }

  /** What the sender can be asked to append. */
  predicate Appendable(e: Element) {
    1 <= e.id < 15 && e.data != []
  }

  function RawElement(e: Element): (b: Bytes)
    requires Appendable(e)
    ensures |b| == 1 + |e.data|
  {
    [HeaderByte(e.id, |e.data|)] + e.data
  }

  function Raw(es: seq<Element>): Bytes
    requires forall e :: e in es ==> Appendable(e)
  {
    if es == [] then [] else RawElement(es[0]) + Raw(es[1..])
  }

  lemma OrWithZero(a: nat)
    requires a < 16
    ensures OrNibble(a, 0) == a
  {
    assert a / 8 % 2 == a / 8 && a / 4 == 2 * (a / 8) + a / 4 % 2 && a / 2 == 2 * (a / 4) + a / 2 % 2;
  }

  lemma HeaderIs(id: nat, size: nat)
    requires id < 16 && 1 <= size <= 16
    ensures HeaderByte(id, size) == 16 * id + (size - 1)
  {
    hide OrNibble;
    OrWithZero(id);
    var n := size - 1;
    assert n / 16 == 0 && n % 16 == n;
  }

  /** Sizes up to 16 are encoded as they should be. */
  lemma RawElementIs(e: Element)
    requires Encodable(e)
    ensures Appendable(e) && RawElement(e) == EncodeElement(e)
  {
    hide HeaderByte;
    HeaderIs(e.id, |e.data|);
  }

  lemma {:induction false} RawIsEncode(es: seq<Element>)
    requires forall e :: e in es ==> Encodable(e)
    ensures (forall e :: e in es ==> Appendable(e)) && Raw(es) == Encode(es)
  {
    hide EncodeElement, RawElement;
    if es != [] {
      RawElementIs(es[0]);
      RawIsEncode(es[1..]);
      assert es == [es[0]] + es[1..];
    }
  }

  /** The elements before the transport number, in the order they are appended. */
  function StreamElements(s: SendInfo): (es: seq<Element>)
    ensures forall e :: e in es ==> Appendable(e)
  {
    (if Usable(s.midId) then [Element(s.midId, [s.mid])] else [])
    + (if Usable(s.ridId) && s.rid != [] then [Element(s.ridId, s.rid)] else [])
    + (if s.video && Usable(s.absId) then [Element(s.absId, [s.abs / 0x1_0000, s.abs / 0x100 % 0x100, s.abs % 0x100])] else [])
  }

  /** The elements a sent packet is meant to carry. */
  function SentElements(s: SendInfo): (es: seq<Element>)
    ensures forall e :: e in es ==> Appendable(e)
  {
    StreamElements(s) + (if Usable(s.tccId) then [Element(s.tccId, Be16(s.tcc))] else [])
  }

  /** The block of a sent packet. */
  function SentBlock(s: SendInfo): Bytes {
    var raw := Raw(SentElements(s));
    raw + Zeros(PadTo4(|raw|))
  }

  /** No stream id is sent, or one the one-byte form has room for. */
  predicate RidFits(s: SendInfo) {
    Usable(s.ridId) ==> |s.rid| <= 16
  }

  lemma {:induction false} ElementsAreShort(b: Bytes)
    ensures forall e :: e in Elements(b) ==> |e.data| <= 16
  {
    if b != [] && 1 + DataLength(b[0]) <= |b| {
      ElementsAreShort(b[1 + DataLength(b[0])..]);
    }
  }

  /** A receiver reads the elements that were meant, and then only padding, exactly when the stream id fits. */
  lemma SentBlockReadsIff(s: SendInfo)
    ensures var padding := PaddingItems(PadTo4(|Raw(SentElements(s))|));
            Elements(SentBlock(s)) == SentElements(s) + padding <==> RidFits(s)
  {
    hide Elements, Raw, Encode, PaddingItems;
    var es := SentElements(s);
    if RidFits(s) {
      assert forall e :: e in es ==> Encodable(e);
      RawIsEncode(es);
      IterateEncoded(es);
    } else {
      ElementsAreShort(SentBlock(s));
      var long := Element(s.ridId, s.rid);
      assert long in StreamElements(s);
      assert long in es + PaddingItems(PadTo4(|Raw(es)|));
    }
  }

  /** The extension block of a sent packet, built byte by byte. */
  method BuildExtension(s: SendInfo) returns (ext: Bytes)
    ensures ext == SentBlock(s)
  {
    hide Raw, RawElement;
    ext := [];
    ghost var es: seq<Element> := [];
    RawNothing();
    if Usable(s.midId) {
      ext, es := Emit(ext, es, Element(s.midId, [s.mid]));
    }
    if Usable(s.ridId) && s.rid != [] {
      ext, es := Emit(ext, es, Element(s.ridId, s.rid));
    }
    if s.video && Usable(s.absId) {
      ext, es := Emit(ext, es, Element(s.absId, [s.abs / 0x1_0000, s.abs / 0x100 % 0x100, s.abs % 0x100]));
    }
    if Usable(s.tccId) {
      ext, es := Emit(ext, es, Element(s.tccId, [s.tcc / 0x100, s.tcc % 0x100]));
    }
    assert es == SentElements(s);
    ext := PadWithZeros(ext);
  }

  /** Appends the header byte and the data of one element. */
  method Emit(ext: Bytes, ghost es: seq<Element>, e: Element) returns (out: Bytes, ghost es': seq<Element>)
    requires Appendable(e) && (forall x :: x in es ==> Appendable(x)) && ext == Raw(es)
    ensures es' == es + [e] && (forall x :: x in es' ==> Appendable(x)) && out == Raw(es')
  {
    AppendRaw(es, e);
    out := ext + [HeaderByte(e.id, |e.data|)] + e.data;
    Assoc(ext, [HeaderByte(e.id, |e.data|)], e.data);
    es' := es + [e];
  }

  method PadWithZeros(ext: Bytes) returns (out: Bytes)
    ensures out == ext + Zeros(PadTo4(|ext|))
  {
    out := ext;
    while |out| % 4 != 0
      invariant |ext| <= |out| <= |ext| + PadTo4(|ext|)
      invariant out == ext + Zeros(|out| - |ext|)
      decreases |ext| + PadTo4(|ext|) - |out|
    {
      out := out + [0];
    }
  }

  lemma RawNothing()
    ensures Raw([]) == []
  {
  }

  lemma AppendRaw(es: seq<Element>, e: Element)
    requires Appendable(e) && forall x :: x in es ==> Appendable(x)
    ensures forall x :: x in es + [e] ==> Appendable(x)
    ensures Raw(es + [e]) == Raw(es) + RawElement(e)
  {
    hide RawElement;
    if es != [] {
      assert (es + [e])[1..] == es[1..] + [e];
      AppendRaw(es[1..], e);
    }
  }
}
