/** The RTP packet: wire layout, parser, writer (section 5.1 of RFC 3550). */
module Rtp {
  import opened Words

  datatype Packet = Packet(version: U8, padding: U8, extension: U8, csrcCount: U8, marker: U8, payloadType: U8,
                           seqNo: U16, timestamp: U32, ssrc: U32, csrcs: seq<U32>,
                           extProfile: U16, extData: Bytes, payload: Bytes)

  // ---------------------------------------------------------------------------------------------
  // Layout

  function Words32(ws: seq<U32>): (b: Bytes)
    ensures |b| == 4 * |ws|
  {
    if ws == [] then [] else Be32(ws[0]) + Words32(ws[1..])
  }

  function ReadWords32(b: Bytes, n: nat): (ws: seq<U32>)
    requires 4 * n <= |b|
    ensures |ws| == n
  {
    if n == 0 then [] else [Get32(b, 0)] + ReadWords32(b[4..], n - 1)
  }

  lemma {:induction false} ReadWordsOfWords(ws: seq<U32>, rest: Bytes)
    ensures ReadWords32(Words32(ws) + rest, |ws|) == ws
  {
    if ws != [] {
      hide Be32, Get32;
      var b := Words32(ws) + rest;
      assert b[0..4] == Be32(ws[0]);
      Get32Reads(b, 0, ws[0]);
      assert b[4..] == Words32(ws[1..]) + rest;
      ReadWordsOfWords(ws[1..], rest);
    }
  }

  lemma {:induction false} WordsOfReadWords(b: Bytes, n: nat)
    requires 4 * n <= |b|
    ensures Words32(ReadWords32(b, n)) == b[..4 * n]
  {
    if n > 0 {
      hide Be32, Get32;
      WordsOfReadWords(b[4..], n - 1);
      Be32OfGet32(b, 0);
      assert Words32(ReadWords32(b, n)) == Be32(Get32(b, 0)) + Words32(ReadWords32(b[4..], n - 1)) by {
        assert ReadWords32(b, n)[1..] == ReadWords32(b[4..], n - 1);
      }
      assert b[..4 * n] == b[..4] + b[4..][..4 * (n - 1)];
    }
  }

  /** Version, padding flag, extension flag and CSRC count share the first byte. */
  function FlagByte(p: Packet): U8
    requires FieldsFit(p)
  {
    64 * p.version + 32 * p.padding + 16 * p.extension + p.csrcCount
  }

  lemma FlagByteBits(p: Packet)
    requires FieldsFit(p)
    ensures var b := FlagByte(p);
            b / 64 == p.version && b / 32 % 2 == p.padding && b / 16 % 2 == p.extension && b % 16 == p.csrcCount
  {
    var b, h := FlagByte(p), 4 * p.version + 2 * p.padding + p.extension;
    assert b == 16 * h + p.csrcCount;
    assert b / 16 == h && b / 32 == 2 * p.version + p.padding;
  }

  function FixedHeader(p: Packet): (b: Bytes)
    requires FieldsFit(p)
    ensures |b| == 12
  {
    [FlagByte(p), 128 * p.marker + p.payloadType] + Be16(p.seqNo) + Be32(p.timestamp) + Be32(p.ssrc)
  }

  /** The small fields fit the bits the header has for them. */
  predicate FieldsFit(p: Packet) {
    p.version < 4 && p.padding < 2 && p.extension < 2 && p.csrcCount < 16 && p.marker < 2 && p.payloadType < 128
  }

  function ZeroPadded(d: Bytes): (r: Bytes)
    ensures |r| % 4 == 0 && d <= r
  {
    d + Zeros(PadTo4(|d|))
  }

  function ExtensionBlock(p: Packet): (b: Bytes)
    requires |p.extData| <= 4 * 0xFFFF
    ensures |b| % 4 == 0
  {
    if p.extension == 0 then []
    else Be16(p.extProfile) + Be16((|p.extData| + 3) / 4) + ZeroPadded(p.extData)
  }

  /** Padding always adds between one and four bytes; the last one is their count. */
  function PaddingBlock(padding: U8, unpadded: nat): (b: Bytes)
    ensures (padding > 0 <==> b != []) && (padding > 0 ==> (unpadded + |b|) % 4 == 0 && |b| <= 4 && b[|b| - 1] == |b|)
  {
    if padding == 0 then []
    else var n := 4 - unpadded % 4; Zeros(n - 1) + [n]
  }

  /** What the fields of a packet must satisfy before it is written. */
  predicate WellFormed(p: Packet) {
    && FieldsFit(p) && p.version == 2
    && p.csrcCount == |p.csrcs|
    && |p.extData| <= 4 * 0xFFFF
    && (p.extension == 0 ==> p.extProfile == 0 && p.extData == [])
  }

  function Body(p: Packet): Bytes
    requires WellFormed(p)
  {
    FixedHeader(p) + Words32(p.csrcs) + ExtensionBlock(p) + p.payload
  }

  function Serialize(p: Packet): Bytes
    requires WellFormed(p)
  {
    Body(p) + PaddingBlock(p.padding, |Body(p)|)
  }

  // ---------------------------------------------------------------------------------------------
  // Parsing

  /** `b` after its trailing padding has been removed; none when the count is unusable. */
  function StripPadding(padding: U8, b: Bytes): Option<Bytes> {
    if padding == 0 || b == [] then Some(b)
    else
      var n := b[|b| - 1];
      if n == 0 || n > |b| then None else Some(b[..|b| - n])
  }

  function ParseTail(p: Packet, b: Bytes): Option<Packet> {
    match StripPadding(p.padding, b)
    case None => None
    case Some(payload) => Some(p.(payload := payload))
  }

  function ParseExtension(p: Packet, b: Bytes): Option<Packet> {
    if p.extension == 0 then ParseTail(p, b)
    else if |b| < 4 then None
    else
      var n := 4 * (Get16(b, 2) as int);
      if |b| < 4 + n then None
      else ParseTail(p.(extProfile := Get16(b, 0), extData := b[4..4 + n]), b[4 + n..])
  }

  function HeaderFields(b: Bytes): Packet
    requires |b| >= 12
  {
    Packet(b[0] / 64, b[0] / 32 % 2, b[0] / 16 % 2, b[0] % 16, b[1] / 128, b[1] % 128,
           Get16(b, 2), Get32(b, 4), Get32(b, 8), [], 0, [], [])
  }

  function Parse(b: Bytes): Option<Packet> {
    if |b| < 12 || HeaderFields(b).version != 2 then None
    else
      var p := HeaderFields(b);
      var rest := b[12..];
      if |rest| < 4 * (p.csrcCount as int) then None
      else ParseExtension(p.(csrcs := ReadWords32(rest, p.csrcCount)), rest[4 * (p.csrcCount as int)..])
  }

  // ---------------------------------------------------------------------------------------------
  // Round trips

  lemma HeaderRoundTrip(p: Packet, rest: Bytes)
    requires FieldsFit(p)
    ensures HeaderFields(FixedHeader(p) + rest) == p.(csrcs := [], extProfile := 0, extData := [], payload := [])
    ensures (FixedHeader(p) + rest)[12..] == rest
  {
    hide Be16, Be32, Get16, Get32, FlagByte;
    var b := FixedHeader(p) + rest;
    FlagByteBits(p);
    assert b[0] == FlagByte(p) && b[1] == 128 * p.marker + p.payloadType;
    assert b[2..4] == Be16(p.seqNo) && b[4..8] == Be32(p.timestamp) && b[8..12] == Be32(p.ssrc);
    Get16Reads(b, 2, p.seqNo);
    Get32Reads(b, 4, p.timestamp);
    Get32Reads(b, 8, p.ssrc);
  }

  lemma PaddingRoundTrip(padding: U8, payload: Bytes, unpadded: nat)
    ensures StripPadding(padding, payload + PaddingBlock(padding, unpadded)) == Some(payload)
  {
    var b := payload + PaddingBlock(padding, unpadded);
    assert b[..|payload|] == payload;
    if padding == 0 {
      assert b == payload;
    }
  }

  lemma ExtensionRoundTrip(p: Packet, q: Packet, tail: Bytes)
    requires WellFormed(p) && q.extension == p.extension && q.extProfile == 0 && q.extData == []
    ensures ParseExtension(q, ExtensionBlock(p) + tail) ==
            ParseTail(q.(extProfile := p.extProfile, extData := ZeroPadded(p.extData)), tail)
  {
    var b := ExtensionBlock(p) + tail;
    if p.extension == 0 {
      assert b == tail && ZeroPadded(p.extData) == [];
    } else {
      hide ExtensionBlock, ParseTail, ZeroPadded, Get16;
      BlockReads(p, tail);
    }
  }

  lemma BlockReads(p: Packet, tail: Bytes)
    requires WellFormed(p) && p.extension != 0
    ensures var b, words := ExtensionBlock(p) + tail, (|p.extData| + 3) / 4;
            && |b| == 4 + 4 * words + |tail| && Get16(b, 0) == p.extProfile && Get16(b, 2) == words
            && b[4..4 + 4 * words] == ZeroPadded(p.extData) && b[4 + 4 * words..] == tail
  {
    var b, words := ExtensionBlock(p) + tail, (|p.extData| + 3) / 4;
    hide Be16, Get16, ZeroPadded, ExtensionBlock;
    PaddedLength(p.extData);
    BlockIs(p);
    FourParts(Be16(p.extProfile), Be16(words), ZeroPadded(p.extData), tail);
    Get16Reads(b, 0, p.extProfile);
    Get16Reads(b, 2, words);
  }

  lemma PaddedLength(d: Bytes)
    ensures |ZeroPadded(d)| == 4 * ((|d| + 3) / 4)
  {
  }

  lemma BlockIs(p: Packet)
    requires |p.extData| <= 4 * 0xFFFF && p.extension != 0
    ensures ExtensionBlock(p) == Be16(p.extProfile) + Be16((|p.extData| + 3) / 4) + ZeroPadded(p.extData)
  {
    hide Be16, ZeroPadded;
  }

  lemma FourParts(w: Bytes, x: Bytes, y: Bytes, z: Bytes)
    requires |w| == 2 && |x| == 2
    ensures var b := w + x + y + z; b[0..2] == w && b[2..4] == x && b[4..4 + |y|] == y && b[4 + |y|..] == z
  {
  }

  /** Parsing what was written gives the packet back, its extension data zero-padded to whole words. */
  lemma ParseOfSerialize(p: Packet)
    requires WellFormed(p)
    ensures Parse(Serialize(p)) == Some(p.(extData := ZeroPadded(p.extData)))
  {
    hide FixedHeader, ExtensionBlock, ParseExtension, StripPadding, PaddingBlock, Words32, ReadWords32, HeaderFields;
    var pad := PaddingBlock(p.padding, |Body(p)|);
    var tail := p.payload + pad;
    var rest := Words32(p.csrcs) + (ExtensionBlock(p) + tail);
    assert Serialize(p) == FixedHeader(p) + rest;
    HeaderRoundTrip(p, rest);
    ReadWordsOfWords(p.csrcs, ExtensionBlock(p) + tail);
    assert rest[4 * |p.csrcs|..] == ExtensionBlock(p) + tail;
    var q := p.(extProfile := 0, extData := [], payload := []);
    ExtensionRoundTrip(p, q, tail);
    PaddingRoundTrip(p.padding, p.payload, |Body(p)|);
  }

  /** Every accepted byte string parses to a packet that can be written, whose extension is whole words. */
  lemma ParsedIsWellFormed(b: Bytes)
    requires Parse(b).Some?
    ensures WellFormed(Parse(b).value) && |Parse(b).value.extData| % 4 == 0
  {
  }

  /** Parse, write, parse is parse: the written form is a normal form. */
  lemma NormalForm(b: Bytes)
    requires Parse(b).Some?
    ensures Parse(Serialize(Parse(b).value)) == Parse(b)
  {
    hide Parse, Serialize;
    var p := Parse(b).value;
    ParsedIsWellFormed(b);
    ParseOfSerialize(p);
    assert ZeroPadded(p.extData) == p.extData;
  }

  lemma HeaderOfParse(b: Bytes)
    requires |b| >= 12
    ensures FixedHeader(HeaderFields(b)) == b[..12]
  {
    hide Be16, Be32, Get16, Get32;
    var p := HeaderFields(b);
    Be16OfGet16(b, 2);
    Be32OfGet32(b, 4);
    Be32OfGet32(b, 8);
    assert [FlagByte(p), 128 * p.marker + p.payloadType] == b[0..2];
    assert b[..12] == b[0..2] + b[2..4] + b[4..8] + b[8..12];
  }

  lemma ExtensionOfParse(q: Packet, b: Bytes)
    requires ParseExtension(q, b).Some? && q.extension < 2 && q.extData == []
    ensures var p := ParseExtension(q, b).value;
            && p == q.(extProfile := p.extProfile, extData := p.extData, payload := p.payload)
            && |p.extData| <= 4 * 0xFFFF
            && (p.padding == 0 ==> b == ExtensionBlock(p) + p.payload)
  {
    hide ParseTail, Be16, Get16, ZeroPadded;
    if q.extension == 0 {
      TailOfParse(q, b);
    } else {
      var n := 4 * (Get16(b, 2) as int);
      TailOfParse(q.(extProfile := Get16(b, 0), extData := b[4..4 + n]), b[4 + n..]);
      AlignedNeedsNoZeros(b[4..4 + n]);
      Be16OfGet16(b, 0);
      Be16OfGet16(b, 2);
      JoinBlock(b, n);
    }
  }

  lemma TailOfParse(q: Packet, b: Bytes)
    requires ParseTail(q, b).Some?
    ensures var p := ParseTail(q, b).value; p == q.(payload := p.payload) && (q.padding == 0 ==> p.payload == b)
  {
  }

  lemma JoinBlock(b: Bytes, n: nat)
    requires 4 + n <= |b|
    ensures b == b[0..2] + b[2..4] + b[4..4 + n] + b[4 + n..]
  {
  }

  lemma AlignedNeedsNoZeros(d: Bytes)
    requires |d| % 4 == 0
    ensures ZeroPadded(d) == d && (|d| + 3) / 4 == |d| / 4
  {
  }

  lemma BodyOfParse(b: Bytes)
    requires Parse(b).Some? && Parse(b).value.padding == 0 && WellFormed(Parse(b).value)
    ensures Body(Parse(b).value) == b
  {
    var p, q := Parse(b).value, HeaderFields(b);
    hide ExtensionBlock, FixedHeader, Words32, ReadWords32, ParseExtension, HeaderFields, WellFormed;
    var rest, n := b[12..], 4 * (q.csrcCount as int);
    var r := q.(csrcs := ReadWords32(rest, q.csrcCount));
    assert q.extension < 2 && q.extData == [] && FieldsFit(q) by {
      HeaderShape(b);
    }
    ExtensionOfParse(r, rest[n..]);
    HeaderOnlyUsesItsFields(p, q);
    HeaderOfParse(b);
    WordsOfReadWords(rest, q.csrcCount);
    JoinParts(b, 12, n, ExtensionBlock(p), p.payload);
  }

  lemma JoinParts(b: Bytes, h: nat, n: nat, e: Bytes, t: Bytes)
    requires h + n <= |b| && b[h..][n..] == e + t
    ensures b[..h] + b[h..][..n] + e + t == b
  {
    assert b == b[..h] + (b[h..][..n] + b[h..][n..]);
  }

  /** Without padding the written form is the very input. */
  lemma SerializeOfParse(b: Bytes)
    requires Parse(b).Some? && Parse(b).value.padding == 0
    ensures WellFormed(Parse(b).value) && Serialize(Parse(b).value) == b
  {
    ParsedIsWellFormed(b);
    hide Parse, Body, WellFormed;
    BodyOfParse(b);
  }

  lemma HeaderShape(b: Bytes)
    requires |b| >= 12
    ensures FieldsFit(HeaderFields(b)) && HeaderFields(b).extData == []
  {
  }

  lemma HeaderOnlyUsesItsFields(p: Packet, q: Packet)
    requires FieldsFit(p) && p == q.(csrcs := p.csrcs, extProfile := p.extProfile, extData := p.extData, payload := p.payload)
    ensures FixedHeader(p) == FixedHeader(q)
  {
  }

  // ---------------------------------------------------------------------------------------------
  // The buffer-filling and offset-walking code

  /** The size computed before writing. */
  function SerializedSize(p: Packet): nat {
    var ext := if p.extension == 0 then 0 else 4 + |p.extData| + PadTo4(|p.extData|);
    var total := 12 + 4 * (p.csrcCount as int) + ext + |p.payload|;
    if p.padding == 0 then total
    else if total % 4 == 0 then total + 4
    else total + 4 - total % 4
  }

  lemma SizeIsExact(p: Packet)
    requires WellFormed(p)
    ensures SerializedSize(p) == |Serialize(p)|
  {
    hide FixedHeader, Words32;
    assert |Body(p)| == 12 + 4 * |p.csrcs| + |ExtensionBlock(p)| + |p.payload|;
    assert p.padding > 0 ==> |PaddingBlock(p.padding, |Body(p)|)| == 4 - |Body(p)| % 4;
  }

  /** `b` with the bytes from offset `at` on overwritten by `data`. */
  function Splice(b: Bytes, at: nat, data: Bytes): (r: Bytes)
    requires at + |data| <= |b|
    ensures |r| == |b|
  {
    b[..at] + data + b[at + |data|..]
  }

  lemma SpliceSplice(b: Bytes, at: nat, d: Bytes, e: Bytes)
    requires at + |d| + |e| <= |b|
    ensures Splice(Splice(b, at, d), at + |d|, e) == Splice(b, at, d + e)
  {
    var s := Splice(b, at, d);
    assert s[..at + |d|] == b[..at] + d && s[at + |d| + |e|..] == b[at + |d| + |e|..];
  }

  /** Copies `data` to offset `at` and returns the offset after it. */
  method Put(buf: array<U8>, at: nat, data: Bytes) returns (end: nat)
    requires at + |data| <= buf.Length
    modifies buf
    ensures end == at + |data| && buf[..] == Splice(old(buf[..]), at, data)
  {
    forall i | 0 <= i < |data| {
      buf[at + i] := data[i];
    }
    end := at + |data|;
  }

  lemma WordsAppend(ws: seq<U32>, w: U32)
    ensures Words32(ws + [w]) == Words32(ws) + Be32(w)
  {
    hide Be32;
    if ws != [] {
      assert (ws + [w])[1..] == ws[1..] + [w];
      WordsAppend(ws[1..], w);
    }
  }

  lemma SerializeParts(p: Packet)
    requires WellFormed(p)
    ensures Serialize(p) == Body(p) + PaddingBlock(p.padding, |Body(p)|)
  {
    hide Body, PaddingBlock;
  }

  /** Writes the packet, or nothing when it does not fit. */
  method WriteTo(p: Packet, buf: array<U8>) returns (n: int)
    requires WellFormed(p)
    modifies buf
    ensures buf.Length < |Serialize(p)| ==> n == -1 && buf[..] == old(buf[..])
    ensures buf.Length >= |Serialize(p)| ==> n == |Serialize(p)| && buf[..] == Splice(old(buf[..]), 0, Serialize(p))
  {
    SizeIsExact(p);
    SerializeParts(p);
    hide Body, PaddingBlock, SerializedSize, Serialize, Splice, WellFormed;
    var size := SerializedSize(p);
    if buf.Length < size {
      return -1;
    }
    ghost var b0 := buf[..];
    var ptr := PutBody(p, buf);
    SpliceSplice(b0, 0, Body(p), PaddingBlock(p.padding, ptr));
    ptr := Put(buf, ptr, PaddingBlock(p.padding, ptr));
    n := size;
  }

  method PutBody(p: Packet, buf: array<U8>) returns (ptr: nat)
    requires WellFormed(p) && |Body(p)| <= buf.Length
    modifies buf
    ensures ptr == |Body(p)| && buf[..] == Splice(old(buf[..]), 0, Body(p))
  {
    hide FixedHeader, ExtensionBlock, Words32, Splice;
    ghost var b0, header, words, ext := buf[..], FixedHeader(p), Words32(p.csrcs), ExtensionBlock(p);
    ptr := Put(buf, 0, FixedHeader(p));
    ptr := PutWords(buf, ptr, p.csrcs);
    SpliceSplice(b0, 0, header, words);
    ptr := Put(buf, ptr, ExtensionBlock(p));
    SpliceSplice(b0, 0, header + words, ext);
    ptr := Put(buf, ptr, p.payload);
    SpliceSplice(b0, 0, header + words + ext, p.payload);
  }

  method PutWords(buf: array<U8>, at: nat, ws: seq<U32>) returns (end: nat)
    requires at + 4 * |ws| <= buf.Length
    modifies buf
    ensures end == at + 4 * |ws| && buf[..] == Splice(old(buf[..]), at, Words32(ws))
  {
    hide Be32, Words32, Splice;
    end := at;
    SpliceNothing(buf[..], at);
    for i := 0 to |ws|
      invariant end == at + 4 * i && |Words32(ws[..i])| == 4 * i
      invariant buf[..] == Splice(old(buf[..]), at, Words32(ws[..i]))
    {
      assert ws[..i + 1] == ws[..i] + [ws[i]];
      WordsAppend(ws[..i], ws[i]);
      SpliceSplice(old(buf[..]), at, Words32(ws[..i]), Be32(ws[i]));
      end := Put(buf, end, Be32(ws[i]));
    }
    assert ws[..|ws|] == ws;
  }

  lemma SpliceNothing(b: Bytes, at: nat)
    requires at <= |b|
    ensures Words32([]) == [] && Splice(b, at, []) == b
  {
  }

  method ParsePacket(data: Bytes) returns (r: Option<Packet>)
    ensures r == Parse(data)
  {
    if |data| < 12 || HeaderFields(data).version != 2 {
      return None;
    }
    hide HeaderFields, Get32, ParseExtension;
    var pkt := HeaderFields(data);
    var offset := 12;
    if |data| < offset + 4 * (pkt.csrcCount as int) {
      return None;
    }
    var csrcs := [];
    for i := 0 to pkt.csrcCount
      invariant offset == 12 + 4 * i
      invariant csrcs + ReadWords32(data[offset..], pkt.csrcCount - i) == ReadWords32(data[12..], pkt.csrcCount)
    {
      Get32Shift(data, offset);
      assert data[offset + 4..] == data[offset..][4..];
      csrcs := csrcs + [Get32(data, offset)];
      offset := offset + 4;
    }
    assert csrcs == ReadWords32(data[12..], pkt.csrcCount);
    assert data[12..][4 * (pkt.csrcCount as int)..] == data[offset..];
    r := ParseRest(pkt.(csrcs := csrcs), data, offset);
  }

  /** The part of the parser after the CSRC list, with its running offset. */
  method ParseRest(header: Packet, data: Bytes, start: nat) returns (r: Option<Packet>)
    requires start <= |data|
    ensures r == ParseExtension(header, data[start..])
  {
    hide ParseTail;
    var pkt, offset := header, start;
    if pkt.extension != 0 {
      if |data| < offset + 4 {
        return None;
      }
      var n := 4 * (Get16(data, offset + 2) as int);
      pkt := pkt.(extProfile := Get16(data, offset));
      offset := offset + 4;
      if |data| < offset + n {
        return None;
      }
      pkt := pkt.(extData := data[offset..offset + n]);
      offset := offset + n;
      assert data[start..][4..4 + n] == pkt.extData && data[start..][4 + n..] == data[offset..];
    }
    r := ParsePayload(pkt, data[offset..]);
  }

  method ParsePayload(header: Packet, data: Bytes) returns (r: Option<Packet>)
    ensures r == ParseTail(header, data)
  {
    var pkt, payload := header, data;
    if pkt.padding != 0 && payload != [] {
      var pad := payload[|payload| - 1];
      if pad == 0 || pad > |payload| {
        return None;
      }
      payload := payload[..|payload| - pad];
    }
    r := Some(pkt.(payload := payload));
  }

  lemma Get32Shift(b: Bytes, i: nat)
    requires i + 4 <= |b|
    ensures Get32(b, i) == Get32(b[i..], 0)
  {
  }
}
