/** RTCP packets: reports, source descriptions and feedback, alone and in compound datagrams (section 6 of RFC 3550,
    section 6 of RFC 4585). */
module Rtcp {
  import opened Words
  import Rtp

  const SR: U8 := 200
  const RR: U8 := 201
  const SDES: U8 := 202
  const BYE: U8 := 203
  const APP: U8 := 204
  const RTPFB: U8 := 205
  const PSFB: U8 := 206

  datatype Block = Block(ssrc: U32, fraction: U8, lost: U32, highest: U32, jitter: U32, lsr: U32, dlsr: U32)

  datatype Packet = Packet(version: U8, padding: U8, count: U8, kind: U8, ssrc: U32, mediaSsrc: U32,
                           ntpHigh: U32, ntpLow: U32, rtpTime: U32, packets: U32, octets: U32,
                           blocks: seq<Block>, payload: Bytes)

  // ---------------------------------------------------------------------------------------------
  // Report blocks

  function BlockBytes(b: Block): (r: Bytes)
    ensures |r| == 24
  {
    Be32(b.ssrc) + ([b.fraction] + Be32(b.lost % 0x100_0000)[1..]) + Be32(b.highest) + Be32(b.jitter) + Be32(b.lsr) + Be32(b.dlsr)
  }

  function ReadBlock(r: Bytes): Block
    requires |r| >= 24
  {
    var flc := Get32(r, 4);
    Block(Get32(r, 0), flc / 0x100_0000, flc % 0x100_0000, Get32(r, 8), Get32(r, 12), Get32(r, 16), Get32(r, 20))
  }

  function BlocksBytes(bs: seq<Block>): (r: Bytes)
    ensures |r| == 24 * |bs|
  {
    if bs == [] then [] else BlockBytes(bs[0]) + BlocksBytes(bs[1..])
  }

  function ReadBlocks(r: Bytes, n: nat): seq<Block>
    requires 24 * n <= |r|
  {
    if n == 0 then [] else [ReadBlock(r)] + ReadBlocks(r[24..], n - 1)
  }

  lemma LostBits(fraction: U8, lost: U32, word: Bytes)
    requires lost < 0x100_0000 && word == [fraction] + Be32(lost)[1..]
    ensures word == Be32(fraction * 0x100_0000 + lost)
  {
    var x := fraction * 0x100_0000 + lost;
    assert x / 0x1_0000 == fraction * 0x100 + lost / 0x1_0000 && x % 0x1_0000 == lost % 0x1_0000;
    assert lost / 0x1_0000 / 0x100 == 0;
  }

  lemma BlockRoundTrip(b: Block, rest: Bytes)
    requires b.lost < 0x100_0000
    ensures ReadBlock(BlockBytes(b) + rest) == b && (BlockBytes(b) + rest)[24..] == rest
  {
    hide Be32, Get32;
    var r, word := BlockBytes(b) + rest, [b.fraction] + Be32(b.lost)[1..];
    LostBits(b.fraction, b.lost, word);
    assert r[0..4] == Be32(b.ssrc) && r[4..8] == word && r[8..12] == Be32(b.highest);
    assert r[12..16] == Be32(b.jitter) && r[16..20] == Be32(b.lsr) && r[20..24] == Be32(b.dlsr);
    Get32Reads(r, 0, b.ssrc);
    Get32Reads(r, 4, b.fraction * 0x100_0000 + b.lost);
    Get32Reads(r, 8, b.highest);
    Get32Reads(r, 12, b.jitter);
    Get32Reads(r, 16, b.lsr);
    Get32Reads(r, 20, b.dlsr);
  }

  lemma ReadBlocksStep(r: Bytes, n: nat)
    requires 0 < n && 24 * n <= |r|
    ensures ReadBlocks(r, n) == [ReadBlock(r)] + ReadBlocks(r[24..], n - 1)
  {
  }

  predicate BlocksFit(bs: seq<Block>) {
    forall i :: 0 <= i < |bs| ==> bs[i].lost < 0x100_0000
  }

  lemma {:induction false} BlocksRoundTrip(bs: seq<Block>, rest: Bytes)
    requires BlocksFit(bs)
    ensures ReadBlocks(BlocksBytes(bs) + rest, |bs|) == bs
    decreases |bs|
  {
    BlocksAre(bs, rest);
    hide BlockBytes, ReadBlock, BlocksBytes, ReadBlocks;
    if bs != [] {
      var head, tail := BlockBytes(bs[0]), BlocksBytes(bs[1..]);
      Assoc(head, tail, rest);
      ReadBlocksStep(head + (tail + rest), |bs|);
      BlockRoundTrip(bs[0], tail + rest);
      assert BlocksFit(bs[1..]);
      BlocksRoundTrip(bs[1..], rest);
      assert [bs[0]] + bs[1..] == bs;
    }
  }

  lemma BlocksAre(bs: seq<Block>, rest: Bytes)
    ensures bs != [] ==> BlocksBytes(bs) == BlockBytes(bs[0]) + BlocksBytes(bs[1..])
    ensures bs == [] ==> ReadBlocks(BlocksBytes(bs) + rest, 0) == []
  {
    hide BlockBytes;
  }

  // ---------------------------------------------------------------------------------------------
  // One packet

  function FixedPart(p: Packet): Bytes {
    if p.kind == SR then Be32(p.ssrc) + Be32(p.ntpHigh) + Be32(p.ntpLow) + Be32(p.rtpTime) + Be32(p.packets) + Be32(p.octets)
    else if p.kind == RR then Be32(p.ssrc)
    else []
  }

  function Content(p: Packet): Bytes {
    FixedPart(p) + (BlocksBytes(p.blocks) + p.payload)
  }

  function Padded(p: Packet): Bytes {
    Content(p) + Rtp.PaddingBlock(p.padding, |Content(p)|)
  }

  predicate FlagsFit(p: Packet) {
    p.version < 4 && p.padding < 2 && p.count < 32
  }

  function Header(p: Packet, words: U16): (b: Bytes)
    requires FlagsFit(p)
    ensures |b| == 4
  {
    [64 * p.version + 32 * p.padding + p.count, p.kind] + Be16(words)
  }

  function Serialize(p: Packet): Bytes
    requires FlagsFit(p) && |Padded(p)| / 4 < 0x1_0000
  {
    Header(p, |Padded(p)| / 4) + Padded(p)
  }

  function ParsePayload(p: Packet, r: Bytes): Option<Packet> {
    match Rtp.StripPadding(p.padding, r)
    case None => None
    case Some(payload) => Some(p.(payload := payload))
  }

  function ParseBlocks(p: Packet, r: Bytes): Option<Packet> {
    if |r| < 24 * (p.count as int) then None
    else ParsePayload(p.(blocks := ReadBlocks(r, p.count)), r[24 * (p.count as int)..])
  }

  function ParseContent(p: Packet, r: Bytes): Option<Packet> {
    if p.kind == SR then
      if |r| < 24 then None
      else ParseBlocks(p.(ssrc := Get32(r, 0), ntpHigh := Get32(r, 4), ntpLow := Get32(r, 8), rtpTime := Get32(r, 12),
                          packets := Get32(r, 16), octets := Get32(r, 20)), r[24..])
    else if p.kind == RR then
      if |r| < 4 then None else ParseBlocks(p.(ssrc := Get32(r, 0)), r[4..])
    else if p.kind == RTPFB || p.kind == PSFB then
      if |r| < 8 then None else ParsePayload(p.(mediaSsrc := Get32(r, 4)), r[8..])
    else if p.kind == SDES || p.kind == BYE || p.kind == APP then ParsePayload(p, r)
    else Some(p)
  }

  function ReadHeader(b: Bytes): Packet
    requires |b| >= 4
  {
    Packet(b[0] / 64, b[0] / 32 % 2, b[0] % 32, b[1], 0, 0, 0, 0, 0, 0, 0, [], [])
  }

  /** Size announced by the length field. */
  function TotalSize(b: Bytes): nat
    requires |b| >= 4
  {
    4 * ((Get16(b, 2) as int) + 1)
  }

  function Parse(b: Bytes): Option<Packet> {
    if |b| < 4 || TotalSize(b) > |b| then None
    else ParseContent(ReadHeader(b), b[4..TotalSize(b)])
  }

  /** What the fields of a report, description, goodbye or application packet must satisfy to be written. */
  predicate WellFormed(p: Packet) {
    && FlagsFit(p) && SR <= p.kind <= APP && p.mediaSsrc == 0
    && (p.kind > RR ==> p.ssrc == 0 && p.blocks == [])
    && (p.kind > SR ==> p.ntpHigh == p.ntpLow == p.rtpTime == p.packets == p.octets == 0)
    && (p.kind <= RR ==> p.count == |p.blocks|) && BlocksFit(p.blocks)
    && (p.padding == 0 ==> |p.payload| % 4 == 0)
    && |Padded(p)| < 4 * 0x1_0000
  }

  lemma HeaderRoundTrip(p: Packet, words: U16, rest: Bytes)
    requires FlagsFit(p)
    ensures var b := Header(p, words) + rest;
            && b[4..] == rest && TotalSize(b) == 4 * (words + 1)
            && ReadHeader(b) == Packet(p.version, p.padding, p.count, p.kind, 0, 0, 0, 0, 0, 0, 0, [], [])
  {
    var b := Header(p, words) + rest;
    hide Be16, Get16;
    assert b[2..4] == Be16(words);
    Get16Reads(b, 2, words);
    assert b[0] == 32 * (2 * p.version + p.padding) + p.count;
    assert b[0] / 32 == 2 * p.version + p.padding;
  }

  lemma PaddedIsAligned(p: Packet)
    requires WellFormed(p)
    ensures |Padded(p)| % 4 == 0
  {
  }

  lemma BlocksPartRoundTrip(p: Packet, q: Packet, pad: Bytes)
    requires BlocksFit(p.blocks) && p.count == |p.blocks| && q == p.(blocks := [], payload := [])
    requires Rtp.StripPadding(p.padding, p.payload + pad) == Some(p.payload)
    ensures ParseBlocks(q, BlocksBytes(p.blocks) + p.payload + pad) == Some(p)
  {
    hide BlocksBytes, ReadBlocks;
    var r := BlocksBytes(p.blocks) + p.payload + pad;
    Assoc(BlocksBytes(p.blocks), p.payload, pad);
    BlocksRoundTrip(p.blocks, p.payload + pad);
    assert r[24 * |p.blocks|..] == p.payload + pad;
  }

  lemma SenderInfoRoundTrip(p: Packet, rest: Bytes)
    requires p.kind == SR
    ensures var r := FixedPart(p) + rest;
            && |FixedPart(p)| == 24 && r[24..] == rest
            && Get32(r, 0) == p.ssrc && Get32(r, 4) == p.ntpHigh && Get32(r, 8) == p.ntpLow
            && Get32(r, 12) == p.rtpTime && Get32(r, 16) == p.packets && Get32(r, 20) == p.octets
  {
    hide Be32, Get32;
    var r := FixedPart(p) + rest;
    assert r[0..4] == Be32(p.ssrc) && r[4..8] == Be32(p.ntpHigh) && r[8..12] == Be32(p.ntpLow);
    assert r[12..16] == Be32(p.rtpTime) && r[16..20] == Be32(p.packets) && r[20..24] == Be32(p.octets);
    Get32Reads(r, 0, p.ssrc);
    Get32Reads(r, 4, p.ntpHigh);
    Get32Reads(r, 8, p.ntpLow);
    Get32Reads(r, 12, p.rtpTime);
    Get32Reads(r, 16, p.packets);
    Get32Reads(r, 20, p.octets);
  }

  lemma ReporterRoundTrip(p: Packet, rest: Bytes)
    requires p.kind == RR
    ensures var r := FixedPart(p) + rest; |FixedPart(p)| == 4 && r[4..] == rest && Get32(r, 0) == p.ssrc
  {
    hide Be32, Get32;
    assert (FixedPart(p) + rest)[0..4] == Be32(p.ssrc);
    Get32Reads(FixedPart(p) + rest, 0, p.ssrc);
  }

  lemma ContentRoundTrip(p: Packet)
    requires WellFormed(p)
    ensures ParseContent(Packet(p.version, p.padding, p.count, p.kind, 0, 0, 0, 0, 0, 0, 0, [], []), Padded(p)) == Some(p)
  {
    hide BlocksBytes, ParseBlocks, Get32, Be32, FixedPart, Rtp.PaddingBlock, Rtp.StripPadding;
    var pad := Rtp.PaddingBlock(p.padding, |Content(p)|);
    var rest := BlocksBytes(p.blocks) + p.payload + pad;
    Rtp.PaddingRoundTrip(p.padding, p.payload, |Content(p)|);
    Assoc(FixedPart(p), BlocksBytes(p.blocks) + p.payload, pad);
    assert Padded(p) == FixedPart(p) + rest;
    if p.kind == SR {
      SenderInfoRoundTrip(p, rest);
      BlocksPartRoundTrip(p, p.(blocks := [], payload := []), pad);
    } else if p.kind == RR {
      ReporterRoundTrip(p, rest);
      BlocksPartRoundTrip(p, p.(blocks := [], payload := []), pad);
    } else {
      NoFixedPart(p);
      assert Padded(p) == p.payload + pad;
    }
  }

  lemma NoFixedPart(p: Packet)
    requires p.kind != SR && p.kind != RR
    ensures FixedPart(p) == [] && (p.blocks == [] ==> BlocksBytes(p.blocks) == [])
  {
  }

  /** Parsing a written packet, whatever follows it, gives the packet back and its exact size. */
  lemma ParseOfSerialize(p: Packet, rest: Bytes)
    requires WellFormed(p)
    ensures var b := Serialize(p) + rest;
            Parse(b) == Some(p) && TotalSize(b) == |Serialize(p)|
  {
    hide Header, Padded, ReadHeader, TotalSize, ParseContent;
    var words := |Padded(p)| / 4;
    PaddedIsAligned(p);
    Assoc(Header(p, words), Padded(p), rest);
    HeaderRoundTrip(p, words, Padded(p) + rest);
    var b := Serialize(p) + rest;
    assert b[4..] == Padded(p) + rest;
    assert b[4..TotalSize(b)] == Padded(p);
    ContentRoundTrip(p);
  }

  // ---------------------------------------------------------------------------------------------
  // Compound datagrams

  function ParseCompound(b: Bytes): seq<Packet> {
    if |b| < 4 || TotalSize(b) > |b| then []
    else
      match Parse(b[..TotalSize(b)])
      case None => []
      case Some(p) => [p] + ParseCompound(b[TotalSize(b)..])
  }

  predicate AllWellFormed(ps: seq<Packet>) {
    forall i :: 0 <= i < |ps| ==> WellFormed(ps[i])
  }

  function Compound(ps: seq<Packet>): Bytes
    requires AllWellFormed(ps)
    decreases |ps|
  {
    if ps == [] then [] else assert AllWellFormed(ps[1..]); Serialize(ps[0]) + Compound(ps[1..])
  }

  lemma ParseIgnoresTail(b: Bytes)
    requires |b| >= 4 && TotalSize(b) <= |b|
    ensures Parse(b[..TotalSize(b)]) == Parse(b) && TotalSize(b[..TotalSize(b)]) == TotalSize(b)
  {
    var c := b[..TotalSize(b)];
    assert c[4..TotalSize(b)] == b[4..TotalSize(b)];
    assert c[0] == b[0] && c[1] == b[1] && c[2] == b[2] && c[3] == b[3];
  }

  /** Parsing the concatenation of written packets returns the same list. */
  lemma {:induction false} CompoundRoundTrip(ps: seq<Packet>)
    requires AllWellFormed(ps)
    ensures ParseCompound(Compound(ps)) == ps
    decreases |ps|
  {
    CompoundIs(ps);
    hide Serialize, Parse, TotalSize, Compound, WellFormed, ParseCompound;
    if ps != [] {
      var head, tail := Serialize(ps[0]), Compound(ps[1..]);
      ParseOfSerialize(ps[0], tail);
      CompoundStep(head + tail, ps[0]);
      assert (head + tail)[|head|..] == tail;
      CompoundRoundTrip(ps[1..]);
      assert [ps[0]] + ps[1..] == ps;
    }
  }

  lemma CompoundIs(ps: seq<Packet>)
    requires AllWellFormed(ps)
    ensures ps == [] ==> Compound(ps) == [] && ParseCompound([]) == []
    ensures ps != [] ==> WellFormed(ps[0]) && AllWellFormed(ps[1..]) && Compound(ps) == Serialize(ps[0]) + Compound(ps[1..])
    ensures forall p :: p in ps ==> WellFormed(p)
  {
    hide Serialize;
    assert ps != [] ==> AllWellFormed(ps[1..]);
  }

  lemma CompoundStep(b: Bytes, p: Packet)
    requires |b| >= 4 && TotalSize(b) <= |b| && Parse(b) == Some(p)
    ensures ParseCompound(b) == [p] + ParseCompound(b[TotalSize(b)..])
  {
    hide Parse, TotalSize;
    ParseIgnoresTail(b);
  }

  /** The walk over a compound datagram. */
  method ReadCompound(data: Bytes) returns (packets: seq<Packet>)
    ensures packets == ParseCompound(data)
  {
    hide Parse, TotalSize;
    packets := [];
    var offset := 0;
    while offset + 4 <= |data|
      invariant offset <= |data| && packets + ParseCompound(data[offset..]) == ParseCompound(data)
    {
      var size := TotalSize(data[offset..]);
      AtLeastHeader(data[offset..]);
      if offset + size > |data| {
        assert ParseCompound(data[offset..]) == [];
        break;
      }
      DropTake(data, offset, size);
      var pkt := Parse(data[offset..offset + size]);
      if pkt == None {
        assert ParseCompound(data[offset..]) == [];
        break;
      }
      DropDrop(data, offset, size);
      Assoc(packets, [pkt.value], ParseCompound(data[offset + size..]));
      packets := packets + [pkt.value];
      offset := offset + size;
    }
    assert ParseCompound(data[offset..]) == [];
    assert packets + [] == packets;
  }

  lemma AtLeastHeader(b: Bytes)
    requires |b| >= 4
    ensures TotalSize(b) >= 4
  {
  }

  // ---------------------------------------------------------------------------------------------
  // The buffer-filling and offset-walking code for one packet

  function SerializedSize(p: Packet): nat {
    var total := 4 + (if p.kind == SR || p.kind == RR then 4 else 0) + (if p.kind == SR then 20 else 0)
                 + 24 * |p.blocks| + |p.payload|;
    if p.padding == 0 then total else total + (4 - total % 4)
  }

  lemma SizeIsExact(p: Packet)
    requires WellFormed(p)
    ensures SerializedSize(p) == |Serialize(p)| && |Padded(p)| / 4 == SerializedSize(p) / 4 - 1
  {
    hide Be32, BlocksBytes;
    PaddedIsAligned(p);
    assert p.padding > 0 ==> |Rtp.PaddingBlock(p.padding, |Content(p)|)| == 4 - |Content(p)| % 4;
  }

  /** Writes the packet, or nothing when it does not fit. */
  method WriteTo(p: Packet, buf: array<U8>) returns (n: int)
    requires WellFormed(p)
    modifies buf
    ensures buf.Length < |Serialize(p)| ==> n == -1 && buf[..] == old(buf[..])
    ensures buf.Length >= |Serialize(p)| ==> n == |Serialize(p)| && buf[..] == Rtp.Splice(old(buf[..]), 0, Serialize(p))
  {
    WrittenParts(p);
    hide WellFormed, SerializedSize, Serialize, Header, Content, Padded, Rtp.PaddingBlock, Rtp.Splice;
    var size := SerializedSize(p);
    if buf.Length < size {
      return -1;
    }
    PutParts(p, buf, size / 4 - 1);
    n := size;
  }

  method PutParts(p: Packet, buf: array<U8>, words: U16)
    requires FlagsFit(p) && 4 + |Content(p)| + |Rtp.PaddingBlock(p.padding, |Content(p)|)| <= buf.Length
    modifies buf
    ensures buf[..] == Rtp.Splice(old(buf[..]), 0, Header(p, words) + Content(p) + Rtp.PaddingBlock(p.padding, |Content(p)|))
  {
    hide FlagsFit, Header, Content, Rtp.PaddingBlock, Rtp.Splice;
    ghost var b0, header, content := buf[..], Header(p, words), Content(p);
    var ptr := Rtp.Put(buf, 0, Header(p, words));
    ptr := PutContent(p, buf, ptr);
    Rtp.SpliceSplice(b0, 0, header, content);
    Rtp.SpliceSplice(b0, 0, header + content, Rtp.PaddingBlock(p.padding, ptr - 4));
    ptr := Rtp.Put(buf, ptr, Rtp.PaddingBlock(p.padding, ptr - 4));
  }

  lemma WrittenParts(p: Packet)
    requires WellFormed(p)
    ensures var size := SerializedSize(p);
            && size == |Serialize(p)| && 4 <= size && size / 4 - 1 < 0x1_0000
            && Serialize(p) == Header(p, size / 4 - 1) + Content(p) + Rtp.PaddingBlock(p.padding, |Content(p)|)
            && |Serialize(p)| == 4 + |Content(p)| + |Rtp.PaddingBlock(p.padding, |Content(p)|)|
  {
    SizeIsExact(p);
    hide SerializedSize, Header, Content, Rtp.PaddingBlock;
    Assoc(Header(p, SerializedSize(p) / 4 - 1), Content(p), Rtp.PaddingBlock(p.padding, |Content(p)|));
  }

  method PutContent(p: Packet, buf: array<U8>, at: nat) returns (ptr: nat)
    requires at + |Content(p)| <= buf.Length
    modifies buf
    ensures ptr == at + |Content(p)| && buf[..] == Rtp.Splice(old(buf[..]), at, Content(p))
  {
    hide FixedPart, BlocksBytes, Rtp.Splice;
    ghost var b0, fixed, blocks := buf[..], FixedPart(p), BlocksBytes(p.blocks);
    ptr := Rtp.Put(buf, at, FixedPart(p));
    ptr := PutBlocks(buf, ptr, p.blocks);
    Rtp.SpliceSplice(b0, at, fixed, blocks);
    ptr := Rtp.Put(buf, ptr, p.payload);
    Rtp.SpliceSplice(b0, at, fixed + blocks, p.payload);
    Assoc(fixed, blocks, p.payload);
  }

  lemma BlocksAppend(bs: seq<Block>, b: Block)
    ensures BlocksBytes(bs + [b]) == BlocksBytes(bs) + BlockBytes(b)
  {
    hide BlockBytes;
    if bs != [] {
      assert (bs + [b])[1..] == bs[1..] + [b];
      BlocksAppend(bs[1..], b);
    }
  }

  method PutBlocks(buf: array<U8>, at: nat, bs: seq<Block>) returns (end: nat)
    requires at + 24 * |bs| <= buf.Length
    modifies buf
    ensures end == at + 24 * |bs| && buf[..] == Rtp.Splice(old(buf[..]), at, BlocksBytes(bs))
  {
    hide BlockBytes, BlocksBytes, Rtp.Splice;
    end := at;
    Rtp.SpliceNothing(buf[..], at);
    NoBlocks();
    for i := 0 to |bs|
      invariant end == at + 24 * i
      invariant buf[..] == Rtp.Splice(old(buf[..]), at, BlocksBytes(bs[..i]))
    {
      assert bs[..i + 1] == bs[..i] + [bs[i]];
      BlocksAppend(bs[..i], bs[i]);
      Rtp.SpliceSplice(old(buf[..]), at, BlocksBytes(bs[..i]), BlockBytes(bs[i]));
      end := Rtp.Put(buf, end, BlockBytes(bs[i]));
    }
    assert bs[..|bs|] == bs;
  }

  lemma NoBlocks()
    ensures BlocksBytes([]) == []
  {
  }

  /** Reads one packet from the front of a buffer. */
  method ReadPacket(data: Bytes) returns (r: Option<Packet>)
    ensures r == Parse(data)
  {
    hide TotalSize, ReadHeader, ReadBlocks, Get32;
    if |data| < 4 {
      return None;
    }
    var pkt, total := ReadHeader(data), TotalSize(data);
    if total > |data| {
      return None;
    }
    AtLeastHeader(data);
    var content := data[4..total];
    if pkt.kind == SR {
      if |content| < 24 {
        return None;
      }
      pkt := pkt.(ssrc := Get32(content, 0), ntpHigh := Get32(content, 4), ntpLow := Get32(content, 8),
                  rtpTime := Get32(content, 12), packets := Get32(content, 16), octets := Get32(content, 20));
      r := ReadBlocksAndPayload(pkt, content[24..]);
    } else if pkt.kind == RR {
      if |content| < 4 {
        return None;
      }
      r := ReadBlocksAndPayload(pkt.(ssrc := Get32(content, 0)), content[4..]);
    } else if pkt.kind == RTPFB || pkt.kind == PSFB {
      if |content| < 8 {
        return None;
      }
      r := ReadPayload(pkt.(mediaSsrc := Get32(content, 4)), content[8..]);
    } else if pkt.kind == SDES || pkt.kind == BYE || pkt.kind == APP {
      r := ReadPayload(pkt, content);
    } else {
      r := Some(pkt);
    }
  }

  method ReadPayload(header: Packet, data: Bytes) returns (r: Option<Packet>)
    ensures r == ParsePayload(header, data)
  {
    var payload := data;
    if header.padding != 0 && |payload| > 0 {
      var pad := payload[|payload| - 1];
      if pad == 0 || pad > |payload| {
        return None;
      }
      payload := payload[..|payload| - pad];
    }
    r := Some(header.(payload := payload));
  }

  /** The block loop, which fails as soon as a block is cut short. */
  method ReadBlocksAndPayload(header: Packet, data: Bytes) returns (r: Option<Packet>)
    ensures r == ParseBlocks(header, data)
  {
    hide ReadBlock, ParsePayload;
    var blocks, offset := [], 0;
    for i := 0 to header.count
      invariant offset == 24 * i <= |data|
      invariant |data| >= 24 * (header.count as int) ==>
                  blocks + ReadBlocks(data[offset..], header.count - i) == ReadBlocks(data, header.count)
    {
      if |data| < offset + 24 {
        return None;
      }
      DropDrop(data, offset, 24);
      if |data| >= 24 * (header.count as int) {
        Assoc(blocks, [ReadBlock(data[offset..])], ReadBlocks(data[offset + 24..], header.count - i - 1));
      }
      blocks := blocks + [ReadBlock(data[offset..])];
      offset := offset + 24;
    }
    assert blocks + [] == blocks;
    r := ReadPayload(header.(blocks := blocks), data[offset..]);
  }

  // ---------------------------------------------------------------------------------------------
  // Negative acknowledgements

  /** The number that bit `i` of the mask stands for. */
  function BitNumber(pid: U16, i: nat): U16 {
    (pid + i + 1) % 0x1_0000
  }

  /** The numbers flagged by the remaining bits of a bitmask that starts `i` after `pid`. */
  function Flagged(pid: U16, mask: U16, i: nat): seq<U16>
    requires i <= 16
    decreases 16 - i
  {
    if i == 16 then []
    else (if mask % 2 == 1 then [BitNumber(pid, i)] else []) + Flagged(pid, mask / 2, i + 1)
  }

  function ParseNack(b: Bytes): seq<U16> {
    if |b| < 4 then [] else [Get16(b, 0)] + Flagged(Get16(b, 0), Get16(b, 2), 0) + ParseNack(b[4..])
  }

  function NackItems(lost: seq<U16>): (b: Bytes)
    ensures |b| == 4 * |lost|
  {
    if lost == [] then [] else Be16(lost[0]) + [0, 0] + NackItems(lost[1..])
  }

  /** A transport-layer feedback packet around its control information. */
  function Feedback(padding: U8, format: U8, words: U16, sender: U32, media: U32, fci: Bytes): (b: Bytes)
    requires padding < 2 && format < 32
    ensures |b| == 12 + |fci|
  {
    Header(FeedbackPacket(padding, format, 0, []), words) + (Be32(sender) + (Be32(media) + fci))
  }

  function FeedbackPacket(padding: U8, format: U8, media: U32, payload: Bytes): Packet {
    Packet(2, padding, format, RTPFB, 0, media, 0, 0, 0, 0, 0, [], payload)
  }

  /** The receiver reads as much control information as the length field announces. */
  lemma ParseOfFeedback(padding: U8, format: U8, words: U16, sender: U32, media: U32, fci: Bytes)
    requires padding < 2 && format < 32
    ensures var b, n := Feedback(padding, format, words, sender, media, fci), 4 * (words - 2);
            && (n < 0 || n > |fci| ==> Parse(b) == None)
            && (0 <= n <= |fci| ==> Parse(b) == ParsePayload(FeedbackPacket(padding, format, media, []), fci[..n]))
  {
    var rest := Be32(sender) + (Be32(media) + fci);
    var b, n := Feedback(padding, format, words, sender, media, fci), 4 * (words - 2);
    HeaderRoundTrip(FeedbackPacket(padding, format, 0, []), words, rest);
    hide Header, Be32, Get32, TotalSize, ReadHeader;
    var end := 4 * (words + 1);
    if 4 <= end <= |b| {
      DropTake(b, 4, end - 4);
      assert b[4..end] == rest[..end - 4];
      if 0 <= n {
        var r := rest[..end - 4];
        assert r[4..8] == Be32(media);
        Get32Reads(r, 4, media);
        assert r[8..] == fci[..n];
      }
    }
  }

  /** A feedback packet with one item per lost number; the length field is 16 bits wide. */
  function NackBytes(sender: U32, media: U32, lost: seq<U16>): (b: Bytes)
    ensures |b| == 12 + 4 * |lost|
  {
    Feedback(0, 1, (|lost| + 2) % 0x1_0000, sender, media, NackItems(lost))
  }

  lemma NothingFlagged(pid: U16, i: nat)
    requires i <= 16
    ensures Flagged(pid, 0, i) == []
    decreases 16 - i
  {
  }

  lemma {:induction false} ParseOfNackItems(lost: seq<U16>)
    ensures ParseNack(NackItems(lost)) == lost
  {
    if lost != [] {
      var b := NackItems(lost);
      hide Be16, Get16;
      assert b[0..2] == Be16(lost[0]);
      Get16Reads(b, 0, lost[0]);
      assert Get16(b, 2) == 0 by {
        NoMask(b);
      }
      assert b[4..] == NackItems(lost[1..]);
      NothingFlagged(lost[0], 0);
      ParseOfNackItems(lost[1..]);
    }
  }

  lemma NoMask(b: Bytes)
    requires |b| >= 4 && b[2] == 0 && b[3] == 0
    ensures Get16(b, 2) == 0
  {
  }

  lemma {:induction false} NackItemsPrefix(lost: seq<U16>, m: nat)
    requires m <= |lost|
    ensures NackItems(lost)[..4 * m] == NackItems(lost[..m])
  {
    if m > 0 {
      NackItemsPrefix(lost[1..], m - 1);
      assert lost[..m][1..] == lost[1..][..m - 1] && lost[..m][0] == lost[0];
      var head, tail := Be16(lost[0]) + [0, 0], NackItems(lost[1..]);
      assert (head + tail)[..4 * m] == head + tail[..4 * (m - 1)];
    }
  }

  /** What the receiving side reads from a feedback packet: its media source and the numbers asked for. */
  function ReadNack(b: Bytes): Option<(U32, seq<U16>)> {
    match Parse(b)
    case None => None
    case Some(p) => if p.kind == RTPFB && p.count == 1 then Some((p.mediaSsrc, ParseNack(p.payload))) else None
  }

  /** The list comes back exactly when its length field does not wrap. */
  lemma NackRoundTripIff(sender: U32, media: U32, lost: seq<U16>)
    ensures ReadNack(NackBytes(sender, media, lost)) == Some((media, lost)) <==> |lost| <= 65533
  {
    hide Feedback, Parse, NackItems, ParseNack, ReadNack, NackBytes;
    var m := (|lost| + 2) % 0x1_0000 - 2;
    WrappedLength(|lost|);
    ReadNackIs(sender, media, lost);
    if m == |lost| {
      assert lost[..m] == lost;
    } else if 0 <= m {
      assert |lost[..m]| != |lost|;
    }
  }

  lemma WrappedLength(n: nat)
    ensures var m := (n + 2) % 0x1_0000 - 2; m <= n && (m == n <==> n <= 65533)
  {
  }

  /** Of a list the receiver reads as many entries as the wrapped length field leaves, or rejects the packet. */
  lemma ReadNackIs(sender: U32, media: U32, lost: seq<U16>)
    ensures var m := (|lost| + 2) % 0x1_0000 - 2;
            m <= |lost| && ReadNack(NackBytes(sender, media, lost)) == if m < 0 then None else Some((media, lost[..m]))
  {
    var m := (|lost| + 2) % 0x1_0000 - 2;
    WrappedLength(|lost|);
    ParseOfFeedback(0, 1, m + 2, sender, media, NackItems(lost));
    hide Feedback, Parse, NackItems, ParseNack;
    if 0 <= m {
      NackItemsPrefix(lost, m);
      ParseOfNackItems(lost[..m]);
    }
  }

  /** The numbers one feedback item asks for: the named one and those its mask flags. */
  method ReadItem(pid: U16, mask: U16) returns (lost: seq<U16>)
    ensures lost == [pid] + Flagged(pid, mask, 0)
  {
    hide BitNumber;
    lost := [pid];
    var left, i := mask, 0;
    while i < 16
      invariant i <= 16 && lost + Flagged(pid, left, i) == [pid] + Flagged(pid, mask, 0)
    {
      var bit := if left % 2 == 1 then [BitNumber(pid, i)] else [];
      Assoc(lost, bit, Flagged(pid, left / 2, i + 1));
      lost := lost + bit;
      left, i := left / 2, i + 1;
    }
    assert lost + [] == lost;
  }

  /** The loop over the feedback items. */
  method ReadNackItems(b: Bytes) returns (lost: seq<U16>)
    ensures lost == ParseNack(b)
  {
    hide Get16, Flagged;
    lost := [];
    var at := 0;
    while at + 4 <= |b|
      invariant at <= |b| && lost + ParseNack(b[at..]) == ParseNack(b)
    {
      var more := ReadItem(Get16(b[at..], 0), Get16(b[at..], 2));
      DropDrop(b, at, 4);
      Assoc(lost, more, ParseNack(b[at + 4..]));
      lost := lost + more;
      at := at + 4;
    }
    assert lost + [] == lost;
  }
}
