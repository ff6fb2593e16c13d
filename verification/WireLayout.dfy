/** The wire formats byte by byte, for every input: which byte strings each parser accepts and what it reads from which
    place. With the round trips this says what the writers put there. */
module WireLayout {
  import opened Words
  import Rtp
  import Rtcp
  import Retransmission
  import TransportCcWire
  import RtpExtension
  import Vpx

  // ---------------------------------------------------------------------------------------------
  // Numbers in network byte order

  function Num2(b: Bytes, i: nat): (n: nat)
    requires i + 2 <= |b|
    ensures n < 0x1_0000
  {
    256 * (b[i] as int) + b[i + 1] as int
  }

  function Num3(b: Bytes, i: nat): (n: nat)
    requires i + 3 <= |b|
    ensures n < 0x100_0000
  {
    65536 * (b[i] as int) + 256 * (b[i + 1] as int) + b[i + 2] as int
  }

  function Num4(b: Bytes, i: nat): (n: nat)
    requires i + 4 <= |b|
    ensures n < 0x1_0000_0000
  {
    16777216 * (b[i] as int) + 65536 * (b[i + 1] as int) + 256 * (b[i + 2] as int) + b[i + 3] as int
  }

  lemma NumbersAre(b: Bytes, i: nat)
    ensures i + 2 <= |b| ==> Get16(b, i) == Num2(b, i)
    ensures i + 4 <= |b| ==> Get32(b, i) == Num4(b, i)
  {
  }

  lemma NumInSlice(b: Bytes, from: nat, to: nat, i: nat)
    requires from <= to <= |b|
    ensures from + i + 2 <= to ==> Num2(b[from..to], i) == Num2(b, from + i)
    ensures from + i + 4 <= to ==> Num4(b[from..to], i) == Num4(b, from + i)
  {
  }

  // ---------------------------------------------------------------------------------------------
  // RTP (section 5.1 of RFC 3550)

  /** What lies between two places, less the padding its last byte counts when the padding bit is set. */
  predicate PaddingFits(b: Bytes, from: nat, to: nat, padded: bool)
    requires from <= to <= |b|
  {
    padded && from < to ==> 1 <= b[to - 1] as int <= to - from
  }

  function Unpadded(b: Bytes, from: nat, to: nat, padded: bool): Bytes
    requires from <= to <= |b| && PaddingFits(b, from, to, padded)
  {
    if padded && from < to then b[from..to - b[to - 1] as int] else b[from..to]
  }

  lemma PaddingIsStripped(b: Bytes, from: nat, to: nat, bit: U8)
    requires from <= to <= |b|
    ensures Rtp.StripPadding(bit, b[from..to]) ==
            if PaddingFits(b, from, to, bit != 0) then Some(Unpadded(b, from, to, bit != 0)) else None
  {
    if from < to {
      var s, n := b[from..to], b[to - 1] as int;
      assert s[|s| - 1] == b[to - 1];
      if 1 <= n <= to - from {
        assert s[..|s| - n] == b[from..to - n];
      }
    }
  }

  /** Where the payload begins: after the fixed header, the contributing sources, and the extension with its length. */
  function RtpPayloadAt(b: Bytes): Option<nat>
    requires |b| >= 12
  {
    var h := 12 + 4 * (b[0] as int % 16);
    if h > |b| then None
    else if b[0] as int / 16 % 2 == 0 then Some(h)
    else if h + 4 > |b| || h + 4 + 4 * Num2(b, h + 2) > |b| then None
    else Some(h + 4 + 4 * Num2(b, h + 2))
  }

  predicate RtpAccepted(b: Bytes) {
    && |b| >= 12 && b[0] as int / 64 == 2 && RtpPayloadAt(b).Some?
    && PaddingFits(b, RtpPayloadAt(b).value, |b|, b[0] as int / 32 % 2 == 1)
  }

  lemma {:induction false} SourcesAre(b: Bytes, n: nat, i: nat)
    requires 4 * n <= |b| && i < n
    ensures Rtp.ReadWords32(b, n)[i] == Num4(b, 4 * i)
  {
    hide Get32;
    NumbersAre(b, 0);
    if i > 0 {
      SourcesAre(b[4..], n - 1, i - 1);
      assert Num4(b[4..], 4 * (i - 1)) == Num4(b, 4 * i);
    }
  }

  lemma TailIsRead(q: Rtp.Packet, b: Bytes, at: nat)
    requires at <= |b|
    ensures Rtp.ParseTail(q, b[at..]) ==
            if PaddingFits(b, at, |b|, q.padding != 0) then Some(q.(payload := Unpadded(b, at, |b|, q.padding != 0))) else None
  {
    hide Rtp.StripPadding, PaddingFits, Unpadded;
    PaddingIsStripped(b, at, |b|, q.padding);
    assert b[at..|b|] == b[at..];
  }

  lemma ExtensionIsRead(q: Rtp.Packet, b: Bytes, h: nat)
    requires h <= |b|
    ensures Rtp.ParseExtension(q, b[h..]) ==
            if q.extension == 0 then Rtp.ParseTail(q, b[h..])
            else if h + 4 > |b| || h + 4 + 4 * Num2(b, h + 2) > |b| then None
            else var at := h + 4 + 4 * Num2(b, h + 2);
                 Rtp.ParseTail(q.(extProfile := Num2(b, h), extData := b[h + 4..at]), b[at..])
  {
    hide Rtp.ParseTail, Get16, Num2;
    if h + 4 <= |b| {
      var r := b[h..];
      NumbersAre(r, 0);
      NumbersAre(r, 2);
      assert b[h..|b|] == r;
      NumInSlice(b, h, |b|, 0);
      NumInSlice(b, h, |b|, 2);
      var n := 4 * Num2(b, h + 2);
      if n >= 0 && h + 4 + n <= |b| {
        assert r[4..4 + n] == b[h + 4..h + 4 + n] && r[4 + n..] == b[h + 4 + n..];
      }
    }
  }

  /** The parser accepts exactly these bytes and reads every field from its place. */
  lemma RtpIsRead(b: Bytes)
    ensures Rtp.Parse(b).Some? <==> RtpAccepted(b)
    ensures Rtp.Parse(b).Some? ==>
              var p, h, at := Rtp.Parse(b).value, 12 + 4 * (b[0] as int % 16), RtpPayloadAt(b).value;
              && p.version == 2 && p.padding as int == b[0] as int / 32 % 2 && p.extension as int == b[0] as int / 16 % 2
              && p.csrcCount as int == b[0] as int % 16 && p.marker as int == b[1] as int / 128 && p.payloadType as int == b[1] as int % 128
              && p.seqNo == Num2(b, 2) && p.timestamp == Num4(b, 4) && p.ssrc == Num4(b, 8)
              && |p.csrcs| == b[0] as int % 16 && (forall i :: 0 <= i < |p.csrcs| ==> p.csrcs[i] == Num4(b, 12 + 4 * i))
              && (p.extension == 1 ==> p.extProfile == Num2(b, h) && p.extData == b[h + 4..at])
              && p.payload == Unpadded(b, at, |b|, b[0] as int / 32 % 2 == 1)
  {
    hide Get16, Get32, Num2, Num4, Rtp.ParseTail, Rtp.ParseExtension, Rtp.ReadWords32, PaddingFits, Unpadded;
    if |b| >= 12 {
      var n := b[0] as int % 16;
      var h, q := 12 + 4 * n, Rtp.HeaderFields(b);
      NumbersAre(b, 2);
      NumbersAre(b, 4);
      NumbersAre(b, 8);
      if q.version == 2 && h <= |b| {
        assert b[12..][4 * n..] == b[h..];
        q := q.(csrcs := Rtp.ReadWords32(b[12..], n));
        SourcesInPlace(b, n);
        ExtensionIsRead(q, b, h);
        if q.extension == 0 {
          TailIsRead(q, b, h);
        } else if h + 4 <= |b| {
          var at := h + 4 + 4 * Num2(b, h + 2);
          if at <= |b| {
            TailIsRead(q.(extProfile := Num2(b, h), extData := b[h + 4..at]), b, at);
          }
        }
      }
    }
  }

  lemma SourcesInPlace(b: Bytes, n: nat)
    requires 12 + 4 * n <= |b|
    ensures forall i :: 0 <= i < n ==> Rtp.ReadWords32(b[12..], n)[i] == Num4(b, 12 + 4 * i)
  {
    hide Num4, Rtp.ReadWords32;
    forall i | 0 <= i < n ensures Rtp.ReadWords32(b[12..], n)[i] == Num4(b, 12 + 4 * i) {
      SourcesAre(b[12..], n, i);
      NumInSlice(b, 12, |b|, 4 * i);
      assert b[12..|b|] == b[12..];
    }
  }

  // ---------------------------------------------------------------------------------------------
  // RTCP (section 6.4 of RFC 3550, section 6.1 of RFC 4585)

  /** Where a packet's report blocks begin, when it has any: after the header, the sender and, in a sender report, its counts. */
  function BlocksAt(kind: int): nat {
    if kind == 200 then 28 else 8
  }

  predicate HasBlocks(kind: int) {
    kind == 200 || kind == 201
  }

  /** Where the part that ends with the padding begins: after the blocks, after the two sources of feedback, or at once. */
  function RtcpPayloadAt(b: Bytes): nat
    requires |b| >= 4
  {
    var kind := b[1] as int;
    if HasBlocks(kind) then BlocksAt(kind) + 24 * (b[0] as int % 32)
    else if kind == 205 || kind == 206 then 12
    else 4
  }

  function RtcpSize(b: Bytes): nat
    requires |b| >= 4
  {
    4 * (Num2(b, 2) + 1)
  }

  predicate RtcpAccepted(b: Bytes) {
    && |b| >= 4 && RtcpSize(b) <= |b|
    && (200 <= b[1] as int <= 206 ==> RtcpPayloadAt(b) <= RtcpSize(b)
                                      && PaddingFits(b, RtcpPayloadAt(b), RtcpSize(b), b[0] as int / 32 % 2 == 1))
  }

  predicate BlockReads(k: Rtcp.Block, b: Bytes, at: nat) {
    && at + 24 <= |b|
    && k.ssrc == Num4(b, at) && k.fraction == b[at + 4] && k.lost == Num3(b, at + 5) && k.highest == Num4(b, at + 8)
    && k.jitter == Num4(b, at + 12) && k.lsr == Num4(b, at + 16) && k.dlsr == Num4(b, at + 20)
  }

  lemma BlockIsRead(r: Bytes)
    requires |r| >= 24
    ensures BlockReads(Rtcp.ReadBlock(r), r, 0)
  {
    NumbersAre(r, 0);
    NumbersAre(r, 4);
    NumbersAre(r, 8);
    NumbersAre(r, 12);
    NumbersAre(r, 16);
    NumbersAre(r, 20);
    hide Get32;
    LostIsThreeBytes(r);
  }

  lemma LostIsThreeBytes(r: Bytes)
    requires |r| >= 8
    ensures Num4(r, 4) / 0x100_0000 == r[4] as int && Num4(r, 4) % 0x100_0000 == Num3(r, 5)
  {
    assert Num4(r, 4) == 0x100_0000 * (r[4] as int) + Num3(r, 5);
  }

  lemma BlockMoves(k: Rtcp.Block, b: Bytes, from: nat, to: nat, at: nat)
    requires from <= to <= |b| && BlockReads(k, b[from..to], at)
    ensures BlockReads(k, b, from + at)
  {
  }

  lemma {:induction false} BlocksAreRead(r: Bytes, n: nat)
    requires 24 * n <= |r|
    ensures |Rtcp.ReadBlocks(r, n)| == n && forall i :: 0 <= i < n ==> BlockReads(Rtcp.ReadBlocks(r, n)[i], r, 24 * i)
  {
    if n > 0 {
      hide Rtcp.ReadBlock, BlockReads;
      BlockIsRead(r);
      BlocksAreRead(r[24..], n - 1);
      var all, more := Rtcp.ReadBlocks(r, n), Rtcp.ReadBlocks(r[24..], n - 1);
      assert all == [Rtcp.ReadBlock(r)] + more && r[24..|r|] == r[24..];
      forall i | 0 <= i < n ensures BlockReads(all[i], r, 24 * i) {
        if i > 0 {
          assert BlockReads(more[i - 1], r[24..], 24 * (i - 1));
          BlockMoves(more[i - 1], r, 24, |r|, 24 * (i - 1));
        }
      }
    }
  }

  lemma RtcpPayloadIsRead(q: Rtcp.Packet, b: Bytes, at: nat, to: nat)
    requires at <= to <= |b|
    ensures Rtcp.ParsePayload(q, b[at..to]) ==
            if PaddingFits(b, at, to, q.padding != 0) then Some(q.(payload := Unpadded(b, at, to, q.padding != 0))) else None
  {
    hide Rtp.StripPadding, PaddingFits, Unpadded;
    PaddingIsStripped(b, at, to, q.padding);
  }

  /** What a parsed packet holds of the fields its kind has. */
  predicate RtcpFields(p: Rtcp.Packet, b: Bytes)
    requires RtcpAccepted(b)
  {
    var kind, at, size := b[1] as int, RtcpPayloadAt(b), RtcpSize(b);
    && p.version as int == b[0] as int / 64 && p.padding as int == b[0] as int / 32 % 2 && p.count as int == b[0] as int % 32 && p.kind == b[1]
    && (HasBlocks(kind) ==> p.ssrc == Num4(b, 4) && |p.blocks| == b[0] as int % 32
                            && forall i :: 0 <= i < |p.blocks| ==> BlockReads(p.blocks[i], b, BlocksAt(kind) + 24 * i))
    && (kind == 200 ==> p.ntpHigh == Num4(b, 8) && p.ntpLow == Num4(b, 12) && p.rtpTime == Num4(b, 16) && p.packets == Num4(b, 20)
                        && p.octets == Num4(b, 24))
    && (kind == 205 || kind == 206 ==> p.mediaSsrc == Num4(b, 8))
    && (200 <= kind <= 206 ==> p.payload == Unpadded(b, at, size, b[0] as int / 32 % 2 == 1))
  }

  lemma RtcpBlocksAreRead(q: Rtcp.Packet, b: Bytes, from: nat, to: nat)
    requires from <= to <= |b|
    ensures var at, r := from + 24 * (q.count as int), Rtcp.ParseBlocks(q, b[from..to]);
            && (r.Some? <==> at <= to && PaddingFits(b, at, to, q.padding != 0))
            && (r.Some? ==>
                  && r.value == q.(blocks := r.value.blocks, payload := Unpadded(b, at, to, q.padding != 0))
                  && |r.value.blocks| == q.count as int
                  && forall i :: 0 <= i < |r.value.blocks| ==> BlockReads(r.value.blocks[i], b, from + 24 * i))
  {
    hide Rtcp.ReadBlocks, Rtcp.ParsePayload, BlockReads, PaddingFits, Unpadded;
    var at, r, n := from + 24 * (q.count as int), b[from..to], q.count as int;
    if at <= to {
      BlocksAreRead(r, n);
      assert r[24 * n..] == b[at..to];
      RtcpPayloadIsRead(q.(blocks := Rtcp.ReadBlocks(r, n)), b, at, to);
      forall i | 0 <= i < n ensures BlockReads(Rtcp.ReadBlocks(r, n)[i], b, from + 24 * i) {
        BlockMoves(Rtcp.ReadBlocks(r, n)[i], b, from, to, 24 * i);
      }
    }
  }

  /** The parser accepts exactly these bytes and reads every field from its place. */
  lemma RtcpIsRead(b: Bytes)
    ensures Rtcp.Parse(b).Some? <==> RtcpAccepted(b)
    ensures Rtcp.Parse(b).Some? ==> RtcpFields(Rtcp.Parse(b).value, b)
  {
    hide Get16, Get32, Num2, Num4, Rtcp.ParseBlocks, Rtcp.ParsePayload, BlockReads, PaddingFits, Unpadded;
    if |b| >= 4 {
      NumbersAre(b, 2);
      var q, kind, size := Rtcp.ReadHeader(b), b[1] as int, RtcpSize(b);
      assert Rtcp.TotalSize(b) == size;
      if size <= |b| {
        var c := b[4..size];
        NumbersInContent(b, size);
        if kind == 200 && size >= 28 {
          assert c[24..] == b[28..size];
          RtcpBlocksAreRead(q.(ssrc := Num4(b, 4), ntpHigh := Num4(b, 8), ntpLow := Num4(b, 12), rtpTime := Num4(b, 16),
                               packets := Num4(b, 20), octets := Num4(b, 24)), b, 28, size);
        } else if kind == 201 && size >= 8 {
          assert c[4..] == b[8..size];
          RtcpBlocksAreRead(q.(ssrc := Num4(b, 4)), b, 8, size);
        } else if (kind == 205 || kind == 206) && size >= 12 {
          assert c[8..] == b[12..size];
          RtcpPayloadIsRead(q.(mediaSsrc := Num4(b, 8)), b, 12, size);
        } else if 202 <= kind <= 204 {
          RtcpPayloadIsRead(q, b, 4, size);
        }
      }
    }
  }

  lemma NumbersInContent(b: Bytes, size: nat)
    requires 4 <= size <= |b|
    ensures forall i :: 0 <= i && 4 + i + 4 <= size ==> Get32(b[4..size], i) == Num4(b, 4 + i)
  {
    hide Get32, Num4;
    forall i | 0 <= i && 4 + i + 4 <= size ensures Get32(b[4..size], i) == Num4(b, 4 + i) {
      NumbersAre(b[4..size], i);
      NumInSlice(b, 4, size, i);
    }
  }

  /** A compound datagram is read up to the first place where no packet is. */
  lemma {:induction false} CompoundIsReadSoFar(ps: seq<Rtcp.Packet>, tail: Bytes)
    requires Rtcp.AllWellFormed(ps) && !RtcpAccepted(tail)
    ensures Rtcp.ParseCompound(Rtcp.Compound(ps) + tail) == ps
    decreases |ps|
  {
    hide Rtcp.ParseCompound, Rtcp.Compound, Rtcp.WellFormed, Rtcp.AllWellFormed, RtcpAccepted, RtcpFields;
    if ps == [] {
      Rtcp.CompoundIs(ps);
      RtcpIsRead(tail);
      assert Rtcp.Compound(ps) + tail == tail;
      NothingToRead(tail);
    } else {
      FirstIsRead(ps, tail);
      CompoundIsReadSoFar(ps[1..], tail);
      assert [ps[0]] + ps[1..] == ps;
    }
  }

  lemma FirstIsRead(ps: seq<Rtcp.Packet>, tail: Bytes)
    requires ps != [] && Rtcp.AllWellFormed(ps)
    ensures Rtcp.AllWellFormed(ps[1..])
    ensures Rtcp.ParseCompound(Rtcp.Compound(ps) + tail) == [ps[0]] + Rtcp.ParseCompound(Rtcp.Compound(ps[1..]) + tail)
  {
    Rtcp.CompoundIs(ps);
    hide Rtcp.Serialize, Rtcp.Parse, Rtcp.TotalSize, Rtcp.Compound, Rtcp.WellFormed, Rtcp.ParseCompound;
    var head, more := Rtcp.Serialize(ps[0]), Rtcp.Compound(ps[1..]) + tail;
    Rtcp.ParseOfSerialize(ps[0], more);
    AtLeastFour(head + more);
    Rtcp.CompoundStep(head + more, ps[0]);
    assert (head + more)[|head|..] == more;
    Assoc(head, Rtcp.Compound(ps[1..]), tail);
  }

  lemma AtLeastFour(b: Bytes)
    ensures Rtcp.Parse(b).Some? ==> |b| >= 4 && Rtcp.TotalSize(b) <= |b|
  {
    hide Rtcp.ParseContent, Rtcp.ReadHeader, Rtcp.TotalSize;
  }

  lemma NothingToRead(b: Bytes)
    requires Rtcp.Parse(b) == None
    ensures Rtcp.ParseCompound(b) == []
  {
    hide Rtcp.Parse, Rtcp.TotalSize;
    if |b| >= 4 && Rtcp.TotalSize(b) <= |b| {
      Rtcp.ParseIgnoresTail(b);
    }
  }

  /** What every feedback packet begins with: version 2, padding bit and format, type 205, length, the two sources. */
  lemma FeedbackIsWritten(padding: U8, format: U8, words: U16, sender: U32, media: U32, fci: Bytes)
    requires padding < 2 && format < 32
    ensures var b := Rtcp.Feedback(padding, format, words, sender, media, fci);
            && b[0] as int == 128 + 32 * padding as int + format as int && b[1] == 205 && Num2(b, 2) == words
            && Num4(b, 4) == sender && Num4(b, 8) == media && b[12..] == fci
  {
    hide Be16, Be32, Num2, Num4, Get16, Get32;
    var b := Rtcp.Feedback(padding, format, words, sender, media, fci);
    assert b[2..4] == Be16(words) && b[4..8] == Be32(sender) && b[8..12] == Be32(media);
    Get16Reads(b, 2, words);
    Get32Reads(b, 4, sender);
    Get32Reads(b, 8, media);
    NumbersAre(b, 2);
    NumbersAre(b, 4);
    NumbersAre(b, 8);
  }

  /** Bit `k` of a mask, counted from its lowest. */
  predicate BitOf(mask: nat, k: nat) {
    if k == 0 then mask % 2 == 1 else BitOf(mask / 2, k - 1)
  }

  /** The packet `k + 1` after one that comes `i` after packet `pid`, for every bit `k` of a mask. */
  predicate MaskAsks(pid: U16, mask: nat, i: nat, x: U16) {
    exists k :: 0 <= k < 16 - i && BitOf(mask, k) && x as int == (pid as int + i + k + 1) % 0x1_0000
  }

  /** The numbers one item of a NACK asks for: its packet id, and that of the packet `k + 1` later for every bit `k` of its mask
      (section 6.2.1 of RFC 4585). */
  predicate ItemAsks(pid: U16, mask: U16, x: U16) {
    x == pid || MaskAsks(pid, mask, 0, x)
  }

  lemma MaskStep(pid: U16, mask: nat, i: nat, x: U16)
    requires i < 16
    ensures MaskAsks(pid, mask, i, x) <==>
            (mask % 2 == 1 && x as int == (pid as int + i + 1) % 0x1_0000) || MaskAsks(pid, mask / 2, i + 1, x)
  {
    if MaskAsks(pid, mask, i, x) {
      var k :| 0 <= k < 16 - i && BitOf(mask, k) && x as int == (pid as int + i + k + 1) % 0x1_0000;
      if k > 0 {
        var j := k - 1;
        assert BitOf(mask / 2, j) && pid as int + (i + 1) + j + 1 == pid as int + i + k + 1;
      }
    }
    if MaskAsks(pid, mask / 2, i + 1, x) {
      var k :| 0 <= k < 16 - (i + 1) && BitOf(mask / 2, k) && x as int == (pid as int + (i + 1) + k + 1) % 0x1_0000;
      var j := k + 1;
      assert BitOf(mask, j) && pid as int + i + j + 1 == pid as int + (i + 1) + k + 1;
    }
    if mask % 2 == 1 && x as int == (pid as int + i + 1) % 0x1_0000 {
      assert BitOf(mask, 0) && pid as int + i + 0 + 1 == pid as int + i + 1;
    }
  }

  lemma {:induction false} FlaggedAre(pid: U16, mask: U16, i: nat, x: U16)
    requires i <= 16
    ensures x in Rtcp.Flagged(pid, mask, i) <==> MaskAsks(pid, mask, i, x)
    decreases 16 - i
  {
    if i < 16 {
      MaskStep(pid, mask, i, x);
      BitNumberIs(pid, i);
      hide MaskAsks, Rtcp.BitNumber;
      FlaggedAre(pid, mask / 2, i + 1, x);
    }
  }

  lemma BitNumberIs(pid: U16, i: nat)
    ensures Rtcp.BitNumber(pid, i) as int == (pid as int + i + 1) % 0x1_0000
  {
  }

  predicate NackAsks(b: Bytes, x: U16) {
    exists i :: 0 <= i < |b| / 4 && ItemAsks(Num2(b, 4 * i), Num2(b, 4 * i + 2), x)
  }

  lemma NackStep(b: Bytes, x: U16)
    requires |b| >= 4
    ensures NackAsks(b, x) <==> ItemAsks(Num2(b, 0), Num2(b, 2), x) || NackAsks(b[4..], x)
  {
    hide Num2, ItemAsks;
    assert b[4..|b|] == b[4..];
    forall i | 0 <= i < |b[4..]| / 4
      ensures Num2(b[4..], 4 * i) == Num2(b, 4 * (i + 1)) && Num2(b[4..], 4 * i + 2) == Num2(b, 4 * (i + 1) + 2)
    {
      NumInSlice(b, 4, |b|, 4 * i);
      NumInSlice(b, 4, |b|, 4 * i + 2);
    }
    if NackAsks(b, x) {
      var i :| 0 <= i < |b| / 4 && ItemAsks(Num2(b, 4 * i), Num2(b, 4 * i + 2), x);
      if i > 0 {
        var j := i - 1;
        assert 0 <= j < |b[4..]| / 4 && Num2(b[4..], 4 * j) == Num2(b, 4 * (j + 1));
      }
    }
    if NackAsks(b[4..], x) {
      var i :| 0 <= i < |b[4..]| / 4 && ItemAsks(Num2(b[4..], 4 * i), Num2(b[4..], 4 * i + 2), x);
      var j := i + 1;
      assert 0 <= j < |b| / 4 && ItemAsks(Num2(b, 4 * j), Num2(b, 4 * j + 2), x);
    }
    if ItemAsks(Num2(b, 0), Num2(b, 2), x) {
      var j := 0;
      assert 0 <= j < |b| / 4 && ItemAsks(Num2(b, 4 * j), Num2(b, 4 * j + 2), x);
    }
  }

  /** A NACK asks for exactly the numbers its items ask for. */
  lemma {:induction false} NackIsRead(b: Bytes, x: U16)
    ensures x in Rtcp.ParseNack(b) <==> NackAsks(b, x)
    decreases |b|
  {
    hide Rtcp.Flagged, Get16, Num2;
    if |b| >= 4 {
      NackStep(b, x);
      NumbersAre(b, 0);
      NumbersAre(b, 2);
      FlaggedAre(Num2(b, 0), Num2(b, 2), 0, x);
      hide NackAsks, MaskAsks;
      NackIsRead(b[4..], x);
    }
  }

  // ---------------------------------------------------------------------------------------------
  // Retransmissions (section 4 of RFC 4588)

  /** A repair packet: plain header, the repair stream's type, number and source, the original's timestamp, then the original
      number and the original payload. */
  lemma RtxIsWritten(ids: Retransmission.Ids, e: Retransmission.Entry, rtxNum: U16)
    ensures var b := Retransmission.RtxBytes(ids, e, rtxNum);
            && |b| == 14 + |e.payload| && b[0] == 0x80 && b[1] == ids.rtxPt && Num2(b, 2) == rtxNum
            && Num4(b, 4) == e.timestamp && Num4(b, 8) == ids.rtxSsrc && Num2(b, 12) == e.num && b[14..] == e.payload
  {
    hide Be16, Be32, Num2, Num4, Get16, Get32;
    var b := Retransmission.RtxBytes(ids, e, rtxNum);
    assert b[2..4] == Be16(rtxNum) && b[4..8] == Be32(e.timestamp) && b[8..12] == Be32(ids.rtxSsrc) && b[12..14] == Be16(e.num);
    Get16Reads(b, 2, rtxNum);
    Get32Reads(b, 4, e.timestamp);
    Get32Reads(b, 8, ids.rtxSsrc);
    Get16Reads(b, 12, e.num);
    NumbersAre(b, 2);
    NumbersAre(b, 4);
    NumbersAre(b, 8);
    NumbersAre(b, 12);
  }

  /** A packet is rewritten exactly when both maps know it and it holds more than a number; then it takes the mapped type and
      source, the number it carries, and the payload behind that. */
  lemma RewritingIs(p: Rtp.Packet, pts: map<U8, U8>, ssrcs: map<U32, U32>)
    ensures var q := Retransmission.Rewrite(p, pts, ssrcs);
            && q == p.(payloadType := q.payloadType, ssrc := q.ssrc, seqNo := q.seqNo, payload := q.payload)
            && if |p.payload| > 2 && p.payloadType in pts && p.ssrc in ssrcs
               then q.payloadType == pts[p.payloadType] && q.ssrc == ssrcs[p.ssrc] && q.seqNo == Num2(p.payload, 0) && q.payload == p.payload[2..]
               else q == p
  {
    NumbersAre(p.payload, 0);
  }

  // ---------------------------------------------------------------------------------------------
  // Header extension elements (section 4.2 of RFC 8285)

  /** An element: id and length less one in one byte, then its data. */
  lemma ElementIsRead(id: nat, data: Bytes, rest: Bytes)
    requires id < 16 && 1 <= |data| <= 16
    ensures RtpExtension.Elements([16 * id + |data| - 1] + data + rest) ==
            [RtpExtension.Element(id, data)] + RtpExtension.Elements(rest)
  {
    var b := [16 * id + |data| - 1] + data + rest;
    assert b[0] as int / 16 == id && b[0] as int % 16 == |data| - 1;
    assert b[1..1 + |data|] == data && b[1 + |data|..] == rest;
  }

  /** An element whose data would end beyond the block ends the list. */
  lemma CutElementEnds(b: Bytes)
    requires b != [] ==> |b| < b[0] as int % 16 + 2
    ensures RtpExtension.Elements(b) == []
  {
  }

  /** The header byte the sender makes: the length less one below, and above it the id, or-ed with what the length has too much. */
  lemma HeaderByteIsOred(id: nat, size: nat)
    requires id < 16 && size > 0
    ensures var h, over := RtpExtension.HeaderByte(id, size) as int, (size - 1) / 16 % 16;
            h % 16 == (size - 1) % 16 && IsOr(h / 16, id, over)
  {
    hide RtpExtension.OrNibble, IsOr;
    OrNibbleIsOr(id, (size - 1) / 16 % 16);
  }

  /** Bit by bit for four bits: `o` has those that `a` or `b` has. */
  predicate IsOr(o: nat, a: nat, b: nat) {
    && (o % 2 == 1 <==> a % 2 == 1 || b % 2 == 1)
    && (o / 2 % 2 == 1 <==> a / 2 % 2 == 1 || b / 2 % 2 == 1)
    && (o / 4 % 2 == 1 <==> a / 4 % 2 == 1 || b / 4 % 2 == 1)
    && (o / 8 % 2 == 1 <==> a / 8 % 2 == 1 || b / 8 % 2 == 1)
  }

  lemma OrNibbleIsOr(a: nat, b: nat)
    ensures IsOr(RtpExtension.OrNibble(a, b), a, b)
  {
    FourBits(Max(a / 8 % 2, b / 8 % 2), Max(a / 4 % 2, b / 4 % 2), Max(a / 2 % 2, b / 2 % 2), Max(a % 2, b % 2));
  }

  lemma FourBits(x: nat, y: nat, z: nat, w: nat)
    requires x < 2 && y < 2 && z < 2 && w < 2
    ensures var n := 8 * x + 4 * y + 2 * z + w; n % 2 == w && n / 2 % 2 == z && n / 4 % 2 == y && n / 8 % 2 == x
  {
  }

  /** What one of the extensions a sender has negotiated puts into the block. */
  predicate IsSent(s: RtpExtension.SendInfo, e: RtpExtension.Element) {
    || (1 <= s.midId <= 14 && e == RtpExtension.Element(s.midId, [s.mid]))
    || (1 <= s.ridId <= 14 && s.rid != [] && e == RtpExtension.Element(s.ridId, s.rid))
    || (s.video && 1 <= s.absId <= 14
        && e == RtpExtension.Element(s.absId, [s.abs / 65536, s.abs / 256 % 256, s.abs % 256]))
    || (1 <= s.tccId <= 14 && e == RtpExtension.Element(s.tccId, [s.tcc as int / 256, s.tcc as int % 256]))
  }

  /** With a stream id of at most 16 bytes a receiver finds in the block all that was to be sent, and else only padding. */
  lemma SentIsFound(s: RtpExtension.SendInfo, e: RtpExtension.Element)
    requires |s.rid| <= 16
    ensures e in RtpExtension.Elements(RtpExtension.SentBlock(s)) && e.id != 0 <==> IsSent(s, e)
  {
    hide RtpExtension.Elements, RtpExtension.SentBlock, RtpExtension.Raw;
    RtpExtension.SentBlockReadsIff(s);
  }

  // ---------------------------------------------------------------------------------------------
  // Payload descriptors (section 4.2 of RFC 7741)

  predicate Set(b: U8, weight: nat)
    requires weight > 0
  {
    b as int / weight % 2 == 1
  }

  /** Where the fields behind the flags are: the picture id of one byte or two, the layer index, the byte shared by layer and key
      index, and the end. */
  datatype Places = Places(wide: bool, tl0: nat, shared: nat, end: nat)

  function PlacesOf(b: Bytes): Places
    requires |b| >= 2
  {
    var wide := Set(b[1], 0x80) && |b| > 2 && b[2] >= 0x80;
    var tl0 := 2 + if !Set(b[1], 0x80) then 0 else if wide then 2 else 1;
    var shared := tl0 + if Set(b[1], 0x40) then 1 else 0;
    Places(wide, tl0, shared, shared + if Set(b[1], 0x20) || Set(b[1], 0x10) then 1 else 0)
  }

  /** A descriptor without the first bit is one byte; another takes what its flags announce, and none of it when it is cut. */
  lemma DescriptorIsRead(b: Bytes)
    requires b != []
    ensures var (d, n) := Vpx.ParseDescriptor(b);
            && (d.start <==> Set(b[0], 16)) && d.partition as int == b[0] as int % 16
            && (!Set(b[0], 0x80) ==> n == 1 && d == Vpx.Descriptor(d.start, d.partition, None, None, None, None))
            && (Set(b[0], 0x80) && |b| == 1 ==> n == 0)
            && (Set(b[0], 0x80) && |b| > 1 ==>
                  var at := PlacesOf(b);
                  if |b| < at.end then n == 0
                  else
                    && n == at.end
                    && d.picture == (if !Set(b[1], 0x80) then None else if at.wide then Some(Num2(b, 2) - 0x8000) else Some(b[2]))
                    && d.tl0 == (if Set(b[1], 0x40) then Some(b[at.tl0]) else None)
                    && d.tid == (if Set(b[1], 0x20) then Some((b[at.shared] / 64, b[at.shared] / 32 % 2)) else None)
                    && d.key == (if Set(b[1], 0x10) then Some(b[at.shared] % 32) else None))
  {
    hide Get16, Num2;
    if |b| > 2 {
      NumbersAre(b, 2);
      HighBit(b[2]);
    }
    SetIsBit();
    hide Set, Vpx.Bit;
  }

  lemma SetIsBit()
    ensures forall b: U8, w: nat :: w > 0 ==> Vpx.Bit(b, w) == Set(b, w)
  {
  }

  lemma HighBit(x: U8)
    ensures Vpx.Bit(x, 0x80) <==> x >= 0x80
  {
  }

  // ---------------------------------------------------------------------------------------------
  // Transport-wide feedback

  lemma {:induction false} OneBitSymbols(v: nat, n: nat, k: nat)
    requires k < n
    ensures TransportCcWire.UnpackedBits(v, n)[k] == if BitOf(v, n - 1 - k) then 1 else 0
  {
    if k < n - 1 {
      OneBitSymbols(v / 2, n - 1, k);
    }
  }

  lemma TwoBitSymbols(v: nat)
    ensures TransportCcWire.Unpacked(v, 7) == [v / 4096 % 4, v / 1024 % 4, v / 256 % 4, v / 64 % 4, v / 16 % 4, v / 4 % 4, v % 4]
  {
    FourTwoBitSymbols(v / 64);
    var x := v / 4 / 4;
    assert v / 16 == x && v / 64 == x / 4 && v / 256 == v / 64 / 4 && v / 1024 == v / 64 / 16 && v / 4096 == v / 64 / 64;
    assert TransportCcWire.Unpacked(x, 5) == TransportCcWire.Unpacked(x / 4, 4) + [x % 4];
    assert TransportCcWire.Unpacked(v / 4, 6) == TransportCcWire.Unpacked(x, 5) + [v / 4 % 4];
  }

  lemma FourTwoBitSymbols(w: nat)
    ensures TransportCcWire.Unpacked(w, 4) == [w / 64 % 4, w / 16 % 4, w / 4 % 4, w % 4]
  {
    var x := w / 4 / 4;
    assert w / 16 == x && w / 64 == x / 4;
    assert TransportCcWire.Unpacked(x / 4, 1) == TransportCcWire.Unpacked(x / 4 / 4, 0) + [x / 4 % 4] == [x / 4 % 4];
    assert TransportCcWire.Unpacked(x, 2) == TransportCcWire.Unpacked(x / 4, 1) + [x % 4];
    assert TransportCcWire.Unpacked(w / 4, 3) == TransportCcWire.Unpacked(x, 2) + [w / 4 % 4];
  }

  /** A chunk: a run of one symbol, fourteen one-bit symbols, or seven two-bit symbols, the first in the highest place. */
  lemma ChunkIsRead(v: U16)
    ensures var ss, n, w := TransportCcWire.ChunkSymbols(v), v as int, v as int % 0x4000;
            && (n < 0x8000 ==> |ss| == n % 0x2000 && forall k :: 0 <= k < |ss| ==> ss[k] == n / 0x2000)
            && (0x8000 <= n < 0xC000 ==> |ss| == 14 && forall k :: 0 <= k < 14 ==> ss[k] == if BitOf(w, 13 - k) then 1 else 0)
            && (0xC000 <= n ==> ss == [w / 4096 % 4, w / 1024 % 4, w / 256 % 4, w / 64 % 4, w / 16 % 4, w / 4 % 4, w % 4])
  {
    hide TransportCcWire.Unpacked, TransportCcWire.UnpackedBits, BitOf;
    var w := v as int % 0x4000;
    TwoBitSymbols(w);
    forall k | 0 <= k < 14 ensures TransportCcWire.UnpackedBits(w, 14)[k] == if BitOf(w, 13 - k) then 1 else 0 {
      OneBitSymbols(w, 14, k);
    }
  }

  lemma {:induction false} SymbolsAreCounted(b: Bytes, n: nat)
    ensures var r := TransportCcWire.ReadSymbols(b, n); r.Some? ==> |r.value.0| == n
    decreases |b|
  {
    hide Get16, TransportCcWire.ChunkSymbols;
    if n > 0 && |b| >= 2 {
      var ss := TransportCcWire.ChunkSymbols(Get16(b, 0));
      SymbolsAreCounted(b[2..], n - Min(n, |ss|));
    }
  }

  lemma {:induction false} ItemsAreCounted(ss: seq<nat>, b: Bytes)
    ensures var r := TransportCcWire.ReadDeltas(ss, b); r.Some? ==> |r.value| == |ss|
    decreases |ss|
  {
    hide Get16;
    if ss != [] && !((ss[0] == 1 && |b| < 1) || (ss[0] == 2 && |b| < 2)) {
      ItemsAreCounted(ss[1..], b[if ss[0] == 1 then 1 else if ss[0] == 2 then 2 else 0..]);
    }
  }

  /** What a reader takes from the control information, and from where. */
  lemma ControlInfoIsRead(b: Bytes)
    ensures var d := TransportCcWire.ReadControlInfo(b);
            d.Some? ==> && |b| >= 8 && d.value.base == Num2(b, 0) && |d.value.items| == Num2(b, 2)
                        && d.value.refTime == Num3(b, 4) && d.value.fbCount == b[7]
  {
    hide Get16, Get32, TransportCcWire.ReadSymbols, TransportCcWire.ReadDeltas;
    if |b| >= 8 {
      NumbersAre(b, 0);
      NumbersAre(b, 2);
      NumbersAre(b, 4);
      assert Num4(b, 4) == 0x100 * Num3(b, 4) + b[7] as int;
      SymbolsAreCounted(b[8..], Get16(b, 2));
      var r := TransportCcWire.ReadSymbols(b[8..], Get16(b, 2));
      if r.Some? {
        ItemsAreCounted(r.value.0, r.value.1);
      }
    }
  }
}
