/** VP8/VP9 over RTP: the payload descriptor (section 4.2 of RFC 7741), the packetizer, and the receiver's short
    form that only skips the descriptor. */
module Vpx {
  import opened Words

  const PACKET_MAX := 1200

  datatype Descriptor = Descriptor(start: bool, partition: U8, picture: Option<U16>, tl0: Option<U8>,
                                   tid: Option<(U8, U8)>, key: Option<U8>)

  /** The values the descriptor has room for. */
  predicate InRange(d: Descriptor) {
    && d.partition < 16
    && (d.picture.Some? ==> d.picture.value < 0x8000)
    && (d.tid.Some? ==> d.tid.value.0 < 4 && d.tid.value.1 < 2)
    && (d.key.Some? ==> d.key.value < 32)
  }

  // ---------------------------------------------------------------------------------------------
  // Writing

  function Flag(o: bool, weight: U8): U8 {
    if o then weight else 0
  }

  predicate HasExtension(d: Descriptor) {
    d.picture.Some? || d.tl0.Some? || d.tid.Some? || d.key.Some?
  }

  function PictureBytes(p: Option<U16>): Bytes
    requires p.Some? ==> p.value < 0x8000
  {
    match p
    case None => []
    case Some(v) => if v < 128 then [v] else Be16(0x8000 + v)
  }

  function TidKeyBytes(d: Descriptor): Bytes
    requires InRange(d)
  {
    if d.tid == None && d.key == None then []
    else
      var t := if d.tid.Some? then d.tid.value.0 * 64 + d.tid.value.1 * 32 else 0;
      [t + if d.key.Some? then d.key.value else 0]
  }

  function Tl0Bytes(d: Descriptor): Bytes {
    if d.tl0.Some? then [d.tl0.value] else []
  }

  function ExtensionFlags(d: Descriptor): U8 {
    Flag(d.picture.Some?, 0x80) + Flag(d.tl0.Some?, 0x40) + Flag(d.tid.Some?, 0x20) + Flag(d.key.Some?, 0x10)
  }

  function DescriptorBytes(d: Descriptor): (b: Bytes)
    requires InRange(d)
    ensures 1 <= |b| <= 6
  {
    var octet := Flag(d.start, 16) + d.partition;
    if !HasExtension(d) then [octet]
    else [0x80 + octet, ExtensionFlags(d)] + (PictureBytes(d.picture) + (Tl0Bytes(d) + TidKeyBytes(d)))
  }

  // ---------------------------------------------------------------------------------------------
  // Parsing

  /** `bit` is the weight of one bit of `b`. */
  predicate Bit(b: U8, bit: int)
    requires bit > 0
  {
    b / bit % 2 == 1
  }

  /** The parser's early returns leave the fields read so far and report that nothing was consumed. */
  function ParseTidKey(d: Descriptor, b: Bytes, pos: nat, ext: U8): (Descriptor, nat) {
    if !Bit(ext, 0x20) && !Bit(ext, 0x10) then (d, pos)
    else if |b| < pos + 1 then (d, 0)
    else
      var tk := b[pos];
      (d.(tid := if Bit(ext, 0x20) then Some((tk / 64 % 4, tk / 32 % 2)) else None,
          key := if Bit(ext, 0x10) then Some(tk % 32) else None), pos + 1)
  }

  function ParseTl0(d: Descriptor, b: Bytes, pos: nat, ext: U8): (Descriptor, nat) {
    if !Bit(ext, 0x40) then ParseTidKey(d, b, pos, ext)
    else if |b| < pos + 1 then (d, 0)
    else ParseTidKey(d.(tl0 := Some(b[pos])), b, pos + 1, ext)
  }

  function ParsePicture(d: Descriptor, b: Bytes, pos: nat, ext: U8): (Descriptor, nat) {
    if !Bit(ext, 0x80) then ParseTl0(d, b, pos, ext)
    else if |b| < pos + 1 then (d, 0)
    else if !Bit(b[pos], 0x80) then ParseTl0(d.(picture := Some(b[pos])), b, pos + 1, ext)
    else if |b| < pos + 2 then (d, 0)
    else ParseTl0(d.(picture := Some(Get16(b, pos) - 0x8000)), b, pos + 2, ext)
  }

  /** The descriptor at the start of `b` and the number of bytes it takes, 0 when it is cut short. */
  function ParseDescriptor(b: Bytes): (Descriptor, nat) {
    var none := Descriptor(false, 0, None, None, None, None);
    if b == [] then (none, 0)
    else
      var d := none.(start := Bit(b[0], 16), partition := b[0] % 16);
      if !Bit(b[0], 0x80) then (d, 1)
      else if |b| < 2 then (d, 0)
      else ParsePicture(d, b, 2, b[1])
  }

  lemma FlagBits(p: bool, t: bool, i: bool, k: bool)
    ensures var e := Flag(p, 0x80) + Flag(t, 0x40) + Flag(i, 0x20) + Flag(k, 0x10);
            Bit(e, 0x80) == p && Bit(e, 0x40) == t && Bit(e, 0x20) == i && Bit(e, 0x10) == k
  {
  }

  lemma TidKeyRoundTrip(d: Descriptor, q: Descriptor, b: Bytes, pos: nat, ext: U8)
    requires InRange(d) && pos <= |b| && TidKeyBytes(d) <= b[pos..]
    requires Bit(ext, 0x20) == d.tid.Some? && Bit(ext, 0x10) == d.key.Some?
    requires q == d.(tid := None, key := None)
    ensures ParseTidKey(q, b, pos, ext) == (d, pos + |TidKeyBytes(d)|)
  {
    if d.tid.Some? || d.key.Some? {
      assert b[pos] == b[pos..][0] == TidKeyBytes(d)[0];
    }
  }

  lemma Tl0RoundTrip(d: Descriptor, q: Descriptor, b: Bytes, pos: nat, ext: U8)
    requires InRange(d) && pos <= |b| && Tl0Bytes(d) + TidKeyBytes(d) <= b[pos..]
    requires Bit(ext, 0x40) == d.tl0.Some? && Bit(ext, 0x20) == d.tid.Some? && Bit(ext, 0x10) == d.key.Some?
    requires q == d.(tl0 := None, tid := None, key := None)
    ensures ParseTl0(q, b, pos, ext) == (d, pos + |Tl0Bytes(d)| + |TidKeyBytes(d)|)
  {
    hide TidKeyBytes, ParseTidKey;
    var n := |Tl0Bytes(d)|;
    PrefixDrop(Tl0Bytes(d), TidKeyBytes(d), b[pos..]);
    DropDrop(b, pos, n);
    if d.tl0.Some? {
      assert b[pos] == b[pos..][0] == (Tl0Bytes(d) + TidKeyBytes(d))[0];
    }
    TidKeyRoundTrip(d, d.(tid := None, key := None), b, pos + n, ext);
  }

  lemma PrefixDrop(x: Bytes, y: Bytes, b: Bytes)
    requires x + y <= b
    ensures x <= b && y <= b[|x|..]
  {
    assert b[..|x|] == (x + y)[..|x|] == x;
    assert b[|x|..|x| + |y|] == (x + y)[|x|..] == y;
  }

  lemma PictureRoundTrip(d: Descriptor, q: Descriptor, b: Bytes, pos: nat, ext: U8)
    requires InRange(d) && pos <= |b| && PictureBytes(d.picture) + (Tl0Bytes(d) + TidKeyBytes(d)) <= b[pos..]
    requires Bit(ext, 0x80) == d.picture.Some? && Bit(ext, 0x40) == d.tl0.Some?
    requires Bit(ext, 0x20) == d.tid.Some? && Bit(ext, 0x10) == d.key.Some?
    requires q == Descriptor(d.start, d.partition, None, None, None, None)
    ensures ParsePicture(q, b, pos, ext) == (d, pos + |PictureBytes(d.picture)| + |Tl0Bytes(d)| + |TidKeyBytes(d)|)
  {
    hide TidKeyBytes, Tl0Bytes, PictureBytes, ParseTl0, Bit, Get16;
    var pic := PictureBytes(d.picture);
    PrefixDrop(pic, Tl0Bytes(d) + TidKeyBytes(d), b[pos..]);
    DropDrop(b, pos, |pic|);
    Tl0RoundTrip(d, d.(tl0 := None, tid := None, key := None), b, pos + |pic|, ext);
    if d.picture.Some? {
      PictureReads(d.picture.value, b, pos);
    } else {
      NoPicture();
    }
  }

  lemma NoPicture()
    ensures PictureBytes(None) == []
  {
  }

  /** How the parser tells the one-byte form from the two-byte form. */
  lemma PictureReads(v: U16, b: Bytes, pos: nat)
    requires v < 0x8000 && pos <= |b| && PictureBytes(Some(v)) <= b[pos..]
    ensures var n := |PictureBytes(Some(v))|;
            && pos + n <= |b| && n == (if v < 128 then 1 else 2) && (Bit(b[pos], 0x80) <==> v >= 128)
            && if v < 128 then b[pos] == v else Get16(b, pos) == 0x8000 + v
  {
    hide Bit, Get16, Be16;
    var pic := PictureBytes(Some(v));
    PictureBits(v);
    assert b[pos] == b[pos..][0] == pic[0];
    if v >= 128 {
      assert b[pos..pos + 2] == b[pos..][..2] == pic;
      Get16Reads(b, pos, 0x8000 + v);
    }
  }

  /** Parsing the bytes of an in-range descriptor, whatever follows them, gives it back and consumes just them. */
  lemma DescriptorRoundTrip(d: Descriptor, rest: Bytes)
    requires InRange(d)
    ensures ParseDescriptor(DescriptorBytes(d) + rest) == (d, |DescriptorBytes(d)|)
  {
    var b := DescriptorBytes(d) + rest;
    OctetBits(d.start, d.partition, HasExtension(d));
    if HasExtension(d) {
      hide PictureBytes, TidKeyBytes, Tl0Bytes, ParsePicture, Flag, Bit;
      FlagBits(d.picture.Some?, d.tl0.Some?, d.tid.Some?, d.key.Some?);
      var tail := PictureBytes(d.picture) + (Tl0Bytes(d) + TidKeyBytes(d));
      Assoc([0x80 + Flag(d.start, 16) + d.partition, ExtensionFlags(d)], tail, rest);
      DropTwo(0x80 + Flag(d.start, 16) + d.partition, ExtensionFlags(d), tail, rest, b);
      PictureRoundTrip(d, Descriptor(d.start, d.partition, None, None, None, None), b, 2, b[1]);
    }
  }

  lemma DropTwo(x: U8, y: U8, tail: Bytes, rest: Bytes, b: Bytes)
    requires b == [x, y] + (tail + rest)
    ensures b[0] == x && b[1] == y && tail <= b[2..]
  {
    assert b[2..] == tail + rest;
  }

  lemma OctetBits(start: bool, partition: U8, extended: bool)
    requires partition < 16
    ensures var o := Flag(extended, 0x80) + Flag(start, 16) + partition;
            Bit(o, 0x80) == extended && Bit(o, 16) == start && o % 16 == partition
    ensures Flag(true, 0x80) == 0x80
  {
  }

  lemma PictureBits(v: U16)
    requires v < 0x8000
    ensures Bit(PictureBytes(Some(v))[0], 0x80) <==> v >= 128
  {
  }

  // ---------------------------------------------------------------------------------------------
  // The short form

  /** How many bytes the receiver skips. */
  function SkipLength(b: Bytes): nat
    requires b != []
  {
    if !Bit(b[0], 0x80) || |b| <= 1 then 1
    else
      var ext := b[1];
      var p1 := if Bit(ext, 0x80) && |b| > 2 then if Bit(b[2], 0x80) then 4 else 3 else 2;
      var p2 := if Bit(ext, 0x40) && |b| > p1 then p1 + 1 else p1;
      if (Bit(ext, 0x20) || Bit(ext, 0x10)) && |b| > p2 then p2 + 1 else p2
  }

  function Depayload(b: Bytes): Bytes {
    if b == [] || SkipLength(b) > |b| then b else b[SkipLength(b)..]
  }

  /** Whenever the descriptor is complete, the short form strips exactly it. */
  lemma ShortFormAgrees(b: Bytes)
    requires ParseDescriptor(b).1 > 0
    ensures ParseDescriptor(b).1 == SkipLength(b) <= |b| && Depayload(b) == b[ParseDescriptor(b).1..]
  {
    hide Bit;
  }

  /** On a descriptor that is cut short the short form still strips, and drops every byte there is or none. */
  lemma ShortFormOnTruncated(b: Bytes)
    requires ParseDescriptor(b).1 == 0
    ensures Depayload(b) == [] || Depayload(b) == b
  {
    hide Bit;
  }

  // ---------------------------------------------------------------------------------------------
  // The code that advances through the bytes

  method ReadDescriptor(b: Bytes) returns (d: Descriptor, consumed: nat)
    ensures (d, consumed) == ParseDescriptor(b)
  {
    hide Bit, ParseTidKey;
    d, consumed := Descriptor(false, 0, None, None, None, None), 0;
    if b == [] {
      return;
    }
    d := d.(start := Bit(b[0], 16), partition := b[0] % 16);
    var pos := 1;
    if Bit(b[0], 0x80) {
      if |b| < pos + 1 {
        return;
      }
      var ext := b[pos];
      pos := pos + 1;
      if Bit(ext, 0x80) {
        if |b| < pos + 1 {
          return;
        }
        if Bit(b[pos], 0x80) {
          if |b| < pos + 2 {
            return;
          }
          BitMeansHigh(b[pos]);
          d := d.(picture := Some(Get16(b, pos) - 0x8000));
          pos := pos + 2;
        } else {
          d := d.(picture := Some(b[pos]));
          pos := pos + 1;
        }
      }
      if Bit(ext, 0x40) {
        if |b| < pos + 1 {
          return;
        }
        d := d.(tl0 := Some(b[pos]));
        pos := pos + 1;
      }
      d, consumed := ReadTidKey(d, b, pos, ext);
      return;
    }
    consumed := pos;
  }

  lemma BitMeansHigh(x: U8)
    ensures Bit(x, 0x80) ==> x >= 0x80
  {
  }

  method ReadTidKey(e: Descriptor, b: Bytes, at: nat, ext: U8) returns (d: Descriptor, consumed: nat)
    requires e.tid == None && e.key == None
    ensures (d, consumed) == ParseTidKey(e, b, at, ext)
  {
    hide Bit;
    d, consumed := e, 0;
    var pos := at;
    if Bit(ext, 0x20) || Bit(ext, 0x10) {
      if |b| < pos + 1 {
        return;
      }
      var tk := b[pos];
      pos := pos + 1;
      if Bit(ext, 0x20) {
        d := d.(tid := Some((tk / 64 % 4, tk / 32 % 2)));
      }
      if Bit(ext, 0x10) {
        d := d.(key := Some(tk % 32));
      }
    }
    consumed := pos;
  }

  // ---------------------------------------------------------------------------------------------
  // The packetizer

  function FrameDescriptor(start: bool, picture: U16): Descriptor {
    Descriptor(start, 0, Some(picture), None, None, None)
  }

  /** The payloads for the frame from offset `off` on; only the one at offset 0 starts the partition. */
  function Chunks(data: Bytes, off: nat, picture: U16): seq<Bytes>
    requires picture < 0x8000
    decreases |data| - off
  {
    if off >= |data| then []
    else
      var d := DescriptorBytes(FrameDescriptor(off == 0, picture));
      var size := Min(|data| - off, PACKET_MAX - |d|);
      [d + data[off..off + size]] + Chunks(data, off + size, picture)
  }

  class Packetizer {
    var pictureId: U16

    constructor (random: nat)
      ensures pictureId == random % 0x8000
    {
      pictureId := random % 0x8000;
    }

    method Pack(data: Bytes) returns (payloads: seq<Bytes>)
      requires pictureId < 0x8000
      modifies this
      ensures payloads == Chunks(data, 0, old(pictureId))
      ensures pictureId == (old(pictureId) + 1) % 0x8000 < 0x8000
    {
      hide DescriptorBytes;
      payloads := [];
      var off, start := 0, true;
      while off < |data|
        invariant off <= |data| && pictureId == old(pictureId) && start == (off == 0)
        invariant payloads + Chunks(data, off, pictureId) == Chunks(data, 0, pictureId)
      {
        var d := DescriptorBytes(FrameDescriptor(start, pictureId));
        var size := Min(|data| - off, PACKET_MAX - |d|);
        Assoc(payloads, [d + data[off..off + size]], Chunks(data, off + size, pictureId));
        payloads := payloads + [d + data[off..off + size]];
        start := false;
        off := off + size;
      }
      assert payloads + [] == payloads;
      pictureId := (pictureId + 1) % 0x8000;
    }
  }

  function Stripped(ps: seq<Bytes>): seq<Bytes> {
    if ps == [] then [] else [Depayload(ps[0])] + Stripped(ps[1..])
  }

  function Concat(bs: seq<Bytes>): Bytes {
    if bs == [] then [] else bs[0] + Concat(bs[1..])
  }

  lemma StripDescriptor(d: Descriptor, rest: Bytes)
    requires InRange(d)
    ensures Depayload(DescriptorBytes(d) + rest) == rest
  {
    hide DescriptorBytes, ParseDescriptor, Depayload, SkipLength;
    DescriptorRoundTrip(d, rest);
    ShortFormAgrees(DescriptorBytes(d) + rest);
  }

  /** Stripping the payloads of a frame and concatenating the rest gives the frame back, for every picture id. */
  lemma {:induction false} FrameRoundTrip(data: Bytes, off: nat, picture: U16)
    requires picture < 0x8000 && off <= |data|
    ensures Concat(Stripped(Chunks(data, off, picture))) == data[off..]
    decreases |data| - off
  {
    hide DescriptorBytes, Depayload;
    if off < |data| {
      var d := FrameDescriptor(off == 0, picture);
      var end := off + Min(|data| - off, PACKET_MAX - |DescriptorBytes(d)|);
      var p, more := DescriptorBytes(d) + data[off..end], Chunks(data, end, picture);
      assert Chunks(data, off, picture) == [p] + more;
      StripDescriptor(d, data[off..end]);
      FrameRoundTrip(data, end, picture);
      assert ([p] + more)[1..] == more;
      assert Stripped([p] + more) == [data[off..end]] + Stripped(more);
      assert ([data[off..end]] + Stripped(more))[1..] == Stripped(more);
      assert data[off..end] + data[end..] == data[off..];
    }
  }

  /** Every payload but the last of a frame fills its packet. */
  lemma {:induction false} ChunksFill(data: Bytes, off: nat, picture: U16)
    requires picture < 0x8000
    ensures var ps := Chunks(data, off, picture);
            (forall i :: 0 <= i < |ps| - 1 ==> |ps[i]| == 1200) && (ps == [] <==> off >= |data|)
    decreases |data| - off
  {
    hide DescriptorBytes;
    if off < |data| {
      var d := FrameDescriptor(off == 0, picture);
      var end := off + Min(|data| - off, PACKET_MAX - |DescriptorBytes(d)|);
      ChunksFill(data, end, picture);
      var ps, more := Chunks(data, off, picture), Chunks(data, end, picture);
      assert ps[0] == DescriptorBytes(d) + data[off..end];
      forall i | 0 <= i < |ps| - 1 ensures |ps[i]| == 1200 {
        if i > 0 {
          assert ps[i] == more[i - 1];
        }
      }
    }
  }

  /** A payload that fits, carries frame bytes, and parses to the frame's descriptor. */
  predicate Marked(p: Bytes, start: bool, picture: U16) {
    |p| <= PACKET_MAX && Depayload(p) != [] && ParseDescriptor(p).0 == FrameDescriptor(start, picture)
  }

  /** Every payload fits, carries frame bytes, parses to the frame's descriptor, and only the first of the frame
      has the start bit. */
  lemma {:induction false} ChunksAreMarked(data: Bytes, off: nat, picture: U16)
    requires picture < 0x8000
    ensures var ps := Chunks(data, off, picture);
            forall i :: 0 <= i < |ps| ==> Marked(ps[i], i == 0 && off == 0, picture)
    decreases |data| - off
  {
    hide DescriptorBytes, ParseDescriptor, Depayload;
    if off < |data| {
      var d := FrameDescriptor(off == 0, picture);
      var end := off + Min(|data| - off, PACKET_MAX - |DescriptorBytes(d)|);
      DescriptorRoundTrip(d, data[off..end]);
      StripDescriptor(d, data[off..end]);
      ChunksAreMarked(data, end, picture);
      assert forall i :: 0 <= i < |Chunks(data, end, picture)| ==> Marked(Chunks(data, end, picture)[i], false, picture);
      var ps, more := Chunks(data, off, picture), Chunks(data, end, picture);
      assert Marked(ps[0], off == 0, picture) by {
        assert ps[0] == DescriptorBytes(d) + data[off..end];
        assert |data[off..end]| > 0;
      }
      forall i | 0 < i < |ps| ensures Marked(ps[i], false, picture) {
        assert ps[i] == more[i - 1];
      }
    }
  }
}
