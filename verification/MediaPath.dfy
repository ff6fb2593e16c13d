/** End to end: pack a frame, number and write the packets, receive the bytes in any order and any number of
    times, reorder, and rebuild the frame. */
module MediaPath {
  import opened Words
  import opened Rtp
  import opened JitterBuffer
  import H264
  import Vpx

  function PushAll(c: Core, xs: seq<Packet>): (d: Core)
    requires c.next < LIMIT && !c.first
    ensures d == c.(buf := d.buf)
    decreases |xs|
  {
    if xs == [] then c
    else PushAll(Push(c, xs[0]), xs[1..])
  }

  /** `sent` is numbered consecutively from `n`, wrap-around at 65535 included. */
  predicate Numbered(sent: seq<Packet>, n: nat) {
    forall i :: 0 <= i < |sent| ==> sent[i].seqNo == (n + i) % 0x1_0000
  }

  /** Two packets that reordering and reassembly cannot tell apart. */
  predicate Alike(p: Packet, q: Packet) {
    p.seqNo == q.seqNo && p.timestamp == q.timestamp && p.payload == q.payload
  }

  /** The buffer holds only copies of packets of `sent`, each under its own number. */
  predicate Holds(buf: map<nat, Packet>, sent: seq<Packet>, n: nat) {
    forall e :: e in buf ==> 0 <= e - n < |sent| && Alike(buf[e], sent[e - n])
  }

  predicate IsCopy(x: Packet, sent: seq<Packet>) {
    exists i :: 0 <= i < |sent| && Alike(x, sent[i])
  }

  /** Only copies of packets of `sent` arrived. */
  predicate OnlyCopies(xs: seq<Packet>, sent: seq<Packet>) {
    forall x :: x in xs ==> IsCopy(x, sent)
  }

  predicate OnlyFrom(xs: seq<Packet>, sent: seq<Packet>) {
    forall x :: x in xs ==> x in sent
  }

  predicate Arrived(xs: seq<Packet>, p: Packet) {
    exists x :: x in xs && Alike(x, p)
  }

  predicate AllArrived(xs: seq<Packet>, sent: seq<Packet>) {
    forall i :: 0 <= i < |sent| ==> Arrived(xs, sent[i])
  }

  lemma PushOwn(c: Core, sent: seq<Packet>, i: nat, x: Packet)
    requires c.next < LIMIT && !c.first && |sent| <= 0x8000 && Numbered(sent, c.next)
    requires Holds(c.buf, sent, c.next) && i < |sent| && Alike(x, sent[i])
    ensures var d := Push(c, x);
            d == (if c.next + i in c.buf then c else c.(buf := c.buf[c.next + i := x])) && Holds(d.buf, sent, c.next)
  {
    ExtendIsExact(c.next + i, c.next);
  }

  /** What the buffer holds stays there, and stays copies. */
  lemma {:induction false} PushAllKeeps(c: Core, sent: seq<Packet>, xs: seq<Packet>)
    requires c.next < LIMIT && !c.first && |sent| <= 0x8000 && Numbered(sent, c.next)
    requires Holds(c.buf, sent, c.next) && OnlyCopies(xs, sent)
    ensures var d := PushAll(c, xs);
            Holds(d.buf, sent, c.next) && forall e :: e in c.buf ==> e in d.buf
    decreases |xs|
  {
    if xs != [] {
      assert IsCopy(xs[0], sent);
      var i :| 0 <= i < |sent| && Alike(xs[0], sent[i]);
      hide Push, Alike, Holds, IsCopy, Numbered;
      PushOwn(c, sent, i, xs[0]);
      PushAllKeeps(Push(c, xs[0]), sent, xs[1..]);
    }
  }

  lemma {:induction false} PushAllTakes(c: Core, sent: seq<Packet>, xs: seq<Packet>, k: nat, x: Packet)
    requires c.next < LIMIT && !c.first && |sent| <= 0x8000 && Numbered(sent, c.next)
    requires Holds(c.buf, sent, c.next) && OnlyCopies(xs, sent) && k < |sent| && x in xs && Alike(x, sent[k])
    ensures c.next + k in PushAll(c, xs).buf
    decreases |xs|
  {
    assert IsCopy(xs[0], sent);
    var i :| 0 <= i < |sent| && Alike(xs[0], sent[i]);
    hide Push, Alike, Holds, IsCopy, Numbered;
    PushOwn(c, sent, i, xs[0]);
    if x == xs[0] {
      PushOwn(c, sent, k, x);
      PushAllKeeps(Push(c, x), sent, xs[1..]);
    } else {
      PushAllTakes(Push(c, xs[0]), sent, xs[1..], k, x);
    }
  }

  lemma {:induction false} PushAllFrom(c: Core, xs: seq<Packet>)
    requires c.next < LIMIT && !c.first
    ensures forall e :: e in PushAll(c, xs).buf ==> (e in c.buf && PushAll(c, xs).buf[e] == c.buf[e]) || PushAll(c, xs).buf[e] in xs
    decreases |xs|
  {
    if xs != [] {
      PushAddsOne(c, xs[0]);
      hide Push;
      PushAllFrom(Push(c, xs[0]), xs[1..]);
    }
  }

  lemma PushAddsOne(c: Core, x: Packet)
    requires c.next < LIMIT && !c.first
    ensures var d := Push(c, x); d == c.(buf := d.buf) && forall e :: e in d.buf ==> (e in c.buf && d.buf[e] == c.buf[e]) || d.buf[e] == x
  {
  }

  /** Whatever the order and the duplicates, the buffer ends up with exactly the packets that arrived. */
  lemma PushAllHolds(c: Core, sent: seq<Packet>, xs: seq<Packet>)
    requires c.next < LIMIT && !c.first && |sent| <= 0x8000 && Numbered(sent, c.next)
    requires Holds(c.buf, sent, c.next) && OnlyCopies(xs, sent)
    ensures var d := PushAll(c, xs);
            && Holds(d.buf, sent, c.next)
            && (forall e :: e in c.buf ==> e in d.buf)
            && (forall e :: e in d.buf ==> (e in c.buf && d.buf[e] == c.buf[e]) || d.buf[e] in xs)
            && (forall e :: c.next <= e < c.next + |sent| && Arrived(xs, sent[e - c.next]) ==> e in d.buf)
  {
    hide PushAll, Alike, Holds, Numbered, OnlyCopies;
    PushAllKeeps(c, sent, xs);
    PushAllFrom(c, xs);
    forall e | c.next <= e < c.next + |sent| && Arrived(xs, sent[e - c.next]) ensures e in PushAll(c, xs).buf {
      var x :| x in xs && Alike(x, sent[e - c.next]);
      PushAllTakes(c, sent, xs, e - c.next, x);
    }
  }

  lemma SameNumber(sent: seq<Packet>, n: nat, i: nat, j: nat, x: Packet)
    requires Numbered(sent, n) && |sent| <= 0x8000 && i < |sent| && j < |sent| && Alike(x, sent[i]) && Alike(x, sent[j])
    ensures i == j
  {
    assert sent[i].seqNo == (n + i) % 0x1_0000 && sent[j].seqNo == (n + j) % 0x1_0000;
  }

  /** A frame's packets, and the first one of the next frame. */
  predicate OneFrame(sent: seq<Packet>) {
    && |sent| >= 2 && sent[|sent| - 1].timestamp != sent[0].timestamp
    && forall i :: 0 <= i < |sent| - 1 ==> sent[i].timestamp == sent[0].timestamp
  }

  predicate HasAll(buf: map<nat, Packet>, n: nat, size: nat) {
    forall e :: n <= e < n + size ==> e in buf
  }

  lemma PushAllFills(c: Core, sent: seq<Packet>, xs: seq<Packet>)
    requires c.next < LIMIT && !c.first && c.buf == map[] && |sent| <= 0x8000 && Numbered(sent, c.next)
    requires OnlyCopies(xs, sent) && AllArrived(xs, sent)
    ensures var d := PushAll(c, xs);
            Holds(d.buf, sent, c.next) && HasAll(d.buf, c.next, |sent|) && forall e :: e in d.buf ==> d.buf[e] in xs
  {
    assert Holds(c.buf, sent, c.next);
    hide PushAll, Arrived, OnlyCopies, Numbered, Holds;
    PushAllHolds(c, sent, xs);
    forall e | c.next <= e < c.next + |sent| ensures e in PushAll(c, xs).buf {
      assert Arrived(xs, sent[e - c.next]);
    }
  }

  lemma DeliversRun(d: Core, sent: seq<Packet>, now: int)
    requires Holds(d.buf, sent, d.next) && OneFrame(sent) && HasAll(d.buf, d.next, |sent|)
    ensures Ordered(d) && Pop(d, now).0.next == d.next + |sent| - 1
    ensures var out := Pop(d, now).1;
            |out| == |sent| - 1 && forall i :: 0 <= i < |out| ==> d.next + i in d.buf && out[i].pkt == d.buf[d.next + i]
  {
    hide RunEnd;
    var n, k := d.next, |sent| - 1;
    assert IsLeast(d.buf, n) && Least(d.buf) == n;
    RunIs(d.buf, n, k, sent[0].timestamp, sent);
  }

  /** What is handed on are received copies of the frame's packets, in sending order. */
  predicate Delivered(out: seq<Packet>, sent: seq<Packet>, xs: seq<Packet>) {
    |out| == |sent| - 1 && forall i :: 0 <= i < |out| ==> out[i] in xs && Alike(out[i], sent[i])
  }

  lemma RunIsDelivered(d: Core, sent: seq<Packet>, xs: seq<Packet>, now: int)
    requires Holds(d.buf, sent, d.next) && OneFrame(sent) && HasAll(d.buf, d.next, |sent|)
    requires forall e :: e in d.buf ==> d.buf[e] in xs
    ensures Ordered(d) && Pop(d, now).0.next == d.next + |sent| - 1 && Delivered(Packets(Pop(d, now).1), sent, xs)
  {
    hide Pop, OneFrame, Alike, HasAll, Ordered;
    DeliversRun(d, sent, now);
    var out := Pop(d, now).1;
    forall i | 0 <= i < |out| ensures Packets(out)[i] in xs && Alike(Packets(out)[i], sent[i]) {
      var e := d.next + i;
      assert out[i].pkt == d.buf[e] && Alike(d.buf[e], sent[e - d.next]);
    }
  }

  /** Once copies of every packet of the frame and of the first packet of the next one are there, the pop delivers exactly
      the frame's, in sending order, at once. */
  lemma PopDeliversCopies(c: Core, sent: seq<Packet>, xs: seq<Packet>, now: int)
    requires c.next < LIMIT && !c.first && c.buf == map[] && |sent| <= 0x8000 && Numbered(sent, c.next) && OneFrame(sent)
    requires OnlyCopies(xs, sent) && AllArrived(xs, sent)
    ensures var d := PushAll(c, xs);
            Ordered(d) && Pop(d, now).0.next == c.next + |sent| - 1 && Delivered(Packets(Pop(d, now).1), sent, xs)
  {
    var d := PushAll(c, xs);
    hide PushAll, AllArrived, OnlyCopies, Numbered, Pop, OneFrame, Holds, HasAll, Delivered, Ordered, Packets;
    PushAllFills(c, sent, xs);
    RunIsDelivered(d, sent, xs, now);
  }

  /** In particular the frame's very packets when only those were received. */
  lemma PopDeliversFrame(c: Core, sent: seq<Packet>, xs: seq<Packet>, now: int)
    requires c.next < LIMIT && !c.first && c.buf == map[] && |sent| <= 0x8000 && Numbered(sent, c.next) && OneFrame(sent)
    requires OnlyFrom(xs, sent) && OnlyFrom(sent, xs)
    ensures var d := PushAll(c, xs);
            Ordered(d) && Packets(Pop(d, now).1) == sent[..|sent| - 1] && Pop(d, now).0.next == c.next + |sent| - 1
  {
    hide PushAll, Pop, AllArrived, Numbered, OnlyCopies, Delivered, Ordered, Packets, OnlyFrom, Push, IsCopy, Alike;
    OwnCopies(sent, xs);
    PopDeliversCopies(c, sent, xs, now);
    var out := Packets(Pop(PushAll(c, xs), now).1);
    DeliveredIs(out, sent, xs, c.next);
  }

  lemma DeliveredIs(out: seq<Packet>, sent: seq<Packet>, xs: seq<Packet>, n: nat)
    requires Delivered(out, sent, xs) && OnlyFrom(xs, sent) && Numbered(sent, n) && |sent| <= 0x8000
    ensures out == sent[..|sent| - 1]
  {
    hide Numbered, Alike;
    forall i | 0 <= i < |out| ensures out[i] == sent[i] {
      SameIfSent(sent, n, i, out[i]);
    }
  }

  lemma OwnCopies(sent: seq<Packet>, xs: seq<Packet>)
    requires OnlyFrom(xs, sent) && OnlyFrom(sent, xs)
    ensures OnlyCopies(xs, sent) && AllArrived(xs, sent)
  {
    forall x | x in xs ensures IsCopy(x, sent) {
      var i :| 0 <= i < |sent| && sent[i] == x;
      assert Alike(x, sent[i]);
    }
    forall i | 0 <= i < |sent| ensures Arrived(xs, sent[i]) {
      assert sent[i] in xs && Alike(sent[i], sent[i]);
    }
  }

  lemma SameIfSent(sent: seq<Packet>, n: nat, i: nat, x: Packet)
    requires Numbered(sent, n) && |sent| <= 0x8000 && i < |sent| && Alike(x, sent[i]) && x in sent
    ensures x == sent[i]
  {
    var j :| 0 <= j < |sent| && sent[j] == x;
    SameNumber(sent, n, i, j, x);
  }

  lemma RunIs(buf: map<nat, Packet>, n: nat, k: nat, ts: U32, sent: seq<Packet>)
    requires |sent| == k + 1
    requires forall e :: n <= e <= n + k ==> e in buf && buf[e].timestamp == sent[e - n].timestamp
    requires forall i :: 0 <= i < k ==> sent[i].timestamp == ts
    requires sent[k].timestamp != ts
    ensures RunEnd(buf, n, ts) == n + k
  {
    hide RunEnd;
    forall e | n <= e < n + k ensures InRun(buf, e, ts) {
    }
    assert !InRun(buf, n + k, ts);
  }

  // ---------------------------------------------------------------------------------------------
  // Over the wire

  /** The received packet of each datagram. */
  function ParseAll(ys: seq<Bytes>): seq<Packet>
    requires forall i :: 0 <= i < |ys| ==> Parse(ys[i]).Some?
  {
    seq(|ys|, i requires 0 <= i < |ys| => Parse(ys[i]).value)
  }

  predicate SameBytes(ys: seq<Bytes>, wire: seq<Bytes>) {
    (forall y :: y in ys ==> y in wire) && (forall w :: w in wire ==> w in ys)
  }

  function Written(ps: seq<Packet>): seq<Bytes>
    requires forall i :: 0 <= i < |ps| ==> WellFormed(ps[i])
  {
    seq(|ps|, i requires 0 <= i < |ps| => Serialize(ps[i]))
  }

  /** What a receiver sees of written packets. */
  function Seen(ps: seq<Packet>): seq<Packet> {
    seq(|ps|, i requires 0 <= i < |ps| => ps[i].(extData := ZeroPadded(ps[i].extData)))
  }

  lemma ReceivedIsSeen(ps: seq<Packet>, ys: seq<Bytes>)
    requires forall i :: 0 <= i < |ps| ==> WellFormed(ps[i])
    requires SameBytes(ys, Written(ps))
    ensures forall i :: 0 <= i < |ys| ==> Parse(ys[i]).Some?
    ensures OnlyFrom(ParseAll(ys), Seen(ps)) && OnlyFrom(Seen(ps), ParseAll(ys))
  {
    hide Serialize, Parse, WellFormed, ZeroPadded;
    var wire, seen := Written(ps), Seen(ps);
    forall i | 0 <= i < |ps| ensures Parse(wire[i]) == Some(seen[i]) {
      ParseOfSerialize(ps[i]);
    }
    forall j | 0 <= j < |ys| ensures Parse(ys[j]).Some? && Parse(ys[j]).value in seen {
      assert ys[j] in wire;
      var i :| 0 <= i < |wire| && wire[i] == ys[j];
      assert Parse(ys[j]) == Some(seen[i]);
    }
    var got := ParseAll(ys);
    forall x | x in seen ensures x in got {
      var i :| 0 <= i < |seen| && seen[i] == x;
      assert wire[i] in ys;
      var j :| 0 <= j < |ys| && ys[j] == wire[i];
      assert got[j] == x;
    }
  }

  function Payloads(ps: seq<Packet>): seq<Bytes> {
    seq(|ps|, i requires 0 <= i < |ps| => ps[i].payload)
  }

  /** The packets of one frame followed by the first packet of the next, numbered from `n`. */
  predicate SendsFrame(ps: seq<Packet>, n: nat, payloads: seq<Bytes>) {
    && |ps| == |payloads| + 1
    && (forall i :: 0 <= i < |ps| ==> WellFormed(ps[i]))
    && Numbered(ps, n)
    && Payloads(ps[..|payloads|]) == payloads
    && (forall i :: 0 <= i < |payloads| ==> ps[i].timestamp == ps[0].timestamp)
    && ps[|payloads|].timestamp != ps[0].timestamp
  }

  lemma SeenFields(ps: seq<Packet>)
    ensures var sent := Seen(ps);
            && |sent| == |ps| && (forall n :: Numbered(ps, n) ==> Numbered(sent, n))
            && (forall i :: 0 <= i < |ps| ==> sent[i].timestamp == ps[i].timestamp && sent[i].payload == ps[i].payload)
            && forall k :: 0 <= k <= |ps| ==> Payloads(sent[..k]) == Payloads(ps[..k])
  {
    hide ZeroPadded;
    var sent := Seen(ps);
    forall k | 0 <= k <= |ps| ensures Payloads(sent[..k]) == Payloads(ps[..k]) {
      forall i | 0 <= i < k ensures sent[..k][i].payload == ps[..k][i].payload {
      }
    }
  }

  /** Data survives the whole path whenever its cut is carriable: packed, numbered from the read position, written, received
      in any order with any duplicates together with the start of the next frame, reordered and rebuilt, it comes back as
      the units of the cut, each behind 00 00 01. They are the units of the byte stream format when the data starts right
      and none of them ends in a zero byte. */
  lemma FrameSurvives(c: Core, data: Bytes, ps: seq<Packet>, ys: seq<Bytes>, now: int)
    requires H264.Nals(data) != [] && H264.AllCarriable(H264.Nals(data))
    requires !c.first && c.buf == map[] && c.next < LIMIT
    requires |ps| <= 0x8000 && SendsFrame(ps, c.next, H264.PackNals(H264.Nals(data)))
    requires SameBytes(ys, Written(ps))
    ensures forall i :: 0 <= i < |ys| ==> Parse(ys[i]).Some?
    ensures var d := PushAll(c, ParseAll(ys));
            && Ordered(d) && var out := H264.AnnexB(Payloads(Packets(Pop(d, now).1)));
            && out == H264.Joined(H264.Nals(data))
            && (H264.StartsRight(data) && H264.NoneEndsInZero(H264.Nals(data)) ==> out == H264.Joined(H264.TrueNals(data)))
  {
    hide WellFormed, Pop, PushAll, Seen, H264.PackNals, H264.Nals, H264.TrueNals, H264.AnnexB, H264.StartsRight, H264.Joined;
    var sent := Seen(ps);
    H264.SomePayload(data);
    ReceivedIsSeen(ps, ys);
    SeenFields(ps);
    PopDeliversFrame(c, sent, ParseAll(ys), now);
    H264.FrameRoundTrip(data);
  }

  /** In particular a byte stream of clean, carriable units comes back as the same stream with three-byte start codes. */
  lemma UnitsSurvive(c: Core, us: seq<H264.Unit>, ps: seq<Packet>, ys: seq<Bytes>, now: int)
    requires forall u :: u in us ==> H264.Clean(u.nal)
    requires us != [] && H264.AllCarriable(H264.NalsOf(us))
    requires !c.first && c.buf == map[] && c.next < LIMIT
    requires |ps| <= 0x8000 && SendsFrame(ps, c.next, H264.PackNals(H264.Nals(H264.Frame(us))))
    requires SameBytes(ys, Written(ps))
    ensures forall i :: 0 <= i < |ys| ==> Parse(ys[i]).Some?
    ensures var d := PushAll(c, ParseAll(ys));
            Ordered(d) && H264.AnnexB(Payloads(Packets(Pop(d, now).1))) == H264.Frame(H264.WithShortCodes(us))
  {
    hide WellFormed, Pop, PushAll, SendsFrame, H264.PackNals, H264.Nals, H264.Frame, H264.AnnexB, H264.Joined;
    H264.UnitsRoundTrip(us);
    FrameSurvives(c, H264.Frame(us), ps, ys, now);
  }

  /** What the receiver hands to the reorder buffer for VP8 and VP9: the packets without their payload descriptors. */
  function DepayloadAll(ps: seq<Packet>): seq<Packet> {
    seq(|ps|, i requires 0 <= i < |ps| => ps[i].(payload := Vpx.Depayload(ps[i].payload)))
  }

  lemma DepayloadKeepsSets(xs: seq<Packet>, ys: seq<Packet>)
    requires OnlyFrom(xs, ys)
    ensures OnlyFrom(DepayloadAll(xs), DepayloadAll(ys))
  {
    hide Vpx.Depayload;
    var a, b := DepayloadAll(xs), DepayloadAll(ys);
    forall x | x in a ensures x in b {
      var i :| 0 <= i < |a| && a[i] == x;
      assert xs[i] in ys;
      var j :| 0 <= j < |ys| && ys[j] == xs[i];
      assert b[j] == x;
    }
  }

  lemma {:induction false} StrippedPayloads(ps: seq<Packet>)
    ensures Payloads(DepayloadAll(ps)) == Vpx.Stripped(Payloads(ps))
  {
    hide Vpx.Depayload;
    if ps != [] {
      StrippedPayloads(ps[1..]);
      assert Payloads(ps)[1..] == Payloads(ps[1..]);
      assert Payloads(DepayloadAll(ps)) == [Vpx.Depayload(ps[0].payload)] + Payloads(DepayloadAll(ps[1..]));
    }
  }

  /** The same path for VP8 and VP9: packed behind payload descriptors, numbered, written, received in any order with any
      duplicates, parsed, each descriptor stripped by the receiver's short form, reordered, and the payloads of the popped
      run concatenated, the frame is back. */
  lemma VpxFrameSurvives(c: Core, data: Bytes, picture: U16, ps: seq<Packet>, ys: seq<Bytes>, now: int)
    requires picture < 0x8000 && data != []
    requires !c.first && c.buf == map[] && c.next < LIMIT
    requires |ps| <= 0x8000 && SendsFrame(ps, c.next, Vpx.Chunks(data, 0, picture))
    requires SameBytes(ys, Written(ps))
    ensures forall i :: 0 <= i < |ys| ==> Parse(ys[i]).Some?
    ensures var d := PushAll(c, DepayloadAll(ParseAll(ys)));
            Ordered(d) && Vpx.Concat(Payloads(Packets(Pop(d, now).1))) == data
  {
    hide WellFormed, Pop, PushAll, Seen, Vpx.DescriptorBytes, Vpx.Depayload, Vpx.Concat, Vpx.Stripped;
    var k := |ps| - 1;
    var seen, sent := Seen(ps), DepayloadAll(Seen(ps));
    ReceivedIsSeen(ps, ys);
    SeenFields(ps);
    DepayloadKeepsSets(ParseAll(ys), seen);
    DepayloadKeepsSets(seen, ParseAll(ys));
    assert Vpx.Chunks(data, 0, picture) != [];
    PopDeliversFrame(c, sent, DepayloadAll(ParseAll(ys)), now);
    assert sent[..k] == DepayloadAll(seen[..k]);
    StrippedPayloads(seen[..k]);
    Vpx.FrameRoundTrip(data, 0, picture);
    assert data[0..] == data;
  }
}
