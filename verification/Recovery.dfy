/** Recovery of lost packets, end to end: the loss is noticed and asked for, the request is read and answered from the send
    history, the answers are turned back into the originals, and the frame comes out whole. */
module Recovery {
  import opened Words
  import opened Rtp
  import opened JitterBuffer
  import opened MediaPath
  import Retransmission
  import NackGenerator
  import Rtcp
  import H264
  import Vpx

  /** What the receiver knows of the stream and its repair stream. */
  datatype Maps = Maps(pts: map<U8, U8>, ssrcs: map<U32, U32>)

  /** A datagram parsed and, if it is a repair packet, rewritten. */
  function Receive(y: Bytes, maps: Maps): Option<Packet> {
    match Parse(y)
    case None => None
    case Some(p) => Some(Retransmission.Rewrite(p, maps.pts, maps.ssrcs))
  }

  function ReceiveAll(ys: seq<Bytes>, maps: Maps): seq<Packet>
    requires forall i :: 0 <= i < |ys| ==> Receive(ys[i], maps).Some?
  {
    seq(|ys|, i requires 0 <= i < |ys| => Receive(ys[i], maps).value)
  }

  /** What the send history remembers of a packet. */
  function EntryOf(p: Packet): Retransmission.Entry {
    Retransmission.Entry(p.payload, p.seqNo, p.timestamp)
  }

  /** The packets belong to this stream, and the receiver can tell its repair packets from them. */
  predicate OfStream(ps: seq<Packet>, ids: Retransmission.Ids, maps: Maps) {
    && Retransmission.Knows(ids, maps.pts, maps.ssrcs) && ids.rtxPt < 128 && ids.pt !in maps.pts
    && forall i :: 0 <= i < |ps| ==> WellFormed(ps[i]) && ps[i].payloadType == ids.pt && ps[i].payload != []
  }

  // ---------------------------------------------------------------------------------------------
  // Originals and repairs

  predicate IsWritten(y: Bytes, ps: seq<Packet>)
    requires forall i :: 0 <= i < |ps| ==> WellFormed(ps[i])
  {
    exists i :: 0 <= i < |ps| && y == Serialize(ps[i])
  }

  /** An answer to a request for packet `p`. */
  predicate Repairs(y: Bytes, p: Packet, ids: Retransmission.Ids) {
    exists r: U16 :: y == Retransmission.RtxBytes(ids, EntryOf(p), r)
  }

  predicate IsRepair(y: Bytes, ps: seq<Packet>, ids: Retransmission.Ids) {
    exists i :: 0 <= i < |ps| && Repairs(y, ps[i], ids)
  }

  predicate HasRepair(ys: seq<Bytes>, p: Packet, ids: Retransmission.Ids) {
    exists y :: y in ys && Repairs(y, p, ids)
  }

  lemma WrittenIsCopy(p: Packet, ids: Retransmission.Ids, maps: Maps)
    requires WellFormed(p) && p.payloadType == ids.pt && ids.pt !in maps.pts
    ensures var q := Receive(Serialize(p), maps); q.Some? && Alike(q.value, p)
  {
    hide Serialize, Parse, WellFormed, ZeroPadded;
    ParseOfSerialize(p);
  }

  lemma RepairIsCopy(y: Bytes, p: Packet, ids: Retransmission.Ids, maps: Maps)
    requires Repairs(y, p, ids) && p.payload != []
    requires Retransmission.Knows(ids, maps.pts, maps.ssrcs) && ids.rtxPt < 128
    ensures var q := Receive(y, maps); q.Some? && Alike(q.value, p)
  {
    hide Parse, Retransmission.RtxBytes, Retransmission.Rewrite;
    var r: U16 :| y == Retransmission.RtxBytes(ids, EntryOf(p), r);
    Retransmission.RestoredIff(ids, EntryOf(p), r, maps.pts, maps.ssrcs);
  }

  /** Every datagram is an original or a repair, and of every packet there is one or the other. */
  predicate Covers(zs: seq<Bytes>, ps: seq<Packet>, ids: Retransmission.Ids)
    requires forall i :: 0 <= i < |ps| ==> WellFormed(ps[i])
  {
    && (forall z :: z in zs ==> IsWritten(z, ps) || IsRepair(z, ps, ids))
    && forall i :: 0 <= i < |ps| ==> Serialize(ps[i]) in zs || HasRepair(zs, ps[i], ids)
  }

  /** Then copies of all packets are received, and of nothing else. */
  lemma CoveredIsReceived(zs: seq<Bytes>, ps: seq<Packet>, ids: Retransmission.Ids, maps: Maps)
    requires OfStream(ps, ids, maps) && Covers(zs, ps, ids)
    ensures forall j :: 0 <= j < |zs| ==> Receive(zs[j], maps).Some?
    ensures OnlyCopies(ReceiveAll(zs, maps), ps) && AllArrived(ReceiveAll(zs, maps), ps)
  {
    hide Serialize, Receive, WellFormed, Repairs, Alike, Retransmission.Knows;
    forall j | 0 <= j < |zs| ensures Receive(zs[j], maps).Some? && IsCopy(Receive(zs[j], maps).value, ps) {
      assert zs[j] in zs;
      if IsWritten(zs[j], ps) {
        var i :| 0 <= i < |ps| && zs[j] == Serialize(ps[i]);
        WrittenIsCopy(ps[i], ids, maps);
      } else {
        var i :| 0 <= i < |ps| && Repairs(zs[j], ps[i], ids);
        RepairIsCopy(zs[j], ps[i], ids, maps);
      }
    }
    var xs := ReceiveAll(zs, maps);
    forall i | 0 <= i < |ps| ensures Arrived(xs, ps[i]) {
      var z := Serialize(ps[i]);
      if z in zs {
        WrittenIsCopy(ps[i], ids, maps);
      } else {
        z :| z in zs && Repairs(z, ps[i], ids);
        RepairIsCopy(z, ps[i], ids, maps);
      }
      var j :| 0 <= j < |zs| && zs[j] == z;
      assert xs[j] in xs;
    }
  }

  lemma CopiesArePopped(c: Core, sent: seq<Packet>, xs: seq<Packet>, now: int)
    requires !c.first && c.buf == map[] && c.next < LIMIT && |sent| <= 0x8000 && Numbered(sent, c.next) && OneFrame(sent)
    requires OnlyCopies(xs, sent) && AllArrived(xs, sent)
    ensures var d := PushAll(c, xs);
            Ordered(d) && Payloads(Packets(Pop(d, now).1)) == Payloads(sent[..|sent| - 1])
  {
    assert sent != [];
    hide PushAll, Pop, OnlyCopies, AllArrived, Numbered, Ordered, Packets, Payloads, Delivered, OneFrame;
    PopDeliversCopies(c, sent, xs, now);
    DeliveredPayloads(Packets(Pop(PushAll(c, xs), now).1), sent, xs);
  }

  lemma DeliveredPayloads(out: seq<Packet>, sent: seq<Packet>, xs: seq<Packet>)
    requires sent != [] && Delivered(out, sent, xs)
    ensures Payloads(out) == Payloads(sent[..|sent| - 1])
  {
  }

  /** However many rounds of requests it takes: once every packet is there, original or repaired, the pop hands on the
      frame's payloads in order. */
  lemma CoveredFrameIsDelivered(c: Core, ps: seq<Packet>, zs: seq<Bytes>, ids: Retransmission.Ids, maps: Maps, now: int)
    requires !c.first && c.buf == map[] && c.next < LIMIT
    requires |ps| <= 0x8000 && Numbered(ps, c.next) && OneFrame(ps) && OfStream(ps, ids, maps) && Covers(zs, ps, ids)
    ensures forall j :: 0 <= j < |zs| ==> Receive(zs[j], maps).Some?
    ensures var d := PushAll(c, ReceiveAll(zs, maps));
            Ordered(d) && Payloads(Packets(Pop(d, now).1)) == Payloads(ps[..|ps| - 1])
  {
    hide PushAll, Pop, Receive, OnlyCopies, AllArrived, Numbered, Covers, OfStream, Ordered, Packets;
    CoveredIsReceived(zs, ps, ids, maps);
    CopiesArePopped(c, ps, ReceiveAll(zs, maps), now);
  }

  // ---------------------------------------------------------------------------------------------
  // One round of requests

  /** Position `at` of the send history is where these packets begin; less than a cycle was sent since. */
  predicate Remembers(sent: seq<Retransmission.Entry>, start: U16, at: nat, ps: seq<Packet>) {
    && Retransmission.Consecutive(sent, start) && at + |ps| <= |sent| <= at + 0x1_0000
    && forall i :: 0 <= i < |ps| ==> sent[at + i] == EntryOf(ps[i])
  }

  function HistoryOf(sent: seq<Retransmission.Entry>): (h: seq<Option<Retransmission.Entry>>)
    ensures |h| == Retransmission.HISTORY_SIZE
  {
    Retransmission.Filled(sent)
  }

  /** What a request for one of these packets finds: that packet, if anything, and surely while it is retained. */
  lemma LookupFinds(sent: seq<Retransmission.Entry>, start: U16, at: nat, ps: seq<Packet>, i: nat)
    requires Remembers(sent, start, at, ps) && i < |ps|
    ensures var e := Retransmission.Lookup(HistoryOf(sent), ps[i].seqNo);
            && (e.Some? ==> e.value == EntryOf(ps[i]))
            && (Retransmission.Retained(sent, at + i) ==> e.Some?)
  {
    hide Retransmission.Filled, Retransmission.Lookup;
    var num := ps[i].seqNo;
    Retransmission.AnsweredIff(sent, start, num);
    assert sent[at + i] == EntryOf(ps[i]);
    if Retransmission.Lookup(HistoryOf(sent), num).Some? {
      var j :| Retransmission.Retained(sent, j) && sent[j].num == num;
      SameLow(start + 1 + j, start + 1 + at + i);
    }
  }

  lemma SameLow(x: int, y: int)
    requires Low16(x) == Low16(y) && -0x1_0000 < x - y < 0x1_0000
    ensures x == y
  {
  }

  predicate IsNumberOf(x: U16, ps: seq<Packet>) {
    exists i :: 0 <= i < |ps| && ps[i].seqNo == x
  }

  /** Originals that got through, a request for the rest, and the answers: together they cover the packets. */
  lemma RoundCovers(ps: seq<Packet>, ys: seq<Bytes>, asked: seq<U16>, sent: seq<Retransmission.Entry>, start: U16, at: nat,
                    ids: Retransmission.Ids, maps: Maps, rtxNum: U16, zs: seq<Bytes>)
    requires OfStream(ps, ids, maps) && Remembers(sent, start, at, ps)
    requires forall y :: y in ys ==> IsWritten(y, ps)
    requires forall x :: x in asked ==> IsNumberOf(x, ps)
    requires forall i :: 0 <= i < |ps| ==> Serialize(ps[i]) in ys || (ps[i].seqNo in asked && Retransmission.Retained(sent, at + i))
    requires SameBytes(zs, ys + Retransmission.Answers(ids, HistoryOf(sent), asked, rtxNum).0)
    ensures Covers(zs, ps, ids)
  {
    hide Serialize, WellFormed, Repairs, Retransmission.Lookup, Retransmission.Answers, Remembers, Retransmission.Retained, HistoryOf;
    var h := HistoryOf(sent);
    var answers := Retransmission.Answers(ids, h, asked, rtxNum).0;
    forall y | y in answers ensures IsRepair(y, ps, ids) {
      Retransmission.AnswersAsked(ids, h, asked, rtxNum, y);
      var num :| num in asked && Retransmission.IsAnswer(y, ids, h, num);
      assert IsNumberOf(num, ps);
      var i :| 0 <= i < |ps| && ps[i].seqNo == num;
      LookupFinds(sent, start, at, ps, i);
      AnswerRepairs(y, ids, h, ps[i]);
    }
    forall i | 0 <= i < |ps| ensures Serialize(ps[i]) in zs || HasRepair(zs, ps[i], ids) {
      if Serialize(ps[i]) in ys {
        assert Serialize(ps[i]) in ys + answers;
      } else {
        LookupFinds(sent, start, at, ps, i);
        Retransmission.AskedIsAnswered(ids, h, asked, rtxNum, ps[i].seqNo);
        var y :| y in answers && Retransmission.IsAnswer(y, ids, h, ps[i].seqNo);
        AnswerRepairs(y, ids, h, ps[i]);
        assert y in ys + answers;
      }
    }
  }

  lemma AnswerRepairs(y: Bytes, ids: Retransmission.Ids, h: seq<Option<Retransmission.Entry>>, p: Packet)
    requires |h| == Retransmission.HISTORY_SIZE && Retransmission.IsAnswer(y, ids, h, p.seqNo)
    requires Retransmission.Lookup(h, p.seqNo) == Some(EntryOf(p))
    ensures Repairs(y, p, ids)
  {
    hide Retransmission.RtxBytes, Retransmission.Lookup;
  }

  // ---------------------------------------------------------------------------------------------
  // Noticing the loss

  /** The loss bookkeeping has seen what got through: the last packet is the newest, everything older than the first is
      settled, and what is missing in between is due. */
  predicate Noticed(m: NackGenerator.Model, now: int, ps: seq<Packet>, ys: seq<Bytes>)
    requires ps != [] && forall i :: 0 <= i < |ps| ==> WellFormed(ps[i])
  {
    var first := m.hi - |ps| + 1;
    && m.started && m.lo < first && m.hi - m.lo <= 65533 && Low16(m.hi) == ps[|ps| - 1].seqNo
    && Serialize(ps[|ps| - 1]) in ys
    && (forall n :: m.lo < n < first ==> NackGenerator.At(m.info, n).received)
    && forall i :: 0 <= i < |ps| ==> if Serialize(ps[i]) in ys then NackGenerator.At(m.info, first + i).received
                                     else NackGenerator.Due(m, now, NackGenerator.At(m.info, first + i))
  }

  /** Then exactly the missing packets are asked for. */
  lemma MissingAreRequested(m: NackGenerator.Model, now: int, ps: seq<Packet>, ys: seq<Bytes>, n: nat)
    requires ps != [] && (forall i :: 0 <= i < |ps| ==> WellFormed(ps[i])) && Numbered(ps, n) && Noticed(m, now, ps, ys)
    ensures |m.log| <= |NackGenerator.Poll(m, now).log| && |NackGenerator.Requests(m, now)| <= 65533
    ensures forall x :: x in NackGenerator.Requests(m, now) ==> IsNumberOf(x, ps)
    ensures forall i :: 0 <= i < |ps| ==> Serialize(ps[i]) in ys || ps[i].seqNo in NackGenerator.Requests(m, now)
  {
    hide Serialize, WellFormed, NackGenerator.Poll, NackGenerator.At, NackGenerator.Requests, Low16;
    var first := m.hi - |ps| + 1;
    NackGenerator.RequestsAre(m, now);
    forall i | 0 <= i < |ps| ensures ps[i].seqNo == Low16(first + i) {
      NumberedLow(ps, n, m.hi, i);
    }
    forall x | x in NackGenerator.Requests(m, now) ensures IsNumberOf(x, ps) {
      var k :| m.lo < k < m.hi && NackGenerator.Due(m, now, NackGenerator.At(m.info, k)) && Low16(k) == x;
      assert ps[k - first].seqNo == Low16(first + (k - first));
    }
    forall i | 0 <= i < |ps| && Serialize(ps[i]) !in ys ensures ps[i].seqNo in NackGenerator.Requests(m, now) {
      assert NackGenerator.Due(m, now, NackGenerator.At(m.info, first + i));
    }
  }

  lemma NumberedLow(ps: seq<Packet>, n: nat, hi: int, i: nat)
    requires Numbered(ps, n) && i < |ps| && Low16(hi) == ps[|ps| - 1].seqNo
    ensures ps[i].seqNo == Low16(hi - |ps| + 1 + i)
  {
    var k := |ps| - 1;
    assert ps[k].seqNo == (n + k) % 0x1_0000 && ps[i].seqNo == (n + i) % 0x1_0000;
    LowAdd(hi, i - k);
    LowAdd(n + k, i - k);
  }

  // ---------------------------------------------------------------------------------------------
  // The whole way round

  /** One round, from the loss to the answers: some of the packets' datagrams `ys` got through, the poll's requests travel in
      a NACK packet, the sender answers from its history, and `zs` is all that arrives, in any order with any duplicates. */
  predicate Recovers(ps: seq<Packet>, ys: seq<Bytes>, zs: seq<Bytes>, m: NackGenerator.Model, asked: int, sender: U32,
                     sent: seq<Retransmission.Entry>, start: U16, at: nat, ids: Retransmission.Ids, maps: Maps, rtxNum: U16)
    requires |m.log| <= |NackGenerator.Poll(m, asked).log|
  {
    && ps != [] && OfStream(ps, ids, maps) && Remembers(sent, start, at, ps)
    && (forall y :: y in ys ==> IsWritten(y, ps)) && Noticed(m, asked, ps, ys)
    && (forall i :: 0 <= i < |ps| ==> Serialize(ps[i]) in ys || Retransmission.Retained(sent, at + i))
    && var nack := Rtcp.ReadNack(Rtcp.NackBytes(sender, ids.ssrc, NackGenerator.Requests(m, asked)));
    nack.Some? ==> SameBytes(zs, ys + Retransmission.Answers(ids, HistoryOf(sent), nack.value.1, rtxNum).0)
  }

  lemma RoundRecovers(ps: seq<Packet>, n: nat, ys: seq<Bytes>, zs: seq<Bytes>, m: NackGenerator.Model, asked: int, sender: U32,
                      sent: seq<Retransmission.Entry>, start: U16, at: nat, ids: Retransmission.Ids, maps: Maps, rtxNum: U16)
    requires Numbered(ps, n) && |m.log| <= |NackGenerator.Poll(m, asked).log|
    requires Recovers(ps, ys, zs, m, asked, sender, sent, start, at, ids, maps, rtxNum)
    ensures Covers(zs, ps, ids)
  {
    var lost := NackGenerator.Requests(m, asked);
    hide Numbered, Covers, Noticed, Remembers, NackGenerator.Poll, NackGenerator.Requests, Rtcp.ReadNack, Rtcp.NackBytes,
         Retransmission.Answers, Serialize, IsWritten, IsNumberOf, SameBytes, WellFormed;
    MissingAreRequested(m, asked, ps, ys, n);
    Rtcp.NackRoundTripIff(sender, ids.ssrc, lost);
    RoundCovers(ps, ys, lost, sent, start, at, ids, maps, rtxNum, zs);
  }

  /** Lost packets are recovered: whichever packets of a frame were lost, as long as the next frame's first packet got through
      and the history still holds them, one request brings them back and the pop hands on the whole frame in order. */
  lemma LostPacketsAreRecovered(c: Core, ps: seq<Packet>, ys: seq<Bytes>, zs: seq<Bytes>, m: NackGenerator.Model, asked: int,
                                sender: U32, sent: seq<Retransmission.Entry>, start: U16, at: nat, ids: Retransmission.Ids,
                                maps: Maps, rtxNum: U16, now: int)
    requires !c.first && c.buf == map[] && c.next < LIMIT && |ps| <= 0x8000 && Numbered(ps, c.next) && OneFrame(ps)
    requires |m.log| <= |NackGenerator.Poll(m, asked).log|
    requires Recovers(ps, ys, zs, m, asked, sender, sent, start, at, ids, maps, rtxNum)
    ensures forall j :: 0 <= j < |zs| ==> Receive(zs[j], maps).Some?
    ensures var d := PushAll(c, ReceiveAll(zs, maps));
            Ordered(d) && Payloads(Packets(Pop(d, now).1)) == Payloads(ps[..|ps| - 1])
  {
    RoundRecovers(ps, c.next, ys, zs, m, asked, sender, sent, start, at, ids, maps, rtxNum);
    CoveredFrameIsDelivered(c, ps, zs, ids, maps, now);
  }

  /** For H.264: the rebuilt byte stream is that of the data, as if nothing had been lost. */
  lemma LostFrameSurvives(c: Core, data: Bytes, ps: seq<Packet>, ys: seq<Bytes>, zs: seq<Bytes>, m: NackGenerator.Model, asked: int,
                          sender: U32, sent: seq<Retransmission.Entry>, start: U16, at: nat, ids: Retransmission.Ids,
                          maps: Maps, rtxNum: U16, now: int)
    requires H264.Nals(data) != [] && H264.AllCarriable(H264.Nals(data))
    requires !c.first && c.buf == map[] && c.next < LIMIT
    requires |ps| <= 0x8000 && SendsFrame(ps, c.next, H264.PackNals(H264.Nals(data)))
    requires |m.log| <= |NackGenerator.Poll(m, asked).log|
    requires Recovers(ps, ys, zs, m, asked, sender, sent, start, at, ids, maps, rtxNum)
    ensures forall j :: 0 <= j < |zs| ==> Receive(zs[j], maps).Some?
    ensures var d := PushAll(c, ReceiveAll(zs, maps));
            Ordered(d) && H264.AnnexB(Payloads(Packets(Pop(d, now).1))) == H264.Joined(H264.Nals(data))
  {
    H264.SomePayload(data);
    assert OneFrame(ps);
    hide PushAll, Pop, Recovers, H264.AnnexB, H264.Joined, H264.Nals, H264.PackNals, H264.AllCarriable, Receive, ReceiveAll,
         NackGenerator.Poll, Ordered;
    LostPacketsAreRecovered(c, ps, ys, zs, m, asked, sender, sent, start, at, ids, maps, rtxNum, now);
    H264.FrameRoundTrip(data);
  }

  /** For VP8 and VP9, where each packet's descriptor is stripped after the rewriting. */
  lemma LostVpxFrameSurvives(c: Core, data: Bytes, picture: U16, ps: seq<Packet>, ys: seq<Bytes>, zs: seq<Bytes>,
                             m: NackGenerator.Model, asked: int, sender: U32, sent: seq<Retransmission.Entry>, start: U16, at: nat,
                             ids: Retransmission.Ids, maps: Maps, rtxNum: U16, now: int)
    requires picture < 0x8000 && data != []
    requires !c.first && c.buf == map[] && c.next < LIMIT
    requires |ps| <= 0x8000 && SendsFrame(ps, c.next, Vpx.Chunks(data, 0, picture))
    requires |m.log| <= |NackGenerator.Poll(m, asked).log|
    requires Recovers(ps, ys, zs, m, asked, sender, sent, start, at, ids, maps, rtxNum)
    ensures forall j :: 0 <= j < |zs| ==> Receive(zs[j], maps).Some?
    ensures var d := PushAll(c, DepayloadAll(ReceiveAll(zs, maps)));
            Ordered(d) && Vpx.Concat(Payloads(Packets(Pop(d, now).1))) == data
  {
    assert Vpx.Chunks(data, 0, picture) != [];
    assert OneFrame(ps);
    assert data[0..] == data;
    hide PushAll, Pop, Recovers, Receive, ReceiveAll, NackGenerator.Poll, Ordered, Covers, OfStream, Vpx.Concat, Vpx.Stripped, Vpx.Chunks;
    RoundRecovers(ps, c.next, ys, zs, m, asked, sender, sent, start, at, ids, maps, rtxNum);
    OfStreamOf(ps, ys, zs, m, asked, sender, sent, start, at, ids, maps, rtxNum);
    CoveredVpxFrameIsDelivered(c, ps, zs, ids, maps, now);
    Vpx.FrameRoundTrip(data, 0, picture);
  }

  lemma CoveredVpxFrameIsDelivered(c: Core, ps: seq<Packet>, zs: seq<Bytes>, ids: Retransmission.Ids, maps: Maps, now: int)
    requires !c.first && c.buf == map[] && c.next < LIMIT
    requires |ps| <= 0x8000 && Numbered(ps, c.next) && OneFrame(ps) && OfStream(ps, ids, maps) && Covers(zs, ps, ids)
    ensures forall j :: 0 <= j < |zs| ==> Receive(zs[j], maps).Some?
    ensures var d := PushAll(c, DepayloadAll(ReceiveAll(zs, maps)));
            Ordered(d) && Payloads(Packets(Pop(d, now).1)) == Vpx.Stripped(Payloads(ps[..|ps| - 1]))
  {
    hide PushAll, Pop, Receive, ReceiveAll, Ordered, Covers, OnlyCopies, AllArrived, OneFrame, Numbered, OfStream, Vpx.Stripped,
         DepayloadAll, Packets, Payloads;
    CoveredIsReceived(zs, ps, ids, maps);
    StrippedCopiesArePopped(c, ps, ReceiveAll(zs, maps), now);
  }

  lemma StrippedCopiesArePopped(c: Core, ps: seq<Packet>, xs: seq<Packet>, now: int)
    requires !c.first && c.buf == map[] && c.next < LIMIT && |ps| <= 0x8000 && Numbered(ps, c.next) && OneFrame(ps)
    requires OnlyCopies(xs, ps) && AllArrived(xs, ps)
    ensures var d := PushAll(c, DepayloadAll(xs));
            Ordered(d) && Payloads(Packets(Pop(d, now).1)) == Vpx.Stripped(Payloads(ps[..|ps| - 1]))
  {
    assert ps != [];
    hide PushAll, Pop, Ordered, OnlyCopies, AllArrived, OneFrame, Numbered, Vpx.Stripped, DepayloadAll, Packets, Payloads;
    StrippedFrame(ps, c.next);
    DepayloadKeepsCopies(xs, ps);
    CopiesArePopped(c, DepayloadAll(ps), DepayloadAll(xs), now);
    StrippedPayloads(ps[..|ps| - 1]);
  }

  lemma StrippedFrame(ps: seq<Packet>, n: nat)
    requires OneFrame(ps) && Numbered(ps, n)
    ensures var s, k := DepayloadAll(ps), |ps| - 1;
            |s| == |ps| && OneFrame(s) && Numbered(s, n) && s[..k] == DepayloadAll(ps[..k])
  {
    hide Vpx.Depayload;
  }

  lemma OfStreamOf(ps: seq<Packet>, ys: seq<Bytes>, zs: seq<Bytes>, m: NackGenerator.Model, asked: int, sender: U32,
                   sent: seq<Retransmission.Entry>, start: U16, at: nat, ids: Retransmission.Ids, maps: Maps, rtxNum: U16)
    requires |m.log| <= |NackGenerator.Poll(m, asked).log|
    requires Recovers(ps, ys, zs, m, asked, sender, sent, start, at, ids, maps, rtxNum)
    ensures OfStream(ps, ids, maps)
  {
  }

  lemma DepayloadKeepsCopies(xs: seq<Packet>, ps: seq<Packet>)
    requires OnlyCopies(xs, ps) && AllArrived(xs, ps)
    ensures OnlyCopies(DepayloadAll(xs), DepayloadAll(ps))
    ensures AllArrived(DepayloadAll(xs), DepayloadAll(ps))
  {
    hide Vpx.Depayload, Alike, IsCopy, Arrived;
    var a := DepayloadAll(xs);
    forall x | x in a ensures IsCopy(x, DepayloadAll(ps)) {
      var j :| 0 <= j < |a| && a[j] == x;
      assert xs[j] in xs;
      DepayloadKeepsCopy(xs[j], ps);
    }
    forall i | 0 <= i < |ps| ensures Arrived(a, DepayloadAll(ps)[i]) {
      DepayloadKeepsArrival(xs, ps[i]);
    }
  }

  lemma DepayloadKeepsCopy(x: Packet, ps: seq<Packet>)
    requires IsCopy(x, ps)
    ensures IsCopy(x.(payload := Vpx.Depayload(x.payload)), DepayloadAll(ps))
  {
    hide Vpx.Depayload;
    var i :| 0 <= i < |ps| && Alike(x, ps[i]);
    assert Alike(x.(payload := Vpx.Depayload(x.payload)), DepayloadAll(ps)[i]);
  }

  lemma DepayloadKeepsArrival(xs: seq<Packet>, p: Packet)
    requires Arrived(xs, p)
    ensures Arrived(DepayloadAll(xs), p.(payload := Vpx.Depayload(p.payload)))
  {
    hide Vpx.Depayload;
    var x :| x in xs && Alike(x, p);
    var j :| 0 <= j < |xs| && xs[j] == x;
    assert DepayloadAll(xs)[j] in DepayloadAll(xs);
  }
}
