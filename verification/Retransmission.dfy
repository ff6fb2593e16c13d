/** Retransmission: the ring of recently sent packets, the RTX packet that answers a request (section 4 of RFC 4588),
    and the rewriting that turns it back into the original at the receiver. */
module Retransmission {
  import opened Words
  import opened Rtp

  const HISTORY_SIZE := 128

  /** A sent packet as it is remembered. */
  datatype Entry = Entry(payload: Bytes, num: U16, timestamp: U32)

  // ---------------------------------------------------------------------------------------------
  // The ring

  function Slot(num: U16): (i: nat)
    ensures i < HISTORY_SIZE
  {
    num % HISTORY_SIZE
  }

  function EmptyHistory(): (h: seq<Option<Entry>>)
    ensures |h| == HISTORY_SIZE
  {
    seq(HISTORY_SIZE, _ => None)
  }

  /** The ring after sending `sent` in order. */
  function Filled(sent: seq<Entry>): (h: seq<Option<Entry>>)
    ensures |h| == HISTORY_SIZE
  {
    if sent == [] then EmptyHistory()
    else
      var e := sent[|sent| - 1];
      Filled(sent[..|sent| - 1])[Slot(e.num) := Some(e)]
  }

  /** What a request for `num` finds. */
  function Lookup(h: seq<Option<Entry>>, num: U16): Option<Entry>
    requires |h| == HISTORY_SIZE
  {
    var e := h[Slot(num)];
    if e.Some? && e.value.num == num then e else None
  }

  /** The packets are numbered consecutively after `start`, wrapping at 65535. */
  predicate Consecutive(sent: seq<Entry>, start: U16) {
    forall j :: 0 <= j < |sent| ==> sent[j].num == Low16(start + 1 + j)
  }

  /** Position, negative when there is none, of the last of the first `n` packets whose slot is `i`. */
  function LastInSlot(start: U16, n: nat, i: nat): int
    requires i < HISTORY_SIZE
  {
    n - 1 - (start + n - i) % HISTORY_SIZE
  }

  lemma {:induction false} SlotHoldsLast(sent: seq<Entry>, start: U16, i: nat)
    requires Consecutive(sent, start) && i < HISTORY_SIZE
    ensures var j := LastInSlot(start, |sent|, i);
            j < |sent| && Filled(sent)[i] == if j >= 0 then Some(sent[j]) else None
  {
    if sent == [] {
      StartsEmpty(start, i);
    } else {
      var n := |sent| - 1;
      SlotHoldsLast(sent[..n], start, i);
      LastInSlotStep(start, n, i);
    }
  }

  lemma StartsEmpty(start: U16, i: nat)
    requires i < HISTORY_SIZE
    ensures LastInSlot(start, 0, i) < 0
  {
  }

  lemma SlotOfLow(y: nat)
    ensures Slot(Low16(y)) == y % HISTORY_SIZE
  {
    var q, r := y / 0x1_0000, y % 0x1_0000;
    assert y == 0x1_0000 * q + r;
    SameRest(512 * q + r / HISTORY_SIZE, r % HISTORY_SIZE);
  }

  lemma SameRest(q: int, r: nat)
    requires r < HISTORY_SIZE
    ensures (HISTORY_SIZE * q + r) % HISTORY_SIZE == r
  {
  }

  lemma NextResidue(x: int)
    ensures (x + 1) % HISTORY_SIZE == if x % HISTORY_SIZE == HISTORY_SIZE - 1 then 0 else x % HISTORY_SIZE + 1
  {
  }

  lemma SameResidue(y: int, i: nat)
    requires i < HISTORY_SIZE
    ensures y % HISTORY_SIZE == i <==> (y - i) % HISTORY_SIZE == 0
  {
  }

  lemma LastInSlotStep(start: U16, n: nat, i: nat)
    requires i < HISTORY_SIZE
    ensures LastInSlot(start, n + 1, i) == if Slot(Low16(start + 1 + n)) == i then n else LastInSlot(start, n, i)
    ensures LastInSlot(start, n, i) < n
  {
    var x, y := start + n - i, start + n + 1;
    SlotOfLow(y);
    NextResidue(x);
    SameResidue(y, i);
  }

  /** One of the last 128 packets. */
  predicate Retained(sent: seq<Entry>, j: int) {
    0 <= j < |sent| && j >= |sent| - HISTORY_SIZE
  }

  lemma RetainedIsLast(sent: seq<Entry>, start: U16, j: nat)
    requires Consecutive(sent, start) && Retained(sent, j)
    ensures LastInSlot(start, |sent|, Slot(sent[j].num)) == j
  {
    var n, y := |sent|, start + 1 + j;
    var i := y % HISTORY_SIZE;
    SlotOfLow(y);
    SameRest(y / HISTORY_SIZE, n - 1 - j);
  }

  lemma LastIsRetained(start: U16, n: nat, i: nat)
    requires i < HISTORY_SIZE
    ensures n - HISTORY_SIZE <= LastInSlot(start, n, i) < n
  {
  }

  /** A request is answered exactly when its number is one of the last min(128, sent), and then with that packet. */
  lemma AnsweredIff(sent: seq<Entry>, start: U16, num: U16)
    requires Consecutive(sent, start)
    ensures Lookup(Filled(sent), num).Some? <==> exists j :: Retained(sent, j) && sent[j].num == num
    ensures forall j :: Retained(sent, j) && sent[j].num == num ==> Lookup(Filled(sent), num) == Some(sent[j])
  {
    hide LastInSlot, Filled, Slot;
    var i := Slot(num);
    SlotHoldsLast(sent, start, Slot(num));
    LastIsRetained(start, |sent|, Slot(num));
    var last := LastInSlot(start, |sent|, i);
    forall j | Retained(sent, j) && sent[j].num == num ensures j == last {
      RetainedIsLast(sent, start, j);
    }
    if Lookup(Filled(sent), num).Some? {
      assert Retained(sent, last) && sent[last].num == num;
    }
  }

  // ---------------------------------------------------------------------------------------------
  // The RTX packet

  /** What identifies a stream and its repair stream. */
  datatype Ids = Ids(ssrc: U32, pt: U8, rtxSsrc: U32, rtxPt: U8)

  /** The bytes of the answer: a plain header, the original number, the original payload. */
  function RtxBytes(ids: Ids, e: Entry, rtxNum: U16): Bytes {
    [0x80, ids.rtxPt] + Be16(rtxNum) + Be32(e.timestamp) + Be32(ids.rtxSsrc) + (Be16(e.num) + e.payload)
  }

  /** What those bytes say: the top bit of the repair type ends up as the marker bit. */
  function RtxPacket(ids: Ids, e: Entry, rtxNum: U16): Packet {
    Packet(2, 0, 0, 0, ids.rtxPt / 128, ids.rtxPt % 128, rtxNum, e.timestamp, ids.rtxSsrc, [], 0, [], Be16(e.num) + e.payload)
  }

  /** The original packet, except that the marker bit is not carried. */
  function Original(ids: Ids, e: Entry): Packet {
    Packet(2, 0, 0, 0, 0, ids.pt, e.num, e.timestamp, ids.ssrc, [], 0, [], e.payload)
  }

  /** The receiver's rewriting, driven by the two negotiated maps. */
  function Rewrite(p: Packet, pts: map<U8, U8>, ssrcs: map<U32, U32>): Packet {
    if |p.payload| <= 2 || p.payloadType !in pts || p.ssrc !in ssrcs then p
    else p.(payloadType := pts[p.payloadType], ssrc := ssrcs[p.ssrc], seqNo := Get16(p.payload, 0), payload := p.payload[2..])
  }

  lemma RtxIsAPacket(ids: Ids, e: Entry, rtxNum: U16)
    ensures WellFormed(RtxPacket(ids, e, rtxNum)) && RtxBytes(ids, e, rtxNum) == Serialize(RtxPacket(ids, e, rtxNum))
  {
    hide Be16, Be32;
    var p := RtxPacket(ids, e, rtxNum);
    assert Words32(p.csrcs) == [] && ExtensionBlock(p) == [];
    assert FixedHeader(p) + [] + [] == FixedHeader(p);
    assert FlagByte(p) == 0x80;
    NoPadding(Body(p));
  }

  lemma NoPadding(b: Bytes)
    ensures b + PaddingBlock(0, |b|) == b
  {
  }

  /** The maps say which stream the repair stream belongs to. */
  predicate Knows(ids: Ids, pts: map<U8, U8>, ssrcs: map<U32, U32>) {
    ids.rtxPt in pts && pts[ids.rtxPt] == ids.pt && ids.rtxSsrc in ssrcs && ssrcs[ids.rtxSsrc] == ids.ssrc
  }

  /** Building, parsing and rewriting gives back the original, marker cleared, exactly when its payload is not empty and the
      repair type fits in seven bits. */
  lemma RestoredIff(ids: Ids, e: Entry, rtxNum: U16, pts: map<U8, U8>, ssrcs: map<U32, U32>)
    requires Knows(ids, pts, ssrcs)
    ensures var p := Parse(RtxBytes(ids, e, rtxNum));
            p.Some? && (Rewrite(p.value, pts, ssrcs) == Original(ids, e) <==> e.payload != [] && ids.rtxPt < 128)
  {
    hide RtxBytes, Serialize, Parse, Be16, Get16, WellFormed;
    var p := RtxPacket(ids, e, rtxNum);
    RtxIsAPacket(ids, e, rtxNum);
    ParseOfSerialize(p);
    assert ZeroPadded([]) == [];
    assert p.payload[0..2] == Be16(e.num) && p.payload[2..] == e.payload;
    Get16Reads(p.payload, 0, e.num);
  }

  /** The datagrams that answer the numbers of a request, in turn, and the repair number afterwards. */
  function Answers(ids: Ids, h: seq<Option<Entry>>, nums: seq<U16>, rtxNum: U16): (seq<Bytes>, U16)
    requires |h| == HISTORY_SIZE
  {
    if nums == [] then ([], rtxNum)
    else
      var (out, r) := Answers(ids, h, nums[..|nums| - 1], rtxNum);
      match Lookup(h, nums[|nums| - 1])
      case None => (out, r)
      case Some(e) => (out + [RtxBytes(ids, e, Low16(r + 1))], Low16(r + 1))
  }

  lemma AnswersNothing(ids: Ids, h: seq<Option<Entry>>, rtxNum: U16)
    requires |h| == HISTORY_SIZE
    ensures Answers(ids, h, [], rtxNum) == ([], rtxNum)
  {
  }

  lemma AnswersStep(ids: Ids, h: seq<Option<Entry>>, nums: seq<U16>, i: nat, rtxNum: U16)
    requires |h| == HISTORY_SIZE && i < |nums|
    ensures var (out, r) := Answers(ids, h, nums[..i], rtxNum);
            Answers(ids, h, nums[..i + 1], rtxNum) == match Lookup(h, nums[i])
                                                      case None => (out, r)
                                                      case Some(e) => (out + [RtxBytes(ids, e, Low16(r + 1))], Low16(r + 1))
  {
    assert nums[..i + 1][..i] == nums[..i];
  }

  /** A datagram that answers a request for `num`. */
  predicate IsAnswer(y: Bytes, ids: Ids, h: seq<Option<Entry>>, num: U16)
    requires |h| == HISTORY_SIZE
  {
    Lookup(h, num).Some? && exists r: U16 :: y == RtxBytes(ids, Lookup(h, num).value, r)
  }

  predicate AnswersSome(y: Bytes, ids: Ids, h: seq<Option<Entry>>, nums: seq<U16>)
    requires |h| == HISTORY_SIZE
  {
    exists num :: num in nums && IsAnswer(y, ids, h, num)
  }

  predicate HasAnswer(out: seq<Bytes>, ids: Ids, h: seq<Option<Entry>>, num: U16)
    requires |h| == HISTORY_SIZE
  {
    exists y :: y in out && IsAnswer(y, ids, h, num)
  }

  lemma MoreAnswers(out: seq<Bytes>, y: Bytes, nums: seq<U16>, last: U16, ids: Ids, h: seq<Option<Entry>>)
    requires |h| == HISTORY_SIZE && IsAnswer(y, ids, h, last)
    ensures AnswersSome(y, ids, h, nums + [last]) && HasAnswer(out + [y], ids, h, last)
  {
    hide IsAnswer;
    assert last in nums + [last] && y in out + [y];
  }

  lemma KeepsAnswers(out: seq<Bytes>, more: seq<Bytes>, y: Bytes, nums: seq<U16>, last: U16, ids: Ids, h: seq<Option<Entry>>, num: U16)
    requires |h| == HISTORY_SIZE
    ensures AnswersSome(y, ids, h, nums) ==> AnswersSome(y, ids, h, nums + [last])
    ensures HasAnswer(out, ids, h, num) ==> HasAnswer(out + more, ids, h, num)
  {
    hide IsAnswer;
  }

  /** Every datagram answers a number asked for. */
  lemma {:induction false} AnswersAsked(ids: Ids, h: seq<Option<Entry>>, nums: seq<U16>, rtxNum: U16, y: Bytes)
    requires |h| == HISTORY_SIZE && y in Answers(ids, h, nums, rtxNum).0
    ensures AnswersSome(y, ids, h, nums)
  {
    hide Lookup, RtxBytes, Answers, AnswersSome, IsAnswer;
    if nums == [] {
      AnswersNothing(ids, h, rtxNum);
      assert false;
    } else {
      var n := |nums| - 1;
      var (before, r) := Answers(ids, h, nums[..n], rtxNum);
      AnswersStep(ids, h, nums, n, rtxNum);
      assert nums[..n + 1] == nums == nums[..n] + [nums[n]];
      if y in before {
        AnswersAsked(ids, h, nums[..n], rtxNum, y);
        KeepsAnswers([], [], y, nums[..n], nums[n], ids, h, 0);
      } else {
        NewAnswer(ids, h, nums[n], Low16(r + 1));
        MoreAnswers([], y, nums[..n], nums[n], ids, h);
      }
    }
  }

  /** Every number asked for that is remembered is answered. */
  lemma {:induction false} AskedIsAnswered(ids: Ids, h: seq<Option<Entry>>, nums: seq<U16>, rtxNum: U16, num: U16)
    requires |h| == HISTORY_SIZE && num in nums && Lookup(h, num).Some?
    ensures HasAnswer(Answers(ids, h, nums, rtxNum).0, ids, h, num)
  {
    hide Lookup, RtxBytes, Answers, HasAnswer, IsAnswer;
    var n := |nums| - 1;
    var (before, r) := Answers(ids, h, nums[..n], rtxNum);
    AnswersStep(ids, h, nums, n, rtxNum);
    assert nums[..n + 1] == nums == nums[..n] + [nums[n]];
    if num == nums[n] {
      NewAnswer(ids, h, num, Low16(r + 1));
      MoreAnswers(before, RtxBytes(ids, Lookup(h, num).value, Low16(r + 1)), [], num, ids, h);
    } else {
      AskedIsAnswered(ids, h, nums[..n], rtxNum, num);
      var e := Lookup(h, nums[n]);
      if e.Some? {
        KeepsAnswers(before, [RtxBytes(ids, e.value, Low16(r + 1))], [], [], 0, ids, h, num);
      }
    }
  }

  lemma NewAnswer(ids: Ids, h: seq<Option<Entry>>, num: U16, r: U16)
    requires |h| == HISTORY_SIZE
    ensures Lookup(h, num).Some? ==> IsAnswer(RtxBytes(ids, Lookup(h, num).value, r), ids, h, num)
  {
  }

  // ---------------------------------------------------------------------------------------------
  // A sending stream

  class Stream {
    const ids: Ids
    var num: U16
    var rtxNum: U16
    const history: array<Option<Entry>>
    ghost const start: U16
    ghost var sent: seq<Entry>

    ghost predicate Valid()
      reads this, history
    {
      && history.Length == HISTORY_SIZE && history[..] == Filled(sent)
      && Consecutive(sent, start) && num == Low16(start + |sent|)
    }

    constructor (ids: Ids, first: U16)
      ensures Valid() && sent == [] && num == first && this.ids == ids && fresh(history)
    {
      this.ids, num, rtxNum, start, sent := ids, first, 0, first, [];
      history := new Option<Entry>[HISTORY_SIZE](_ => None);
      new;
      LowSelf(first);
      assert history[..] == EmptyHistory();
    }

    /** Numbers one payload and remembers it. */
    method Send(payload: Bytes, timestamp: U32) returns (n: U16)
      requires Valid()
      modifies this, history
      ensures Valid() && n == num == Low16(old(num) + 1) && rtxNum == old(rtxNum)
      ensures sent == old(sent) + [Entry(payload, n, timestamp)]
    {
      hide Low16;
      LowAdd(start + |sent|, 1);
      num := Low16(num + 1);
      n := num;
      var e := Entry(payload, n, timestamp);
      history[Slot(n)] := Some(e);
      sent := sent + [e];
      assert sent[..|sent| - 1] == old(sent);
    }

    /** Answers the numbers of a request, in turn. */
    method AnswerAll(nums: seq<U16>) returns (out: seq<Bytes>)
      requires Valid()
      modifies `rtxNum
      ensures Valid() && (out, rtxNum) == Answers(ids, Filled(sent), nums, old(rtxNum))
    {
      hide Lookup, Filled, Retained, Answers;
      out := [];
      AnswersNothing(ids, Filled(sent), rtxNum);
      for i := 0 to |nums|
        invariant Valid() && (out, rtxNum) == Answers(ids, Filled(sent), nums[..i], old(rtxNum))
      {
        AnswersStep(ids, Filled(sent), nums, i, old(rtxNum));
        var rtx := Answer(nums[i]);
        if rtx.Some? {
          out := out + [rtx.value];
        }
      }
      assert nums[..|nums|] == nums;
    }

    /** Answers a request for `n`, if the packet is still remembered. */
    method Answer(n: U16) returns (rtx: Option<Bytes>)
      requires Valid()
      modifies `rtxNum
      ensures Valid()
      ensures rtx.Some? <==> exists j :: Retained(sent, j) && sent[j].num == n
      ensures forall j :: Retained(sent, j) && sent[j].num == n ==> rtx == Some(RtxBytes(ids, sent[j], rtxNum))
      ensures rtxNum == if rtx.Some? then Low16(old(rtxNum) + 1) else old(rtxNum)
      ensures rtx == match Lookup(Filled(sent), n)
                     case None => None
                     case Some(e) => Some(RtxBytes(ids, e, rtxNum))
    {
      hide Filled, RtxBytes, Low16;
      AnsweredIff(sent, start, n);
      var e := history[Slot(n)];
      if e.Some? && e.value.num == n {
        rtxNum := Low16(rtxNum + 1);
        return Some(RtxBytes(ids, e.value, rtxNum));
      }
      rtx := None;
    }
  }
}
