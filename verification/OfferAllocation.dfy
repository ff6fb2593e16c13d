/** Which media section an offer puts where: kept sections stay, dead ones are reused, the rest are appended. */
module OfferAllocation {

  import opened Words
  import opened Session

  // ---------------------------------------------------------------------------------------------
  // The plan

  datatype Slot = Held(k: nat) | Sctp | Gap

  /** A section of the new offer; an empty mid is still to be chosen. */
  datatype Entry = Entry(slot: Slot, index: nat, mid: string)

  /** Every section has a mid of its own. */
  predicate Tidy(lines: seq<Media>) {
    (forall i :: 0 <= i < |lines| ==> lines[i].mid != "")
    && forall i, j :: 0 <= i < j < |lines| ==> lines[i].mid != lines[j].mid
  }

  predicate NoApplication(lines: seq<Media>) {
    forall i :: 0 <= i < |lines| ==> lines[i].what != Application
  }

  /** The first of `trs[..k]` that has this mid. */
  function Keeper(trs: seq<Tr>, k: nat, mid: string): (r: Option<nat>)
    requires k <= |trs|
    ensures r.Some? ==> r.value < k && trs[r.value].mid == mid && forall x :: 0 <= x < r.value ==> trs[x].mid != mid
    ensures r.None? ==> forall x :: 0 <= x < k ==> trs[x].mid != mid
  {
    if k == 0 then None
    else
      var r := Keeper(trs, k - 1, mid);
      if r.Some? then r else if trs[k - 1].mid == mid then Some(k - 1) else None
  }

  predicate Kept(lines: seq<Media>, trs: seq<Tr>, i: nat)
    requires i < |lines|
  {
    Keeper(trs, |trs|, lines[i].mid).Some?
  }

  /** A dead section that no transceiver holds. */
  predicate Recyclable(lines: seq<Media>, trs: seq<Tr>, i: nat)
    requires i < |lines|
  {
    lines[i].port == 0 && !Kept(lines, trs, i)
  }

  /** Number of recyclable sections before `i`. */
  function RecyclableBefore(lines: seq<Media>, trs: seq<Tr>, i: nat): (c: nat)
    requires i <= |lines|
    ensures c <= i
  {
    if i == 0 then 0 else RecyclableBefore(lines, trs, i - 1) + if Recyclable(lines, trs, i - 1) then 1 else 0
  }

  predicate IsNew(t: Tr) {
    t.mid == "" && !t.stopped
  }

  /** What needs a section of its own, in the order it is given one. */
  function Requests(trs: seq<Tr>, k: nat, needSctp: bool): seq<Slot>
    requires k <= |trs|
  {
    if k == 0 then if needSctp then [Sctp] else []
    else Requests(trs, k - 1, needSctp) + if IsNew(trs[k - 1]) then [Held(k - 1)] else []
  }

  function Total(lines: seq<Media>, trs: seq<Tr>, needSctp: bool): (n: nat)
    ensures n >= |lines|
  {
    |lines| + Max(0, |Requests(trs, |trs|, needSctp)| - RecyclableBefore(lines, trs, |lines|))
  }

  /** The section at `i`: held by the transceiver with its mid, reused or appended for a request, or carried over dead. */
  function EntryAt(lines: seq<Media>, trs: seq<Tr>, needSctp: bool, i: nat): (e: Entry)
    requires i < Total(lines, trs, needSctp)
    ensures e.index == i
  {
    var requests := Requests(trs, |trs|, needSctp);
    if i < |lines| then
      if Kept(lines, trs, i) then Entry(Held(Keeper(trs, |trs|, lines[i].mid).value), i, lines[i].mid)
      else if Recyclable(lines, trs, i) && RecyclableBefore(lines, trs, i) < |requests| then
        Entry(requests[RecyclableBefore(lines, trs, i)], i, "")
      else Entry(Gap, i, lines[i].mid)
    else Entry(requests[RecyclableBefore(lines, trs, |lines|) + i - |lines|], i, "")
  }

  function Plan(lines: seq<Media>, trs: seq<Tr>, needSctp: bool): (p: seq<Entry>)
    ensures |p| == Total(lines, trs, needSctp) && forall i :: 0 <= i < |p| ==> p[i].index == i
  {
    seq(Total(lines, trs, needSctp), i requires 0 <= i < Total(lines, trs, needSctp) => EntryAt(lines, trs, needSctp, i))
  }

  // ---------------------------------------------------------------------------------------------
  // What the plan guarantees

  lemma RequestsStep(trs: seq<Tr>, k: nat, needSctp: bool)
    requires 0 < k <= |trs|
    ensures var q, r := Requests(trs, k - 1, needSctp), Requests(trs, k, needSctp);
            if IsNew(trs[k - 1]) then r == q + [Held(k - 1)] else r == q
  {
  }

  /** Request `j` is the data channel's, when it comes first, or that of a new transceiver. */
  lemma {:induction false} RequestHas(trs: seq<Tr>, k: nat, needSctp: bool, j: nat)
    requires k <= |trs| && j < |Requests(trs, k, needSctp)|
    ensures var slot := Requests(trs, k, needSctp)[j];
            if j == 0 && needSctp then slot == Sctp else slot.Held? && slot.k < k && IsNew(trs[slot.k])
  {
    if k > 0 {
      RequestsStep(trs, k, needSctp);
      hide Requests;
      if j < |Requests(trs, k - 1, needSctp)| {
        RequestHas(trs, k - 1, needSctp, j);
      } else if needSctp {
        SctpIsFirst(trs, k - 1);
      }
    }
  }

  lemma {:induction false} SctpIsFirst(trs: seq<Tr>, k: nat)
    requires k <= |trs|
    ensures |Requests(trs, k, true)| > 0 && Requests(trs, k, true)[0] == Sctp
  {
    if k > 0 {
      SctpIsFirst(trs, k - 1);
    }
  }

  /** Transceivers are served in their order. */
  lemma {:induction false} RequestsInOrder(trs: seq<Tr>, k: nat, needSctp: bool, i: nat, j: nat)
    requires k <= |trs| && i < j < |Requests(trs, k, needSctp)| && Requests(trs, k, needSctp)[i].Held?
    ensures Requests(trs, k, needSctp)[j].Held? && Requests(trs, k, needSctp)[i].k < Requests(trs, k, needSctp)[j].k
  {
    if k > 0 {
      RequestsStep(trs, k, needSctp);
      hide Requests;
      if j < |Requests(trs, k - 1, needSctp)| {
        RequestsInOrder(trs, k - 1, needSctp, i, j);
      } else {
        RequestHas(trs, k - 1, needSctp, i);
      }
    }
  }

  /** Different requests are for different slots. */
  lemma RequestsDiffer(trs: seq<Tr>, needSctp: bool, i: nat, j: nat)
    requires i < j < |Requests(trs, |trs|, needSctp)|
    ensures Requests(trs, |trs|, needSctp)[i] != Requests(trs, |trs|, needSctp)[j]
  {
    hide Requests;
    RequestHas(trs, |trs|, needSctp, j);
    if Requests(trs, |trs|, needSctp)[i].Held? {
      RequestsInOrder(trs, |trs|, needSctp, i, j);
    }
  }

  /** Every new transceiver asks. */
  lemma {:induction false} RequestOf(trs: seq<Tr>, k: nat, needSctp: bool, x: nat) returns (j: nat)
    requires x < k <= |trs| && IsNew(trs[x])
    ensures j < |Requests(trs, k, needSctp)| && Requests(trs, k, needSctp)[j] == Held(x)
  {
    RequestsStep(trs, k, needSctp);
    hide Requests;
    if x == k - 1 {
      j := |Requests(trs, k - 1, needSctp)|;
    } else {
      j := RequestOf(trs, k - 1, needSctp, x);
    }
  }

  lemma {:induction false} RequestsFit(trs: seq<Tr>, k: nat, needSctp: bool)
    requires k <= |trs|
    ensures |Requests(trs, k, needSctp)| <= k + 1
  {
    if k > 0 {
      RequestsFit(trs, k - 1, needSctp);
    }
  }

  lemma TotalFits(lines: seq<Media>, trs: seq<Tr>, needSctp: bool)
    ensures Total(lines, trs, needSctp) <= |lines| + |trs| + 1
  {
    RequestsFit(trs, |trs|, needSctp);
  }

  lemma {:induction false} RequestsGrow(trs: seq<Tr>, k: nat, m: nat, needSctp: bool)
    requires k <= m <= |trs|
    ensures Requests(trs, k, needSctp) <= Requests(trs, m, needSctp)
  {
    if k < m {
      RequestsGrow(trs, k, m - 1, needSctp);
    }
  }

  lemma {:induction false} RecyclableGrows(lines: seq<Media>, trs: seq<Tr>, i: nat, j: nat)
    requires i <= j <= |lines|
    ensures RecyclableBefore(lines, trs, i) <= RecyclableBefore(lines, trs, j)
    ensures i < j && Recyclable(lines, trs, i) ==> RecyclableBefore(lines, trs, i) < RecyclableBefore(lines, trs, j)
  {
    if i < j {
      RecyclableGrows(lines, trs, i, j - 1);
    }
  }

  /** Every count below the one at `i` is the count at an earlier recyclable section. */
  lemma {:induction false} RecyclableReached(lines: seq<Media>, trs: seq<Tr>, i: nat, c: nat) returns (x: nat)
    requires i <= |lines| && c < RecyclableBefore(lines, trs, i)
    ensures x < i && Recyclable(lines, trs, x) && RecyclableBefore(lines, trs, x) == c
  {
    if c == RecyclableBefore(lines, trs, i - 1) {
      x := i - 1;
    } else {
      x := RecyclableReached(lines, trs, i - 1, c);
    }
  }

  /** A request's place in the plan. */
  predicate PlacedAt(lines: seq<Media>, trs: seq<Tr>, needSctp: bool, j: nat, i: nat) {
    i < Total(lines, trs, needSctp)
    && if i < |lines| then Recyclable(lines, trs, i) && RecyclableBefore(lines, trs, i) == j
       else RecyclableBefore(lines, trs, |lines|) + i - |lines| == j
  }

  lemma RequestIsPlaced(lines: seq<Media>, trs: seq<Tr>, needSctp: bool, j: nat) returns (i: nat)
    requires j < |Requests(trs, |trs|, needSctp)|
    ensures PlacedAt(lines, trs, needSctp, j, i)
    ensures EntryAt(lines, trs, needSctp, i) == Entry(Requests(trs, |trs|, needSctp)[j], i, "")
  {
    if j < RecyclableBefore(lines, trs, |lines|) {
      i := RecyclableReached(lines, trs, |lines|, j);
    } else {
      i := |lines| + j - RecyclableBefore(lines, trs, |lines|);
    }
  }

  lemma RequestIs(trs: seq<Tr>, needSctp: bool, j: nat)
    requires j < |Requests(trs, |trs|, needSctp)|
    ensures var slot := Requests(trs, |trs|, needSctp)[j];
            if j == 0 && needSctp then slot == Sctp else slot.Held? && slot.k < |trs| && IsNew(trs[slot.k])
  {
    RequestHas(trs, |trs|, needSctp, j);
  }

  /** In the plan, kept sections stay where they are and requests take the lowest dead sections first
      (section 5.2.2 of RFC 8829). */
  lemma PlanIsSound(lines: seq<Media>, trs: seq<Tr>, needSctp: bool, i: nat)
    requires Tidy(lines) && i < Total(lines, trs, needSctp)
    ensures var p := Plan(lines, trs, needSctp);
            && (i < |lines| && Kept(lines, trs, i) ==> p[i].slot.Held? && p[i].mid == lines[i].mid)
            && (p[i].slot == Gap ==> i < |lines| && p[i].mid == lines[i].mid && !Kept(lines, trs, i))
            && (p[i].slot == Sctp ==> needSctp && p[i].mid == "" && (i < |lines| ==> Recyclable(lines, trs, i)))
            && (p[i].slot.Held? ==>
                  var k := p[i].slot.k;
                  k < |trs| && p[i].mid == trs[k].mid
                  && if trs[k].mid == "" then !trs[k].stopped && (i < |lines| ==> Recyclable(lines, trs, i))
                     else i < |lines| && lines[i].mid == trs[k].mid)
            && (p[i].slot != Gap && (i < |lines| ==> !Kept(lines, trs, i)) ==>
                  forall j :: 0 <= j < i && j < |lines| && Recyclable(lines, trs, j) ==> p[j].slot != Gap)
  {
    hide RecyclableBefore, Requests, Keeper;
    assert Plan(lines, trs, needSctp)[i] == EntryAt(lines, trs, needSctp, i);
    if i >= |lines| {
      RequestIs(trs, needSctp, RecyclableBefore(lines, trs, |lines|) + i - |lines|);
      LowestFirst(lines, trs, needSctp, i);
    } else if !Kept(lines, trs, i) && Recyclable(lines, trs, i)
              && RecyclableBefore(lines, trs, i) < |Requests(trs, |trs|, needSctp)| {
      RequestIs(trs, needSctp, RecyclableBefore(lines, trs, i));
      LowestFirst(lines, trs, needSctp, i);
    }
  }

  lemma LowestFirst(lines: seq<Media>, trs: seq<Tr>, needSctp: bool, i: nat)
    requires i < Total(lines, trs, needSctp)
    requires i < |lines| ==> !Kept(lines, trs, i) && RecyclableBefore(lines, trs, i) < |Requests(trs, |trs|, needSctp)|
    ensures forall j :: 0 <= j < i && j < |lines| && Recyclable(lines, trs, j) ==> Plan(lines, trs, needSctp)[j].slot != Gap
  {
    hide RecyclableBefore, Requests, Keeper;
    RecyclableIsMonotone(lines, trs);
    forall j | 0 <= j < i && j < |lines| && Recyclable(lines, trs, j) ensures Plan(lines, trs, needSctp)[j].slot != Gap {
      assert Plan(lines, trs, needSctp)[j] == EntryAt(lines, trs, needSctp, j);
      RequestIs(trs, needSctp, RecyclableBefore(lines, trs, j));
    }
  }

  /** The request served at `i`, when one is. */
  function RequestAt(lines: seq<Media>, trs: seq<Tr>, i: nat): nat
    requires i < |lines| || RecyclableBefore(lines, trs, |lines|) + i >= |lines|
  {
    if i < |lines| then RecyclableBefore(lines, trs, i) else RecyclableBefore(lines, trs, |lines|) + i - |lines|
  }

  lemma EntryIs(lines: seq<Media>, trs: seq<Tr>, needSctp: bool, i: nat)
    requires Tidy(lines) && i < Total(lines, trs, needSctp)
    ensures var e, requests := Plan(lines, trs, needSctp)[i], Requests(trs, |trs|, needSctp);
            && (e.slot == Gap || (e.slot.Held? && e.slot.k < |trs| && trs[e.slot.k].mid != "" && i < |lines|
                                  && trs[e.slot.k].mid == lines[i].mid)
                || ((i < |lines| ==> Recyclable(lines, trs, i)) && RequestAt(lines, trs, i) < |requests|
                    && e.slot == requests[RequestAt(lines, trs, i)] && (e.slot.Held? ==> e.slot.k < |trs| && trs[e.slot.k].mid == "")))
  {
    hide RecyclableBefore, Requests, Keeper;
    assert Plan(lines, trs, needSctp)[i] == EntryAt(lines, trs, needSctp, i);
    if i >= |lines| || (!Kept(lines, trs, i) && Recyclable(lines, trs, i)
                        && RecyclableBefore(lines, trs, i) < |Requests(trs, |trs|, needSctp)|) {
      RequestIs(trs, needSctp, RequestAt(lines, trs, i));
    }
  }

  /** Nothing is placed twice. */
  lemma PlacedOnce(lines: seq<Media>, trs: seq<Tr>, needSctp: bool, i: nat, j: nat)
    requires Tidy(lines) && i < j < Total(lines, trs, needSctp) && Plan(lines, trs, needSctp)[i].slot != Gap
    ensures Plan(lines, trs, needSctp)[i].slot != Plan(lines, trs, needSctp)[j].slot
  {
    hide RecyclableBefore, Requests, Keeper, Plan;
    EntryIs(lines, trs, needSctp, i);
    EntryIs(lines, trs, needSctp, j);
    RecyclableIsMonotone(lines, trs);
    if (i < |lines| ==> Recyclable(lines, trs, i)) && (j < |lines| ==> Recyclable(lines, trs, j)) {
      assert RequestAt(lines, trs, i) < RequestAt(lines, trs, j);
      if RequestAt(lines, trs, j) < |Requests(trs, |trs|, needSctp)| {
        RequestsDiffer(trs, needSctp, RequestAt(lines, trs, i), RequestAt(lines, trs, j));
      }
    }
  }

  lemma RecyclableIsMonotone(lines: seq<Media>, trs: seq<Tr>)
    ensures forall i, j :: 0 <= i < j <= |lines| ==> RecyclableBefore(lines, trs, i) <= RecyclableBefore(lines, trs, j)
    ensures forall i, j :: 0 <= i < j <= |lines| && Recyclable(lines, trs, i) ==>
                             RecyclableBefore(lines, trs, i) < RecyclableBefore(lines, trs, j)
  {
    forall i, j | 0 <= i < j <= |lines|
      ensures RecyclableBefore(lines, trs, i) <= RecyclableBefore(lines, trs, j)
      ensures Recyclable(lines, trs, i) ==> RecyclableBefore(lines, trs, i) < RecyclableBefore(lines, trs, j)
    {
      RecyclableGrows(lines, trs, i, j);
    }
  }

  predicate HasMid(trs: seq<Tr>, mid: string) {
    exists k :: 0 <= k < |trs| && trs[k].mid == mid
  }

  /** A section that was refused or rejected and that nobody claims any more. */
  predicate Free(lines: seq<Media>, trs: seq<Tr>, i: nat)
    requires i < |lines|
  {
    lines[i].port == 0 && !HasMid(trs, lines[i].mid)
  }

  /** The section was asked for: by the data channel, when one is wanted, or by a new transceiver; it has no mid yet. */
  predicate IsRequested(e: Entry, trs: seq<Tr>, needSctp: bool) {
    && e.mid == ""
    && if e.slot.Held? then e.slot.k < |trs| && trs[e.slot.k].mid == "" && !trs[e.slot.k].stopped else e.slot == Sctp && needSctp
  }

  /** The data channel is served first, then the transceivers in their order. */
  predicate ServedBefore(a: Slot, b: Slot) {
    b.Held? && (a == Sctp || (a.Held? && a.k < b.k))
  }

  /** Every entry of the plan: a section whose mid a transceiver has is that transceiver's, the first one's if there are
      several; a live section nobody has is carried over; a free one is given to a request or carried over; and what is
      appended was asked for (section 5.2.2 of RFC 8829). */
  lemma PlanIsExact(lines: seq<Media>, trs: seq<Tr>, needSctp: bool, i: nat)
    requires Tidy(lines) && i < Total(lines, trs, needSctp)
    ensures var e := Plan(lines, trs, needSctp)[i];
            if i >= |lines| then IsRequested(e, trs, needSctp)
            else if HasMid(trs, lines[i].mid) then
              && e.slot.Held? && e.mid == lines[i].mid && e.slot.k < |trs| && trs[e.slot.k].mid == lines[i].mid
              && forall x :: 0 <= x < e.slot.k ==> trs[x].mid != lines[i].mid
            else e == Entry(Gap, i, lines[i].mid) || (Free(lines, trs, i) && IsRequested(e, trs, needSctp))
  {
    hide RecyclableBefore, Requests;
    assert Plan(lines, trs, needSctp)[i] == EntryAt(lines, trs, needSctp, i);
    PlanIsSound(lines, trs, needSctp, i);
    hide Plan, Total;
    if i < |lines| {
      var keeper := Keeper(trs, |trs|, lines[i].mid);
      hide Keeper;
      assert HasMid(trs, lines[i].mid) <==> keeper.Some?;
    }
  }

  /** Requests are served in order, and take every free section before a later one or one that is appended. */
  lemma RequestsAreServedInOrder(lines: seq<Media>, trs: seq<Tr>, needSctp: bool, i: nat, j: nat)
    requires Tidy(lines) && i < j < Total(lines, trs, needSctp) && IsRequested(Plan(lines, trs, needSctp)[j], trs, needSctp)
    ensures i < |lines| && Free(lines, trs, i) ==> IsRequested(Plan(lines, trs, needSctp)[i], trs, needSctp)
    ensures IsRequested(Plan(lines, trs, needSctp)[i], trs, needSctp) ==>
              ServedBefore(Plan(lines, trs, needSctp)[i].slot, Plan(lines, trs, needSctp)[j].slot)
  {
    hide RecyclableBefore, Requests, Keeper, Plan;
    PlanIsExact(lines, trs, needSctp, i);
    PlanIsExact(lines, trs, needSctp, j);
    PlanIsSound(lines, trs, needSctp, j);
    EntryIs(lines, trs, needSctp, i);
    EntryIs(lines, trs, needSctp, j);
    RecyclableIsMonotone(lines, trs);
    KeptIff(lines, trs);
    if IsRequested(Plan(lines, trs, needSctp)[i], trs, needSctp) {
      var a, b := RequestAt(lines, trs, i), RequestAt(lines, trs, j);
      assert a < b < |Requests(trs, |trs|, needSctp)|;
      RequestIs(trs, needSctp, a);
      RequestIs(trs, needSctp, b);
      if Requests(trs, |trs|, needSctp)[a].Held? {
        RequestsInOrder(trs, |trs|, needSctp, a, b);
      }
    }
  }

  lemma KeptIff(lines: seq<Media>, trs: seq<Tr>)
    ensures forall i :: 0 <= i < |lines| ==> (Kept(lines, trs, i) <==> HasMid(trs, lines[i].mid))
    ensures forall i :: 0 <= i < |lines| ==> (Recyclable(lines, trs, i) <==> Free(lines, trs, i))
  {
    forall i | 0 <= i < |lines| ensures Kept(lines, trs, i) <==> HasMid(trs, lines[i].mid) {
      var keeper := Keeper(trs, |trs|, lines[i].mid);
      if keeper.Some? {
        assert trs[keeper.value].mid == lines[i].mid;
      }
    }
  }

  /** Every transceiver that is new, and the data channel when one is wanted, has its section. */
  lemma EveryRequestIsPlaced(lines: seq<Media>, trs: seq<Tr>, needSctp: bool, slot: Slot) returns (i: nat)
    requires if slot.Held? then slot.k < |trs| && trs[slot.k].mid == "" && !trs[slot.k].stopped else slot == Sctp && needSctp
    ensures i < Total(lines, trs, needSctp) && Plan(lines, trs, needSctp)[i] == Entry(slot, i, "")
  {
    hide RecyclableBefore, Requests, Keeper;
    var j := 0;
    if slot.Held? {
      j := RequestOf(trs, |trs|, needSctp, slot.k);
    } else {
      SctpIsFirst(trs, |trs|);
    }
    i := RequestIsPlaced(lines, trs, needSctp, j);
  }

  // ---------------------------------------------------------------------------------------------
  // The loops

  ghost function IndexSet(entries: seq<Entry>): set<nat> {
    set e | e in entries :: e.index
  }

  ghost predicate Distinct(entries: seq<Entry>) {
    forall i, j :: 0 <= i < j < |entries| ==> entries[i].index != entries[j].index
  }

  /** The sections `done` are exactly those entered so far, each once and as planned. */
  ghost predicate Entered(lines: seq<Media>, trs: seq<Tr>, needSctp: bool, entries: seq<Entry>, done: set<nat>) {
    Distinct(entries) && IndexSet(entries) == done
    && forall e :: e in entries ==> e.index < Total(lines, trs, needSctp) && e == EntryAt(lines, trs, needSctp, e.index)
  }

  /** The mids still without an entry are those of the sections not done. */
  ghost predicate Pending(lines: seq<Media>, mids: map<string, nat>, done: set<nat>) {
    (forall m :: m in mids ==> mids[m] < |lines| && lines[mids[m]].mid == m)
    && forall i :: 0 <= i < |lines| ==> (lines[i].mid in mids <==> i !in done)
  }

  /** What stays true for every description: the maps only name sections that exist. */
  ghost predicate InRange(lines: seq<Media>, mids: map<string, nat>, recyclable: set<nat>) {
    (forall m :: m in mids ==> mids[m] < |lines| && lines[mids[m]].mid == m)
    && forall i :: i in recyclable ==> i < |lines| && lines[i].what != Application
  }

  /** A section for data channels keeps its place among the pending mids. */
  ghost predicate SctpPending(lines: seq<Media>, mids: map<string, nat>, sctpIndex: Option<nat>) {
    sctpIndex.Some? ==> sctpIndex.value < |lines| && lines[sctpIndex.value].what == Application
                        && lines[sctpIndex.value].mid in mids && mids[lines[sctpIndex.value].mid] == sctpIndex.value
  }

  /** Entries name sections and transceivers that exist. */
  predicate Sane(entries: seq<Entry>, lines: nat, transceivers: nat) {
    forall e :: e in entries ==> (e.slot == Gap ==> e.index < lines) && (e.slot.Held? ==> e.slot.k < transceivers)
  }

  lemma EnterOne(lines: seq<Media>, trs: seq<Tr>, needSctp: bool, entries: seq<Entry>, done: set<nat>, e: Entry)
    requires Entered(lines, trs, needSctp, entries, done) && e.index !in done
    requires e.index < Total(lines, trs, needSctp) && e == EntryAt(lines, trs, needSctp, e.index)
    ensures Entered(lines, trs, needSctp, entries + [e], done + {e.index})
  {
    hide EntryAt, Total;
    assert IndexSet(entries + [e]) == IndexSet(entries) + {e.index} by {
      forall x | x in IndexSet(entries) + {e.index} ensures x in IndexSet(entries + [e]) {
        if x == e.index {
          assert e in entries + [e];
        } else {
          var f :| f in entries && f.index == x;
          assert f in entries + [e];
        }
      }
    }
    forall i | 0 <= i < |entries| ensures entries[i].index != e.index {
      assert entries[i].index in IndexSet(entries);
    }
  }

  /** What the first `i` sections put into the maps. */
  ghost predicate ReadSoFar(lines: seq<Media>, i: nat, mids: map<string, nat>, recyclable: set<nat>, sctpIndex: Option<nat>)
    requires i <= |lines|
  {
    InRange(lines, mids, recyclable) && (forall x :: x in recyclable ==> x < i) && (forall m :: m in mids ==> mids[m] < i)
    && (Tidy(lines) ==> forall x :: 0 <= x < i ==> lines[x].mid in mids && mids[lines[x].mid] == x)
    && (sctpIndex.Some? ==> sctpIndex.value < i && lines[sctpIndex.value].what == Application)
    && (Tidy(lines) && sctpIndex.None? ==>
          forall x :: 0 <= x < i ==> lines[x].what != Application && (x in recyclable <==> lines[x].port == 0))
  }

  lemma ReadOne(lines: seq<Media>, i: nat, mids: map<string, nat>, recyclable: set<nat>, sctpIndex: Option<nat>)
    requires i < |lines| && ReadSoFar(lines, i, mids, recyclable, sctpIndex)
    ensures var m := lines[i];
            if m.mid == "" then ReadSoFar(lines, i + 1, mids, recyclable, sctpIndex)
            else ReadSoFar(lines, i + 1, mids[m.mid := i],
                           if m.what != Application && m.port == 0 then recyclable + {i} else recyclable,
                           if m.what == Application then Some(i) else sctpIndex)
  {
  }

  lemma ReadAll(lines: seq<Media>, mids: map<string, nat>, recyclable: set<nat>, sctpIndex: Option<nat>)
    requires ReadSoFar(lines, |lines|, mids, recyclable, sctpIndex)
    ensures InRange(lines, mids, recyclable) && (sctpIndex.Some? ==> sctpIndex.value < |lines|)
    ensures Tidy(lines) ==> SctpPending(lines, mids, sctpIndex) && (sctpIndex.None? <==> NoApplication(lines))
    ensures Tidy(lines) && NoApplication(lines) ==>
              Pending(lines, mids, {}) && forall i :: 0 <= i < |lines| ==> (i in recyclable <==> lines[i].port == 0)
  {
  }

  /** Every mid of the first `i` sections leads to the last section that has it. */
  ghost predicate MidsRead(lines: seq<Media>, i: nat, mids: map<string, nat>)
    requires i <= |lines|
  {
    && (forall x :: 0 <= x < i && lines[x].mid != "" ==> lines[x].mid in mids)
    && forall m :: m in mids ==> m != "" && mids[m] < i && lines[mids[m]].mid == m && forall x :: mids[m] < x < i ==> lines[x].mid != m
  }

  predicate NamedDead(m: Media) {
    m.mid != "" && m.what != Application && m.port == 0
  }

  predicate NamedSctp(m: Media) {
    m.mid != "" && m.what == Application
  }

  /** The dead ones are the named media sections with port 0; the data channel's is the last named application section. */
  ghost predicate KindsRead(lines: seq<Media>, i: nat, recyclable: set<nat>, sctpIndex: Option<nat>)
    requires i <= |lines|
  {
    && (forall x :: x in recyclable <==> 0 <= x < i && NamedDead(lines[x]))
    && (sctpIndex.Some? ==> sctpIndex.value < i && NamedSctp(lines[sctpIndex.value]))
    && forall x :: 0 <= x < i && NamedSctp(lines[x]) ==> sctpIndex.Some? && x <= sctpIndex.value
  }

  lemma MidsReadOne(lines: seq<Media>, i: nat, mids: map<string, nat>)
    requires i < |lines| && MidsRead(lines, i, mids)
    ensures MidsRead(lines, i + 1, if lines[i].mid == "" then mids else mids[lines[i].mid := i])
  {
    var next := if lines[i].mid == "" then mids else mids[lines[i].mid := i];
    forall m | m in next
      ensures m != "" && next[m] <= i && lines[next[m]].mid == m && forall x :: next[m] < x <= i ==> lines[x].mid != m
    {
      if m != lines[i].mid {
        assert m in mids && next[m] == mids[m];
      }
    }
  }

  lemma KindsReadOne(lines: seq<Media>, i: nat, recyclable: set<nat>, sctpIndex: Option<nat>)
    requires i < |lines| && KindsRead(lines, i, recyclable, sctpIndex)
    ensures KindsRead(lines, i + 1, if NamedDead(lines[i]) then recyclable + {i} else recyclable,
                      if NamedSctp(lines[i]) then Some(i) else sctpIndex)
  {
    hide NamedDead, NamedSctp;
  }

  lemma ReadNone(lines: seq<Media>)
    ensures ReadSoFar(lines, 0, map[], {}, None) && MidsRead(lines, 0, map[]) && KindsRead(lines, 0, {}, None)
  {
  }

  lemma NamedKinds(m: Media)
    ensures NamedSctp(m) <==> m.mid != "" && m.what == Application
    ensures NamedDead(m) <==> m.mid != "" && m.what != Application && m.port == 0
  {
  }

  method ReadLines(lines: seq<Media>) returns (mids: map<string, nat>, recyclable: set<nat>, sctpIndex: Option<nat>)
    ensures MidsRead(lines, |lines|, mids) && KindsRead(lines, |lines|, recyclable, sctpIndex)
    ensures InRange(lines, mids, recyclable) && |mids| <= |lines| && (sctpIndex.Some? ==> sctpIndex.value < |lines|)
    ensures Tidy(lines) ==> SctpPending(lines, mids, sctpIndex) && (sctpIndex.None? <==> NoApplication(lines))
    ensures Tidy(lines) && NoApplication(lines) ==>
              Pending(lines, mids, {}) && forall i :: 0 <= i < |lines| ==> (i in recyclable <==> lines[i].port == 0)
  {
    mids, recyclable, sctpIndex := map[], {}, None;
    ReadNone(lines);
    hide ReadSoFar, MidsRead, KindsRead, InRange, Pending, Tidy, NoApplication, SctpPending, NamedDead, NamedSctp;
    var i := 0;
    while i < |lines|
      invariant 0 <= i <= |lines| && |mids| <= i && ReadSoFar(lines, i, mids, recyclable, sctpIndex)
      invariant MidsRead(lines, i, mids) && KindsRead(lines, i, recyclable, sctpIndex)
    {
      ReadOne(lines, i, mids, recyclable, sctpIndex);
      MidsReadOne(lines, i, mids);
      KindsReadOne(lines, i, recyclable, sctpIndex);
      var m := lines[i];
      NamedKinds(m);
      if m.mid != "" {
        AddMid(mids, m.mid, i);
        mids := mids[m.mid := i];
        if m.what == Application {
          sctpIndex := Some(i);
        } else if m.port == 0 {
          recyclable := recyclable + {i};
        }
      }
      i := i + 1;
    }
    ReadAll(lines, mids, recyclable, sctpIndex);
  }

  lemma AddMid(mids: map<string, nat>, mid: string, i: nat)
    ensures |mids[mid := i]| <= |mids| + 1
  {
    assert mids[mid := i].Keys == mids.Keys + {mid};
  }

  lemma DropMid(mids: map<string, nat>, mid: string)
    requires mid in mids
    ensures |mids - {mid}| == |mids| - 1
  {
    assert (mids - {mid}).Keys == mids.Keys - {mid};
  }

  lemma SaneStep(entries: seq<Entry>, e: Entry, lines: nat, transceivers: nat)
    requires Sane(entries, lines, transceivers) && (e.slot == Gap ==> e.index < lines) && (e.slot.Held? ==> e.slot.k < transceivers)
    ensures Sane(entries + [e], lines, transceivers)
  {
  }

  ghost function States(ts: seq<Transceiver>): (r: seq<Tr>)
    reads ts
    ensures |r| == |ts| && forall i :: 0 <= i < |ts| ==> r[i] == ts[i].State()
  {
    seq(|ts|, i requires 0 <= i < |ts| reads ts => ts[i].State())
  }

  lemma {:induction false} KeeperIsFirst(trs: seq<Tr>, k: nat, n: nat, mid: string)
    requires k <= n <= |trs|
    ensures Keeper(trs, k, mid).Some? ==> Keeper(trs, n, mid) == Keeper(trs, k, mid)
  {
    if k < n {
      KeeperIsFirst(trs, k, n - 1, mid);
    }
  }

  /** After the first `k` transceivers: the sections they hold are done, the other dead ones may be reused. */
  ghost predicate KeptSoFar(lines: seq<Media>, trs: seq<Tr>, needSctp: bool, k: nat, mids: map<string, nat>, recyclable: set<nat>,
                            entries: seq<Entry>, done: set<nat>)
    requires k <= |trs|
  {
    Entered(lines, trs, needSctp, entries, done) && Pending(lines, mids, done)
    && (forall i: nat :: i in done <==> i < |lines| && Keeper(trs, k, lines[i].mid).Some?)
    && forall i: nat :: i in recyclable <==> i < |lines| && lines[i].port == 0 && Keeper(trs, k, lines[i].mid).None?
  }

  lemma PendingTake(lines: seq<Media>, mids: map<string, nat>, done: set<nat>, mid: string)
    requires Tidy(lines) && Pending(lines, mids, done) && mid in mids
    ensures mids[mid] < |lines| && lines[mids[mid]].mid == mid && mids[mid] !in done && Pending(lines, mids - {mid}, done + {mids[mid]})
  {
    forall i | 0 <= i < |lines| ensures lines[i].mid in mids - {mid} <==> i !in done + {mids[mid]} {
      assert lines[i].mid == mid <==> i == mids[mid];
    }
  }

  lemma KeepOne(lines: seq<Media>, trs: seq<Tr>, needSctp: bool, k: nat, mids: map<string, nat>, recyclable: set<nat>,
                                   entries: seq<Entry>, done: set<nat>)
    requires Tidy(lines) && k < |trs| && trs[k].mid in mids
    requires KeptSoFar(lines, trs, needSctp, k, mids, recyclable, entries, done)
    ensures var index := mids[trs[k].mid];
            KeptSoFar(lines, trs, needSctp, k + 1, mids - {trs[k].mid}, recyclable - {index},
                      entries + [Entry(Held(k), index, trs[k].mid)], done + {index})
  {
    hide Keeper, Entered, Total, EntryAt, Pending;
    var mid := trs[k].mid;
    PendingTake(lines, mids, done, mid);
    var index := mids[mid];
    KeptEntry(lines, trs, needSctp, index, k);
    EnterOne(lines, trs, needSctp, entries, done, Entry(Held(k), index, mid));
    KeeperSteps(lines, trs, k);
    assert forall i :: 0 <= i < |lines| && lines[i].mid == mid ==> i == index;
  }

  lemma KeepNone(lines: seq<Media>, trs: seq<Tr>, needSctp: bool, k: nat, mids: map<string, nat>, recyclable: set<nat>,
                                    entries: seq<Entry>, done: set<nat>)
    requires k < |trs| && trs[k].mid !in mids && KeptSoFar(lines, trs, needSctp, k, mids, recyclable, entries, done)
    ensures KeptSoFar(lines, trs, needSctp, k + 1, mids, recyclable, entries, done)
  {
    hide Keeper, Entered;
    KeeperSteps(lines, trs, k);
  }

  lemma TakeMid(lines: seq<Media>, mids: map<string, nat>, recyclable: set<nat>, sctpIndex: Option<nat>, mid: string,
                                   taken: set<nat>)
    requires InRange(lines, mids, recyclable) && mid in mids
    ensures InRange(lines, mids - {mid}, recyclable - taken) && mids[mid] < |lines|
    ensures SctpPending(lines, mids, sctpIndex) && sctpIndex != Some(mids[mid]) ==> SctpPending(lines, mids - {mid}, sctpIndex)
  {
  }

  /** What holds for any description and, when it is tidy and has no data channels, the account kept. */
  ghost predicate Keeping(lines: seq<Media>, trs: seq<Tr>, needSctp: bool, k: nat, mids: map<string, nat>, recyclable: set<nat>,
                          sctpIndex: Option<nat>, entries: seq<Entry>, done: set<nat>, all: nat)
    requires k <= |trs|
  {
    |entries| + |mids| == all && Sane(entries, |lines|, |trs|) && InRange(lines, mids, recyclable)
    && (Tidy(lines) ==> SctpPending(lines, mids, sctpIndex))
    && (Tidy(lines) && NoApplication(lines) ==>
          sctpIndex.None? && KeptSoFar(lines, trs, needSctp, k, mids, recyclable, entries, done))
  }

  lemma KeepingTakes(lines: seq<Media>, trs: seq<Tr>, needSctp: bool, k: nat, mids: map<string, nat>,
                                        recyclable: set<nat>, sctpIndex: Option<nat>, entries: seq<Entry>, done: set<nat>, all: nat)
    requires k < |trs| && trs[k].mid in mids && sctpIndex != Some(mids[trs[k].mid])
    requires Keeping(lines, trs, needSctp, k, mids, recyclable, sctpIndex, entries, done, all)
    ensures var index := mids[trs[k].mid];
            Keeping(lines, trs, needSctp, k + 1, mids - {trs[k].mid}, recyclable - {index}, sctpIndex,
                    entries + [Entry(Held(k), index, trs[k].mid)], done + {index}, all)
  {
    hide KeptSoFar, Tidy, NoApplication, SctpPending, Sane, InRange;
    var mid := trs[k].mid;
    TakeMid(lines, mids, recyclable, sctpIndex, mid, {mids[mid]});
    DropMid(mids, mid);
    SaneStep(entries, Entry(Held(k), mids[mid], mid), |lines|, |trs|);
    if Tidy(lines) && NoApplication(lines) {
      KeepOne(lines, trs, needSctp, k, mids, recyclable, entries, done);
    }
  }

  lemma KeepingSkips(lines: seq<Media>, trs: seq<Tr>, needSctp: bool, k: nat, mids: map<string, nat>,
                                        recyclable: set<nat>, sctpIndex: Option<nat>, entries: seq<Entry>, done: set<nat>, all: nat)
    requires k < |trs| && (trs[k].mid == "" || trs[k].mid !in mids || sctpIndex == Some(mids[trs[k].mid]))
    requires Keeping(lines, trs, needSctp, k, mids, recyclable, sctpIndex, entries, done, all)
    ensures Keeping(lines, trs, needSctp, k + 1, mids, recyclable, sctpIndex, entries, done, all)
  {
    hide KeptSoFar, Tidy, NoApplication, SctpPending, Sane, InRange;
    if Tidy(lines) && NoApplication(lines) {
      NoMidIsEmpty(lines, mids, recyclable);
      KeepNone(lines, trs, needSctp, k, mids, recyclable, entries, done);
    }
  }

  lemma KeepingStarts(lines: seq<Media>, trs: seq<Tr>, needSctp: bool, mids: map<string, nat>, recyclable: set<nat>,
                                         sctpIndex: Option<nat>)
    requires InRange(lines, mids, recyclable) && (Tidy(lines) ==> SctpPending(lines, mids, sctpIndex))
    requires Tidy(lines) && NoApplication(lines) ==>
               Pending(lines, mids, {}) && sctpIndex.None?
               && forall i :: 0 <= i < |lines| ==> (i in recyclable <==> lines[i].port == 0)
    ensures Keeping(lines, trs, needSctp, 0, mids, recyclable, sctpIndex, [], {}, |mids|)
  {
    hide Pending, SctpPending, KeptSoFar;
    if Tidy(lines) && NoApplication(lines) {
      KeepStarts(lines, trs, needSctp, mids, recyclable);
    }
  }

  method KeepSections(lines: seq<Media>, ts: seq<Transceiver>, mids0: map<string, nat>, recyclable0: set<nat>, sctpIndex: Option<nat>,
                      ghost needSctp: bool)
    returns (mids: map<string, nat>, recyclable: set<nat>, entries: seq<Entry>, ghost done: set<nat>)
    requires InRange(lines, mids0, recyclable0) && (Tidy(lines) ==> SctpPending(lines, mids0, sctpIndex))
    requires Tidy(lines) && NoApplication(lines) ==>
               Pending(lines, mids0, {}) && sctpIndex.None?
               && forall i :: 0 <= i < |lines| ==> (i in recyclable0 <==> lines[i].port == 0)
    ensures Keeping(lines, States(ts), needSctp, |ts|, mids, recyclable, sctpIndex, entries, done, |mids0|)
  {
    hide Keeping, Tidy, NoApplication, SctpPending, InRange, Pending;
    ghost var trs := States(ts);
    mids, recyclable, entries, done := mids0, recyclable0, [], {};
    KeepingStarts(lines, trs, needSctp, mids, recyclable, sctpIndex);
    var k := 0;
    while k < |ts|
      invariant 0 <= k <= |ts| && Keeping(lines, trs, needSctp, k, mids, recyclable, sctpIndex, entries, done, |mids0|)
    {
      var mid := ts[k].mid;
      if mid != "" && mid in mids && sctpIndex != Some(mids[mid]) {
        KeepingTakes(lines, trs, needSctp, k, mids, recyclable, sctpIndex, entries, done, |mids0|);
        var index := mids[mid];
        entries := entries + [Entry(Held(k), index, mid)];
        recyclable := recyclable - {index};
        mids := mids - {mid};
        done := done + {index};
      } else {
        KeepingSkips(lines, trs, needSctp, k, mids, recyclable, sctpIndex, entries, done, |mids0|);
      }
      k := k + 1;
    }
  }

  lemma NoMidIsEmpty(lines: seq<Media>, mids: map<string, nat>, recyclable: set<nat>)
    requires Tidy(lines) && InRange(lines, mids, recyclable)
    ensures "" !in mids
  {
  }

  lemma KeepStarts(lines: seq<Media>, trs: seq<Tr>, needSctp: bool, mids: map<string, nat>, recyclable: set<nat>)
    requires Pending(lines, mids, {})
    requires forall i :: i in recyclable ==> i < |lines|
    requires forall i :: 0 <= i < |lines| ==> (i in recyclable <==> lines[i].port == 0)
    ensures KeptSoFar(lines, trs, needSctp, 0, mids, recyclable, [], {})
  {
    NobodyYet(trs);
  }

  lemma NobodyYet(trs: seq<Tr>)
    ensures forall mid :: Keeper(trs, 0, mid).None?
  {
  }

  lemma KeeperSteps(lines: seq<Media>, trs: seq<Tr>, k: nat)
    requires k < |trs|
    ensures forall i :: 0 <= i < |lines| ==>
              Keeper(trs, k + 1, lines[i].mid) == if Keeper(trs, k, lines[i].mid).Some? then Keeper(trs, k, lines[i].mid)
                                                  else if trs[k].mid == lines[i].mid then Some(k) else None
  {
  }

  lemma {:induction false} KeptEntry(lines: seq<Media>, trs: seq<Tr>, needSctp: bool, i: nat, k: nat)
    requires i < |lines| && k < |trs| && trs[k].mid == lines[i].mid && Keeper(trs, k, lines[i].mid).None?
    ensures i < Total(lines, trs, needSctp) && EntryAt(lines, trs, needSctp, i) == Entry(Held(k), i, lines[i].mid)
  {
    KeeperIsFirst(trs, k + 1, |trs|, lines[i].mid);
  }

  // ---------------------------------------------------------------------------------------------

  /** After `j` requests: sections kept or given out are done, the rest of the dead ones are still to be given. */
  ghost predicate Granted(lines: seq<Media>, trs: seq<Tr>, needSctp: bool, j: nat, mids: map<string, nat>, recyclable: set<nat>,
                          next: nat, entries: seq<Entry>, done: set<nat>) {
    Entered(lines, trs, needSctp, entries, done) && Pending(lines, mids, done)
    && next == |lines| + Max(0, j - RecyclableBefore(lines, trs, |lines|))
    && (forall i: nat :: i in done <==> if i < |lines| then Kept(lines, trs, i) || (Recyclable(lines, trs, i) && RecyclableBefore(lines, trs, i) < j)
                                   else i < next)
    && forall i: nat :: i in recyclable <==> i < |lines| && Recyclable(lines, trs, i) && RecyclableBefore(lines, trs, i) >= j
  }

  method NextIndex(lines: seq<Media>, mids0: map<string, nat>, recyclable0: set<nat>, next0: nat)
    returns (index: nat, mids: map<string, nat>, recyclable: set<nat>, next: nat)
    requires InRange(lines, mids0, recyclable0)
    ensures InRange(lines, mids, recyclable)
    ensures |mids| <= |mids0|
    ensures if recyclable0 == {} then index == next0 && next == next0 + 1 && mids == mids0 && recyclable == recyclable0
            else index in recyclable0 && (forall i :: i in recyclable0 ==> index <= i) && next == next0
                 && recyclable == recyclable0 - {index} && mids == mids0 - {lines[index].mid}
  {
    if recyclable0 != {} {
      index := Least(recyclable0);
      return index, mids0 - {lines[index].mid}, recyclable0 - {index}, next0;
    }
    return next0, mids0, recyclable0, next0 + 1;
  }

  method Least(s: set<nat>) returns (m: nat)
    requires s != {}
    ensures m in s && forall i :: i in s ==> m <= i
  {
    m :| m in s;
    var rest := s - {m};
    while rest != {}
      invariant m in s && rest <= s && forall i :: i in s ==> i in rest || m <= i
      decreases |rest|
    {
      var x :| x in rest;
      if x < m {
        m := x;
      }
      rest := rest - {x};
    }
  }

  /** Serving request `j` with the index handed out keeps the account and enters what the plan has there. */
  lemma GrantOne(lines: seq<Media>, trs: seq<Tr>, needSctp: bool, j: nat, mids: map<string, nat>, recyclable: set<nat>, next: nat,
                 entries: seq<Entry>, done: set<nat>, index: nat, mids1: map<string, nat>, recyclable1: set<nat>, next1: nat)
    requires Tidy(lines) && NoApplication(lines) && j < |Requests(trs, |trs|, needSctp)|
    requires Granted(lines, trs, needSctp, j, mids, recyclable, next, entries, done)
    requires if recyclable == {} then index == next && next1 == next + 1 && mids1 == mids && recyclable1 == recyclable
             else index in recyclable && (forall i :: i in recyclable ==> index <= i) && next1 == next
                  && recyclable1 == recyclable - {index} && mids1 == mids - {lines[index].mid}
    ensures Granted(lines, trs, needSctp, j + 1, mids1, recyclable1, next1,
                    entries + [Entry(Requests(trs, |trs|, needSctp)[j], index, "")], done + {index})
  {
    hide Entered, Pending, Tidy, NoApplication, Total, EntryAt, Requests, Keeper, RecyclableBefore;
    var i := RequestIsPlaced(lines, trs, needSctp, j);
    RecyclableIsMonotone(lines, trs);
    PlaceIsUnique(lines, trs, needSctp, j, i, recyclable, next, index);
    PendingGrant(lines, mids, done, index);
    EnterOne(lines, trs, needSctp, entries, done, Entry(Requests(trs, |trs|, needSctp)[j], i, ""));
  }

  lemma PendingGrant(lines: seq<Media>, mids: map<string, nat>, done: set<nat>, index: nat)
    requires Tidy(lines) && Pending(lines, mids, done)
    ensures index < |lines| && index !in done ==> Pending(lines, mids - {lines[index].mid}, done + {index})
    ensures index >= |lines| ==> Pending(lines, mids, done + {index})
  {
    if index < |lines| && index !in done {
      assert mids[lines[index].mid] == index;
      PendingTake(lines, mids, done, lines[index].mid);
    }
  }

  lemma PlaceIsUnique(lines: seq<Media>, trs: seq<Tr>, needSctp: bool, j: nat, i: nat, recyclable: set<nat>, next: nat, index: nat)
    requires PlacedAt(lines, trs, needSctp, j, i)
    requires next == |lines| + Max(0, j - RecyclableBefore(lines, trs, |lines|))
    requires forall x: nat :: x in recyclable <==> x < |lines| && Recyclable(lines, trs, x) && RecyclableBefore(lines, trs, x) >= j
    requires if recyclable == {} then index == next else index in recyclable && forall x :: x in recyclable ==> index <= x
    ensures index == i
  {
    hide Total, Keeper, RecyclableBefore;
    RecyclableIsMonotone(lines, trs);
    if i < |lines| {
      assert i in recyclable;
    } else if recyclable != {} {
      assert false;
    }
  }

  lemma NoneGranted(lines: seq<Media>, trs: seq<Tr>, needSctp: bool, mids: map<string, nat>, recyclable: set<nat>,
                                       entries: seq<Entry>, done: set<nat>)
    requires KeptSoFar(lines, trs, needSctp, |trs|, mids, recyclable, entries, done)
    ensures Granted(lines, trs, needSctp, 0, mids, recyclable, |lines|, entries, done)
  {
    hide Keeper, Entered, RecyclableBefore;
  }

  lemma NextRequest(trs: seq<Tr>, k: nat, needSctp: bool)
    requires k < |trs|
    ensures IsNew(trs[k]) ==> var j := |Requests(trs, k, needSctp)|;
                              j < |Requests(trs, |trs|, needSctp)| && Requests(trs, |trs|, needSctp)[j] == Held(k)
                              && |Requests(trs, k + 1, needSctp)| == j + 1
    ensures !IsNew(trs[k]) ==> Requests(trs, k + 1, needSctp) == Requests(trs, k, needSctp)
  {
    RequestsGrow(trs, k + 1, |trs|, needSctp);
  }

  lemma SctpRequest(trs: seq<Tr>)
    ensures Requests(trs, 0, true) == [Sctp] && |Requests(trs, |trs|, true)| > 0 && Requests(trs, |trs|, true)[0] == Sctp
  {
    RequestsGrow(trs, 0, |trs|, true);
  }

  method PlaceSctp(lines: seq<Media>, ghost trs: seq<Tr>, needSctp: bool, sctpIndex: Option<nat>, mids0: map<string, nat>,
                   recyclable0: set<nat>, entries0: seq<Entry>, ghost done0: set<nat>)
    returns (mids: map<string, nat>, recyclable: set<nat>, next: nat, entries: seq<Entry>, ghost done: set<nat>)
    requires InRange(lines, mids0, recyclable0) && (Tidy(lines) ==> SctpPending(lines, mids0, sctpIndex))
    requires Tidy(lines) && NoApplication(lines) ==>
               sctpIndex.None? && KeptSoFar(lines, trs, needSctp, |trs|, mids0, recyclable0, entries0, done0)
    requires sctpIndex.Some? ==> sctpIndex.value < |lines|
    ensures InRange(lines, mids, recyclable) && (Tidy(lines) ==> SctpPending(lines, mids, sctpIndex)) && entries0 <= entries
    ensures |mids| <= |mids0| && |entries| <= |entries0| + 1
    ensures forall n :: Sane(entries0, |lines|, n) ==> Sane(entries, |lines|, n)
    ensures sctpIndex.Some? ==> Entry(Sctp, sctpIndex.value, lines[sctpIndex.value].mid) in entries
    ensures Tidy(lines) && NoApplication(lines) ==>
              Granted(lines, trs, needSctp, |Requests(trs, 0, needSctp)|, mids, recyclable, next, entries, done)
  {
    hide KeptSoFar, Granted, Keeper, Tidy;
    ghost var good := Tidy(lines) && NoApplication(lines);
    if good {
      NoneGranted(lines, trs, needSctp, mids0, recyclable0, entries0, done0);
    }
    mids, recyclable, next, entries, done := mids0, recyclable0, |lines|, entries0, done0;
    if sctpIndex.Some? {
      entries := entries + [Entry(Sctp, sctpIndex.value, lines[sctpIndex.value].mid)];
    } else if needSctp {
      var index;
      index, mids, recyclable, next := NextIndex(lines, mids, recyclable, next);
      if good {
        SctpRequest(trs);
        GrantOne(lines, trs, needSctp, 0, mids0, recyclable0, |lines|, entries0, done0, index, mids, recyclable, next);
      }
      entries := entries + [Entry(Sctp, index, "")];
      done := done + {index};
    }
  }

  method PlaceNew(lines: seq<Media>, ts: seq<Transceiver>, ghost needSctp: bool, ghost sctpIndex: Option<nat>, mids0: map<string, nat>,
                  recyclable0: set<nat>, next0: nat, entries0: seq<Entry>, ghost done0: set<nat>)
    returns (mids: map<string, nat>, recyclable: set<nat>, next: nat, entries: seq<Entry>, ghost done: set<nat>)
    requires InRange(lines, mids0, recyclable0) && (Tidy(lines) ==> SctpPending(lines, mids0, sctpIndex))
    requires Tidy(lines) && NoApplication(lines) ==>
               Granted(lines, States(ts), needSctp, |Requests(States(ts), 0, needSctp)|, mids0, recyclable0, next0, entries0, done0)
    ensures InRange(lines, mids, recyclable) && (Tidy(lines) ==> SctpPending(lines, mids, sctpIndex)) && entries0 <= entries
    ensures |mids| <= |mids0| && |entries| <= |entries0| + |ts|
    ensures Sane(entries0, |lines|, |ts|) ==> Sane(entries, |lines|, |ts|)
    ensures Tidy(lines) && NoApplication(lines) ==>
              Granted(lines, States(ts), needSctp, |Requests(States(ts), |ts|, needSctp)|, mids, recyclable, next, entries, done)
  {
    hide Granted, Requests, Tidy, NoApplication, SctpPending;
    ghost var trs := States(ts);
    ghost var good := Tidy(lines) && NoApplication(lines);
    mids, recyclable, next, entries, done := mids0, recyclable0, next0, entries0, done0;
    var k := 0;
    while k < |ts|
      invariant 0 <= k <= |ts| && entries0 <= entries && |mids| <= |mids0| && |entries| <= |entries0| + k
      invariant Sane(entries0, |lines|, |ts|) ==> Sane(entries, |lines|, |ts|)
      invariant InRange(lines, mids, recyclable) && (Tidy(lines) ==> SctpPending(lines, mids, sctpIndex))
      invariant good ==> Granted(lines, trs, needSctp, |Requests(trs, k, needSctp)|, mids, recyclable, next, entries, done)
    {
      NextRequest(trs, k, needSctp);
      if ts[k].mid == "" && !ts[k].stopped {
        var index, mids1, recyclable1, next1 := NextIndex(lines, mids, recyclable, next);
        if good {
          GrantOne(lines, trs, needSctp, |Requests(trs, k, needSctp)|, mids, recyclable, next, entries, done, index, mids1,
                   recyclable1, next1);
        }
        if Tidy(lines) && recyclable != {} {
          SctpStays(lines, mids, recyclable, sctpIndex, index);
        }
        mids, recyclable, next := mids1, recyclable1, next1;
        entries := entries + [Entry(Held(k), index, "")];
        done := done + {index};
      }
      k := k + 1;
    }
  }

  lemma SctpStays(lines: seq<Media>, mids: map<string, nat>, recyclable: set<nat>, sctpIndex: Option<nat>, index: nat)
    requires InRange(lines, mids, recyclable) && Tidy(lines) && SctpPending(lines, mids, sctpIndex) && index in recyclable
    ensures SctpPending(lines, mids - {lines[index].mid}, sctpIndex)
  {
  }

  ghost predicate Filling(lines: seq<Media>, trs: seq<Tr>, needSctp: bool, mids: map<string, nat>, entries: seq<Entry>, done: set<nat>,
                          done0: set<nat>) {
    Entered(lines, trs, needSctp, entries, done) && Pending(lines, mids, done) && done0 <= done
    && forall i: nat :: i in done && i !in done0 ==> i < |lines|
  }

  lemma FillOne(lines: seq<Media>, trs: seq<Tr>, needSctp: bool, mids: map<string, nat>, entries: seq<Entry>,
                                   done: set<nat>, done0: set<nat>, mid: string)
    requires Tidy(lines) && Filling(lines, trs, needSctp, mids, entries, done, done0) && mid in mids && mids[mid] < |lines|
    requires mids[mid] !in done0 ==> mids[mid] < Total(lines, trs, needSctp)
                                     && EntryAt(lines, trs, needSctp, mids[mid]) == Entry(Gap, mids[mid], lines[mids[mid]].mid)
    ensures Filling(lines, trs, needSctp, mids - {mid}, entries + [Entry(Gap, mids[mid], mid)], done + {mids[mid]}, done0)
  {
    hide Total, EntryAt, Entered, Pending, Tidy;
    PendingTake(lines, mids, done, mid);
    EnterOne(lines, trs, needSctp, entries, done, Entry(Gap, mids[mid], mid));
  }

  /** The section for data channels is still pending or carried over already. */
  ghost predicate SctpAgain(lines: seq<Media>, mids: map<string, nat>, sctpIndex: Option<nat>, entries: seq<Entry>) {
    sctpIndex.Some? ==> SctpPending(lines, mids, sctpIndex)
                        || (sctpIndex.value < |lines| && Entry(Gap, sctpIndex.value, lines[sctpIndex.value].mid) in entries)
  }

  lemma SctpAgainStep(lines: seq<Media>, mids: map<string, nat>, sctpIndex: Option<nat>, entries: seq<Entry>, mid: string)
    requires SctpAgain(lines, mids, sctpIndex, entries) && mid in mids
    ensures SctpAgain(lines, mids - {mid}, sctpIndex, entries + [Entry(Gap, mids[mid], mid)])
  {
  }

  /** Sections nobody claimed are carried over. */
  method FillGaps(lines: seq<Media>, ghost trs: seq<Tr>, ghost needSctp: bool, ghost sctpIndex: Option<nat>, mids0: map<string, nat>,
                  ghost recyclable: set<nat>, ghost next: nat, entries0: seq<Entry>, ghost done0: set<nat>)
    returns (entries: seq<Entry>, ghost done: set<nat>)
    requires InRange(lines, mids0, {}) && (Tidy(lines) ==> SctpPending(lines, mids0, sctpIndex))
    requires Tidy(lines) && NoApplication(lines) ==>
               Granted(lines, trs, needSctp, |Requests(trs, |trs|, needSctp)|, mids0, recyclable, next, entries0, done0)
    ensures entries0 <= entries && |entries| == |entries0| + |mids0|
    ensures forall n :: Sane(entries0, |lines|, n) ==> Sane(entries, |lines|, n)
    ensures Tidy(lines) && NoApplication(lines) ==>
              Entered(lines, trs, needSctp, entries, done) && forall i: nat :: i in done <==> i < Total(lines, trs, needSctp)
    ensures Tidy(lines) && sctpIndex.Some? ==>
              sctpIndex.value < |lines| && Entry(Gap, sctpIndex.value, lines[sctpIndex.value].mid) in entries
  {
    hide Kept, Keeper, RecyclableBefore, Requests, Entered, EntryAt, Tidy, NoApplication, Filling, Granted, SctpAgain;
    ghost var good := Tidy(lines) && NoApplication(lines);
    var mids := mids0;
    entries, done := entries0, done0;
    SctpAgainStarts(lines, mids, sctpIndex, entries);
    if good {
      FillingStarts(lines, trs, needSctp, mids0, recyclable, next, entries0, done0);
    }
    while mids.Keys != {}
      invariant entries0 <= entries && InRange(lines, mids, {}) && |entries| + |mids| == |entries0| + |mids0|
      invariant forall n :: Sane(entries0, |lines|, n) ==> Sane(entries, |lines|, n)
      invariant good ==> Filling(lines, trs, needSctp, mids, entries, done, done0)
      invariant Tidy(lines) ==> SctpAgain(lines, mids, sctpIndex, entries)
      decreases |mids|
    {
      var mid :| mid in mids.Keys;
      var index := mids[mid];
      if good && index !in done0 {
        GapEntry(lines, trs, needSctp, mids0, recyclable, next, entries0, done0, index);
      }
      if good {
        FillOne(lines, trs, needSctp, mids, entries, done, done0, mid);
      }
      if Tidy(lines) {
        SctpAgainStep(lines, mids, sctpIndex, entries, mid);
      }
      entries := entries + [Entry(Gap, index, mid)];
      done := done + {index};
      mids := mids - {mid};
    }
    if good {
      FillingEnds(lines, trs, needSctp, mids0, recyclable, next, entries0, done0, mids, entries, done);
    }
    if Tidy(lines) {
      SctpAgainEnds(lines, mids, sctpIndex, entries);
    }
  }

  lemma SctpAgainStarts(lines: seq<Media>, mids: map<string, nat>, sctpIndex: Option<nat>, entries: seq<Entry>)
    ensures SctpPending(lines, mids, sctpIndex) ==> SctpAgain(lines, mids, sctpIndex, entries)
  {
  }

  lemma SctpAgainEnds(lines: seq<Media>, mids: map<string, nat>, sctpIndex: Option<nat>, entries: seq<Entry>)
    requires SctpAgain(lines, mids, sctpIndex, entries) && mids.Keys == {}
    ensures sctpIndex.Some? ==>
              sctpIndex.value < |lines| && Entry(Gap, sctpIndex.value, lines[sctpIndex.value].mid) in entries
  {
  }

  lemma FillingStarts(lines: seq<Media>, trs: seq<Tr>, needSctp: bool, mids: map<string, nat>, recyclable: set<nat>,
                                         next: nat, entries: seq<Entry>, done: set<nat>)
    requires Granted(lines, trs, needSctp, |Requests(trs, |trs|, needSctp)|, mids, recyclable, next, entries, done)
    ensures Filling(lines, trs, needSctp, mids, entries, done, done)
  {
  }

  lemma FillingEnds(lines: seq<Media>, trs: seq<Tr>, needSctp: bool, mids0: map<string, nat>, recyclable: set<nat>,
                                       next: nat, entries0: seq<Entry>, done0: set<nat>, mids: map<string, nat>, entries: seq<Entry>,
                                       done: set<nat>)
    requires Granted(lines, trs, needSctp, |Requests(trs, |trs|, needSctp)|, mids0, recyclable, next, entries0, done0)
    requires Filling(lines, trs, needSctp, mids, entries, done, done0) && mids.Keys == {}
    ensures Entered(lines, trs, needSctp, entries, done) && forall i: nat :: i in done <==> i < Total(lines, trs, needSctp)
  {
    hide Entered, Requests, RecyclableBefore, Keeper;
  }

  lemma GapEntry(lines: seq<Media>, trs: seq<Tr>, needSctp: bool, mids: map<string, nat>, recyclable: set<nat>,
                                    next: nat, entries: seq<Entry>, done: set<nat>, i: nat)
    requires i < |lines| && i !in done
    requires Granted(lines, trs, needSctp, |Requests(trs, |trs|, needSctp)|, mids, recyclable, next, entries, done)
    ensures i < Total(lines, trs, needSctp) && EntryAt(lines, trs, needSctp, i) == Entry(Gap, i, lines[i].mid)
  {
    hide Requests, RecyclableBefore, Keeper, Entered;
  }

  // ---------------------------------------------------------------------------------------------
  // Sorting by index

  ghost predicate Strict(s: seq<Entry>) {
    forall i, j :: 0 <= i < j < |s| ==> s[i].index < s[j].index
  }

  ghost predicate Ascending(s: seq<Entry>) {
    forall i, j :: 0 <= i < j < |s| ==> s[i].index <= s[j].index
  }

  method SortByIndex(entries: seq<Entry>) returns (sorted: seq<Entry>)
    ensures Ascending(sorted) && (Distinct(entries) ==> Strict(sorted))
    ensures multiset(sorted) == multiset(entries)
  {
    hide Ascending, Strict, Distinct;
    sorted := [];
    EmptyIsSorted();
    var i := 0;
    while i < |entries|
      invariant 0 <= i <= |entries| && multiset(sorted) == multiset(entries[..i])
      invariant Ascending(sorted) && (Distinct(entries) ==> Strict(sorted))
    {
      var p := PlaceOf(sorted, entries[i]);
      Inserted(sorted, entries[i], p);
      InsertedOrder(sorted, entries[i], p, sorted[..p] + [entries[i]] + sorted[p..]);
      if Distinct(entries) {
        NotYet(entries, i, sorted);
      }
      assert entries[..i + 1] == entries[..i] + [entries[i]];
      sorted := sorted[..p] + [entries[i]] + sorted[p..];
      i := i + 1;
    }
    assert entries[..i] == entries;
  }

  lemma EmptyIsSorted()
    ensures Ascending([]) && Strict([])
  {
  }

  lemma NotYet(entries: seq<Entry>, i: nat, sorted: seq<Entry>)
    requires Distinct(entries) && i < |entries| && multiset(sorted) == multiset(entries[..i])
    ensures forall j :: 0 <= j < |sorted| ==> sorted[j].index != entries[i].index
  {
    forall j | 0 <= j < |sorted| ensures sorted[j].index != entries[i].index {
      assert sorted[j] in multiset(sorted);
      assert sorted[j] in multiset(entries[..i]);
      assert sorted[j] in entries[..i];
      var k :| 0 <= k < i && entries[..i][k] == sorted[j];
      assert entries[k] == sorted[j];
    }
  }

  method PlaceOf(s: seq<Entry>, e: Entry) returns (p: nat)
    requires Ascending(s)
    ensures p <= |s| && (forall j :: 0 <= j < p ==> s[j].index <= e.index) && forall j :: p <= j < |s| ==> s[j].index > e.index
  {
    p := |s|;
    while p > 0 && s[p - 1].index > e.index
      invariant p <= |s| && forall j :: p <= j < |s| ==> s[j].index > e.index
    {
      p := p - 1;
    }
  }

  lemma Inserted(s: seq<Entry>, e: Entry, p: nat)
    requires p <= |s|
    ensures multiset(s[..p] + [e] + s[p..]) == multiset(s) + multiset{e}
  {
    assert s == s[..p] + s[p..];
  }

  lemma InsertedOrder(s: seq<Entry>, e: Entry, p: nat, r: seq<Entry>)
    requires p <= |s| && |r| == |s| + 1 && r[p] == e
    requires (forall j :: 0 <= j < p ==> r[j] == s[j]) && forall j :: p < j < |r| ==> r[j] == s[j - 1]
    requires (forall j :: 0 <= j < p ==> s[j].index <= e.index) && forall j :: p <= j < |s| ==> s[j].index > e.index
    ensures Ascending(s) ==> Ascending(r)
    ensures Strict(s) && (forall j :: 0 <= j < |s| ==> s[j].index != e.index) ==> Strict(r)
  {
    var apart := forall j :: 0 <= j < |s| ==> s[j].index != e.index;
    forall i, j | 0 <= i < j < |r|
      ensures (Ascending(s) ==> r[i].index <= r[j].index) && (Strict(s) && apart ==> r[i].index < r[j].index)
    {
      var x, y := if i < p then i else i - 1, if j < p then j else j - 1;
      assert i != p ==> r[i] == s[x];
      assert j != p ==> r[j] == s[y];
    }
  }

  lemma {:induction false} SortedIndices(s: seq<Entry>, n: nat, i: nat)
    requires Strict(s) && i < |s| && forall x: nat :: x in IndexSet(s) <==> x < n
    ensures s[i].index == i
  {
    if i > 0 {
      SortedIndices(s, n, i - 1);
    }
    assert s[i] in s && s[i].index in IndexSet(s);
    assert i in IndexSet(s);
    var p :| 0 <= p < |s| && s[p].index == i;
  }

  /** Entries for 0..n-1, once each, are the plan when sorted. */
  lemma SortedPlan(lines: seq<Media>, trs: seq<Tr>, needSctp: bool, entries: seq<Entry>, done: set<nat>, sorted: seq<Entry>)
    requires Entered(lines, trs, needSctp, entries, done) && forall i: nat :: i in done <==> i < Total(lines, trs, needSctp)
    requires multiset(sorted) == multiset(entries) && (Distinct(entries) ==> Strict(sorted))
    ensures sorted == Plan(lines, trs, needSctp)
  {
    hide Total, EntryAt, Strict;
    var n := Total(lines, trs, needSctp);
    forall e ensures e in sorted <==> e in entries {
      assert e in multiset(sorted) <==> e in multiset(entries);
    }
    assert IndexSet(sorted) == IndexSet(entries);
    forall i | 0 <= i < |sorted| ensures sorted[i].index == i && i < n && sorted[i] == EntryAt(lines, trs, needSctp, i) {
      SortedIndices(sorted, n, i);
      assert sorted[i] in sorted && sorted[i] in entries && sorted[i].index in IndexSet(entries);
    }
    assert |sorted| > 0 ==> sorted[|sorted| - 1].index < n;
    assert |sorted| < n ==> |sorted| in IndexSet(sorted);
  }

  /** The sections of the next offer, in order. With every mid present and distinct they are the planned ones, index i at
      place i, exactly when the current description has no section for data channels; with one, its index comes twice. */
  method Allocate(lines: seq<Media>, ts: seq<Transceiver>, needSctp: bool) returns (sorted: seq<Entry>)
    ensures Tidy(lines) && NoApplication(lines) ==> sorted == Plan(lines, States(ts), needSctp)
    ensures Tidy(lines) && !NoApplication(lines) ==>
              exists s: nat :: s < |lines| && lines[s].mid != "" && Entry(Sctp, s, lines[s].mid) in sorted
                               && Entry(Gap, s, lines[s].mid) in sorted
    ensures |sorted| <= |lines| + |ts| + 1 && Sane(sorted, |lines|, |ts|)
  {
    ghost var trs := States(ts);
    var mids, recyclable, sctpIndex := ReadLines(lines);
    hide NoApplication, Tidy, KeptSoFar, Keeping, Granted, Pending, InRange, SctpPending, Sane, Entered;
    var entries, next;
    ghost var done;
    ghost var all := |mids|;
    mids, recyclable, entries, done := KeepSections(lines, ts, mids, recyclable, sctpIndex, needSctp);
    KeepingGives(lines, trs, needSctp, mids, recyclable, sctpIndex, entries, done, all);
    mids, recyclable, next, entries, done := PlaceSctp(lines, trs, needSctp, sctpIndex, mids, recyclable, entries, done);
    mids, recyclable, next, entries, done := PlaceNew(lines, ts, needSctp, sctpIndex, mids, recyclable, next, entries, done);
    NoneRecyclable(lines, mids, recyclable);
    entries, done := FillGaps(lines, trs, needSctp, sctpIndex, mids, recyclable, next, entries, done);
    sorted := SortByIndex(entries);
    SameEntries(entries, sorted, |lines|, |ts|);
    if Tidy(lines) {
      if NoApplication(lines) {
        SortedPlan(lines, trs, needSctp, entries, done, sorted);
      } else {
        TidyMid(lines, sctpIndex.value);
      }
    }
  }

  lemma NoneRecyclable(lines: seq<Media>, mids: map<string, nat>, recyclable: set<nat>)
    requires InRange(lines, mids, recyclable)
    ensures InRange(lines, mids, {})
  {
  }

  lemma KeepingGives(lines: seq<Media>, trs: seq<Tr>, needSctp: bool, mids: map<string, nat>, recyclable: set<nat>,
                                        sctpIndex: Option<nat>, entries: seq<Entry>, done: set<nat>, all: nat)
    requires Keeping(lines, trs, needSctp, |trs|, mids, recyclable, sctpIndex, entries, done, all)
    ensures |entries| + |mids| == all && Sane(entries, |lines|, |trs|) && InRange(lines, mids, recyclable)
    ensures Tidy(lines) ==> SctpPending(lines, mids, sctpIndex)
    ensures Tidy(lines) && NoApplication(lines) ==>
              sctpIndex.None? && KeptSoFar(lines, trs, needSctp, |trs|, mids, recyclable, entries, done)
  {
  }

  lemma TidyMid(lines: seq<Media>, i: nat)
    requires Tidy(lines) && i < |lines|
    ensures lines[i].mid != ""
  {
  }

  lemma TidyDiffers(lines: seq<Media>, i: nat, j: nat)
    requires Tidy(lines) && i < |lines| && j < |lines| && i != j
    ensures lines[i].mid != lines[j].mid
  {
  }

  lemma SameEntries(entries: seq<Entry>, sorted: seq<Entry>, lines: nat, transceivers: nat)
    requires multiset(sorted) == multiset(entries)
    ensures |sorted| == |entries| && forall e :: e in sorted <==> e in entries
    ensures Sane(entries, lines, transceivers) ==> Sane(sorted, lines, transceivers)
  {
    assert |multiset(sorted)| == |sorted| && |multiset(entries)| == |entries|;
    forall e ensures e in sorted <==> e in entries {
      assert e in multiset(sorted) <==> e in multiset(entries);
    }
  }
}
