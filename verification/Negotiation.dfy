/** Offer and answer between two connections: the signalling states, the sections offered and answered, and the roles
    each side takes once both descriptions are in place. */
module Negotiation {

  import opened Words
  import opened Session
  import OfferAllocation
  import Mids

  datatype Signaling = Stable | HaveLocalOffer | HaveRemoteOffer | HaveLocalPranswer | HaveRemotePranswer | Closed

  datatype Error = WrongState | WrongType | BadMline | MidMismatch | NoBundle | NotBundled | EmptyMid

  /** The fields of a connection that signalling reads or writes. */
  datatype Conn = Conn(trs: seq<Tr>, needSctp: bool, counter: U16, signaling: Signaling, local: Option<Description>,
                       remote: Option<Description>, controlling: bool)

  // ---------------------------------------------------------------------------------------------
  // Making an offer

  /** Sections of the current local description. */
  function Lines(c: Conn): seq<Media> {
    if c.local.Some? then c.local.value.medias else []
  }

  predicate CanPlan(c: Conn) {
    OfferAllocation.Tidy(Lines(c)) && OfferAllocation.NoApplication(Lines(c)) && |Lines(c)| + |c.trs| + 1 <= 0x1_0000
  }

  function PlanOf(c: Conn): seq<OfferAllocation.Entry> {
    OfferAllocation.Plan(Lines(c), c.trs, c.needSctp)
  }

  function MidsOf(p: seq<OfferAllocation.Entry>): (r: seq<string>)
    ensures |r| == |p|
  {
    seq(|p|, i requires 0 <= i < |p| => p[i].mid)
  }

  function Named(p: seq<OfferAllocation.Entry>, counter: U16): (r: (seq<string>, U16))
    requires |p| <= 0x1_0000
    ensures |r.0| == |p|
  {
    Mids.UsedAndMissing(MidsOf(p));
    Mids.Filled(MidsOf(p), counter, Mids.Used(MidsOf(p)))
  }

  function SectionOf(c: Conn, e: OfferAllocation.Entry, mid: string): Media
    requires (e.slot.Gap? ==> e.index < |Lines(c)|) && (e.slot.Held? ==> e.slot.k < |c.trs|)
  {
    match e.slot
    case Sctp => Media(mid, Application, if c.needSctp then 9 else 0, Direction(true, true), [], Some(ActPass))
    case Gap => Lines(c)[e.index].(port := 0, direction := INACTIVE)
    case Held(k) => OfferMedia(c.trs[k], mid).(setup := Some(ActPass))
  }

  function Sections(c: Conn, p: seq<OfferAllocation.Entry>, names: seq<string>): (r: seq<Media>)
    requires OfferAllocation.Sane(p, |Lines(c)|, |c.trs|) && |names| == |p|
    ensures |r| == |p| && forall i :: 0 <= i < |p| ==> r[i] == SectionOf(c, p[i], names[i])
  {
    seq(|p|, i requires 0 <= i < |p| => assert p[i] in p; SectionOf(c, p[i], names[i]))
  }

  /** Mids of the sections that are alive. */
  function LiveMids(medias: seq<Media>): seq<string> {
    if medias == [] then []
    else LiveMids(medias[..|medias| - 1]) + if medias[|medias| - 1].port != 0 then [medias[|medias| - 1].mid] else []
  }

  function OfferWith(medias: seq<Media>): Description {
    var live := LiveMids(medias);
    Description(Offer, medias, if live == [] then None else Some(live), Some(ActPass))
  }

  /** Transceivers remember where the first `n` entries put them. */
  function Recorded(trs: seq<Tr>, p: seq<OfferAllocation.Entry>, n: nat): (r: seq<Tr>)
    requires n <= |p| && forall e :: e in p && e.slot.Held? ==> e.slot.k < |trs|
    ensures |r| == |trs|
  {
    if n == 0 then trs
    else
      var r := Recorded(trs, p, n - 1);
      assert p[n - 1] in p;
      if p[n - 1].slot.Held? then r[p[n - 1].slot.k := r[p[n - 1].slot.k].(mline := Some(n - 1))] else r
  }

  lemma PlanFits(c: Conn)
    requires CanPlan(c)
    ensures OfferAllocation.Sane(PlanOf(c), |Lines(c)|, |c.trs|) && |PlanOf(c)| <= 0x1_0000
  {
    var lines, p := Lines(c), PlanOf(c);
    hide OfferAllocation.Plan, OfferAllocation.Total;
    forall e | e in p ensures (e.slot == OfferAllocation.Gap ==> e.index < |lines|) && (e.slot.Held? ==> e.slot.k < |c.trs|) {
      var i :| 0 <= i < |p| && p[i] == e;
      OfferAllocation.PlanIsSound(lines, c.trs, c.needSctp, i);
    }
    OfferAllocation.TotalFits(lines, c.trs, c.needSctp);
  }

  /** The offer made in a given state and the state afterwards. */
  function MakeOffer(c: Conn): (r: (Description, Conn))
    requires CanPlan(c)
  {
    PlanFits(c);
    var p := PlanOf(c);
    var (names, counter) := Named(p, c.counter);
    (OfferWith(Sections(c, p, names)), c.(trs := Recorded(c.trs, p, |p|), counter := counter))
  }

  // ---------------------------------------------------------------------------------------------
  // Applying descriptions

  /** The first transceiver whose recorded section the description does not have, or has under another mid. */
  function Misplaced(trs: seq<Tr>, medias: seq<Media>): Option<Error> {
    if trs == [] then None
    else if trs[0].mline.Some? && trs[0].mline.value >= |medias| then Some(BadMline)
    else if trs[0].mline.Some? && trs[0].mid != "" && trs[0].mid != medias[trs[0].mline.value].mid then Some(MidMismatch)
    else Misplaced(trs[1..], medias)
  }

  /** A transceiver's section is where it was recorded. */
  predicate InPlace(t: Tr, medias: seq<Media>) {
    t.mline.Some? ==> t.mline.value < |medias| && (t.mid == "" || t.mid == medias[t.mline.value].mid)
  }

  lemma {:induction false} MisplacedIff(trs: seq<Tr>, medias: seq<Media>)
    ensures Misplaced(trs, medias).None? <==> forall k :: 0 <= k < |trs| ==> InPlace(trs[k], medias)
  {
    if trs != [] {
      MisplacedIff(trs[1..], medias);
      assert forall k :: 0 < k < |trs| ==> trs[k] == trs[1..][k - 1];
    }
  }

  function WithMid(t: Tr, medias: seq<Media>): Tr
    requires InPlace(t, medias)
  {
    if t.mline.Some? && t.mid == "" then t.(mid := medias[t.mline.value].mid) else t
  }

  function WithMids(trs: seq<Tr>, medias: seq<Media>): (r: seq<Tr>)
    requires forall k :: 0 <= k < |trs| ==> InPlace(trs[k], medias)
    ensures |r| == |trs| && forall k :: 0 <= k < |trs| ==> r[k] == WithMid(trs[k], medias)
  {
    seq(|trs|, k requires 0 <= k < |trs| => WithMid(trs[k], medias))
  }

  /** Whether the signalling state lets a description of this type through. */
  function Gate(s: Signaling, local: bool, what: DescType): Option<Error> {
    match s
    case Stable => if what == Offer then None else Some(WrongType)
    case Closed => if what == Offer then None else Some(WrongType)
    case HaveLocalOffer => if local then Some(WrongState) else if what == Answer then None else Some(WrongType)
    case HaveRemoteOffer => if !local then Some(WrongState) else if what == Answer then None else Some(WrongType)
    case HaveLocalPranswer => Some(WrongState)
    case HaveRemotePranswer => Some(WrongState)
  }

  function SetLocal(c: Conn, d: Description): (Conn, Option<Error>) {
    var gate := Gate(c.signaling, true, d.what);
    if gate.Some? then (c, gate)
    else if d.what == Offer then
      var bad := Misplaced(c.trs, d.medias);
      if bad.Some? then (c, bad)
      else
        MisplacedIff(c.trs, d.medias);
        (c.(trs := WithMids(c.trs, d.medias), local := Some(d), signaling := HaveLocalOffer, controlling := true), None)
    else (c.(local := Some(d), signaling := HaveLocalPranswer, controlling := false), None)
  }

  predicate Bundled(medias: seq<Media>, bundle: seq<string>) {
    forall m :: m in medias && m.what == Application ==> m.mid in bundle
  }

  /** The first transceiver without a section that can take one of this kind. */
  function Pick(trs: seq<Tr>, k: nat, kind: Kind): (r: Option<nat>)
    requires k <= |trs|
    ensures r.Some? ==> k <= r.value < |trs| && trs[r.value].mid == "" && !trs[r.value].stopped
                        && KindOf(trs[r.value].codec) == kind
    ensures forall x :: k <= x < |trs| && (r.Some? ==> x < r.value) ==>
                          trs[x].mid != "" || trs[x].stopped || KindOf(trs[x].codec) != kind
    decreases |trs| - k
  {
    if k == |trs| then None
    else if trs[k].mid == "" && !trs[k].stopped && KindOf(trs[k].codec) == kind then Some(k)
    else Pick(trs, k + 1, kind)
  }

  /** The first `n` offered sections, each given to a transceiver; false when one of them has no mid. */
  function Assigned(trs: seq<Tr>, medias: seq<Media>, n: nat): (r: (seq<Tr>, bool))
    requires n <= |medias|
    ensures |r.0| == |trs|
  {
    if n == 0 then (trs, true)
    else
      var (ts, ok) := Assigned(trs, medias, n - 1);
      var m := medias[n - 1];
      if !ok || !m.what.Rtp? then (ts, ok)
      else if m.mid == "" then (ts, false)
      else
        var k := Pick(ts, 0, m.what.kind);
        if k.None? then (ts, true)
        else (ts[k.value := AfterRemoteOffer(ts[k.value].(mid := m.mid), m)], true)
  }

  /** The first section with this mid. */
  function Find(medias: seq<Media>, mid: string): (r: Option<nat>)
    ensures r.Some? ==> r.value < |medias| && medias[r.value].mid == mid && forall x :: 0 <= x < r.value ==> medias[x].mid != mid
    ensures r.None? ==> forall x :: 0 <= x < |medias| ==> medias[x].mid != mid
  {
    if medias == [] then None
    else if medias[0].mid == mid then Some(0)
    else
      var r := Find(medias[1..], mid);
      if r.Some? then Some(r.value + 1) else
        assert forall x :: 0 < x < |medias| ==> medias[x] == medias[1..][x - 1];
        None
  }

  function Settled(t: Tr, medias: seq<Media>): Tr {
    var i := Find(medias, t.mid);
    if i.None? then t.(direction := INACTIVE, stopped := true)
    else
      var u := AfterRemoteAnswer(t, medias[i.value]);
      if u.direction == INACTIVE then u.(stopped := true) else u
  }

  function AllSettled(trs: seq<Tr>, medias: seq<Media>): (r: seq<Tr>)
    ensures |r| == |trs| && forall k :: 0 <= k < |trs| ==> r[k] == Settled(trs[k], medias)
  {
    seq(|trs|, k requires 0 <= k < |trs| => Settled(trs[k], medias))
  }

  function SetRemote(c: Conn, d: Description): (Conn, Option<Error>) {
    var gate := Gate(c.signaling, false, d.what);
    if gate.Some? then (c, gate)
    else if d.what == Offer then
      if d.bundle.None? then (c, Some(NoBundle))
      else if !Bundled(d.medias, d.bundle.value) then (c, Some(NotBundled))
      else
        var (trs, ok) := Assigned(c.trs, d.medias, |d.medias|);
        if !ok then (c.(trs := trs), Some(EmptyMid))
        else (c.(trs := trs, remote := Some(d), signaling := HaveRemoteOffer, controlling := false), None)
    else
      (c.(trs := AllSettled(c.trs, d.medias), remote := Some(d), signaling := HaveRemotePranswer, controlling := true), None)
  }

  // ---------------------------------------------------------------------------------------------
  // Making an answer

  function SetupFrom(d: Description): Setup {
    if d.setup.Some? then d.setup.value
    else if d.medias != [] && d.medias[0].setup.Some? then d.medias[0].setup.value
    else Passive
  }

  function AnswerSection(trs: seq<Tr>, m: Media): Media {
    if m.what == Application then Media(m.mid, Application, 9, m.direction, [], None)
    else
      var k := OfferAllocation.Keeper(trs, |trs|, m.mid);
      if k.Some? then AnswerMedia(trs[k.value], m) else Media(m.mid, m.what, 0, INACTIVE, [], None)
  }

  function AnswerSections(trs: seq<Tr>, medias: seq<Media>): (r: seq<Media>)
    ensures |r| == |medias| && forall i :: 0 <= i < |medias| ==> r[i] == AnswerSection(trs, medias[i])
  {
    seq(|medias|, i requires 0 <= i < |medias| => AnswerSection(trs, medias[i]))
  }

  function MidList(medias: seq<Media>): (r: seq<string>)
    ensures |r| == |medias| && forall i :: 0 <= i < |medias| ==> r[i] == medias[i].mid
  {
    seq(|medias|, i requires 0 <= i < |medias| => medias[i].mid)
  }

  /** No answer without a remote offer. */
  function MakeAnswer(c: Conn): Option<Description> {
    if c.remote.None? || c.signaling != HaveRemoteOffer then None
    else
      var medias := AnswerSections(c.trs, c.remote.value.medias);
      Some(Description(Answer, medias, if medias == [] then None else Some(MidList(medias)),
                       Some(if SetupFrom(c.remote.value) != Active then Active else Passive)))
  }

  // ---------------------------------------------------------------------------------------------
  // Roles

  /** Whether this side opens the DTLS handshake; it is also the side that waits for the SCTP association. */
  predicate IsActive(c: Conn)
    requires c.remote.Some?
  {
    SetupFrom(c.remote.value) != Active
  }

  predicate RunsSctp(c: Conn)
    requires c.remote.Some?
  {
    c.needSctp || exists m :: m in c.remote.value.medias && m.what == Application
  }

  // ---------------------------------------------------------------------------------------------
  // The offer

  /** Names of the planned sections are distinct and keep the mids already there. */
  lemma NamesAreDistinct(c: Conn)
    requires CanPlan(c)
    ensures |PlanOf(c)| <= 0x1_0000
    ensures var p, names := PlanOf(c), Named(PlanOf(c), c.counter).0;
            && (forall i, j :: 0 <= i < j < |p| ==> names[i] != names[j])
            && forall i :: 0 <= i < |p| ==> names[i] != "" && (p[i].mid != "" ==> names[i] == p[i].mid)
  {
    hide OfferAllocation.Plan, OfferAllocation.Total, Mids.Filled;
    PlanFits(c);
    var lines, p := Lines(c), PlanOf(c);
    var mids := MidsOf(p);
    forall i | 0 <= i < |p| ensures p[i].mid != "" ==> i < |lines| && p[i].mid == lines[i].mid {
      OfferAllocation.PlanIsSound(lines, c.trs, c.needSctp, i);
    }
    Mids.UsedAndMissing(mids);
    Mids.FilledIsDistinct(mids, c.counter, Mids.Used(mids));
    var names := Named(p, c.counter).0;
    forall i | 0 <= i < |p| ensures names[i] != "" && (p[i].mid != "" ==> names[i] == p[i].mid) {
      assert names[i] in names && mids[i] == p[i].mid;
    }
    forall i, j | 0 <= i < j < |p| ensures names[i] != names[j] {
      assert names[i] in names;
    }
  }

  /** An offer has one section per planned entry, under that entry's name. */
  lemma OfferSections(c: Conn)
    requires CanPlan(c)
    ensures |PlanOf(c)| <= 0x1_0000 && OfferAllocation.Sane(PlanOf(c), |Lines(c)|, |c.trs|)
    ensures var d, p, names := MakeOffer(c).0, PlanOf(c), Named(PlanOf(c), c.counter).0;
            && |d.medias| == |p| && d.what == Offer && d.setup == Some(ActPass)
            && (forall i :: 0 <= i < |p| ==> d.medias[i] == SectionOf(c, p[i], names[i]) && d.medias[i].mid == names[i])
            && OfferAllocation.Tidy(d.medias)
  {
    hide OfferAllocation.Plan, OfferAllocation.Total, Named;
    PlanFits(c);
    NamesAreDistinct(c);
    var d, p, names := MakeOffer(c).0, PlanOf(c), Named(PlanOf(c), c.counter).0;
    forall i | 0 <= i < |p| ensures d.medias[i] == SectionOf(c, p[i], names[i]) && d.medias[i].mid == names[i] {
      OfferAllocation.PlanIsSound(Lines(c), c.trs, c.needSctp, i);
    }
  }

  /** A transceiver the plan gives no section. */
  ghost predicate LeftOut(c: Conn, k: nat) {
    forall i :: 0 <= i < |PlanOf(c)| ==> PlanOf(c)[i].slot != OfferAllocation.Held(k)
  }

  /** Left out are new transceivers that were stopped, and those whose mid no section has or an earlier one holds. */
  lemma LeftOutIff(c: Conn, k: nat)
    requires CanPlan(c) && k < |c.trs|
    ensures LeftOut(c, k) <==>
            if c.trs[k].mid == "" then c.trs[k].stopped
            else forall i :: 0 <= i < |Lines(c)| ==> OfferAllocation.Keeper(c.trs, |c.trs|, Lines(c)[i].mid) != Some(k)
  {
    hide OfferAllocation.Total, OfferAllocation.Requests, OfferAllocation.RecyclableBefore;
    var lines, p, t := Lines(c), PlanOf(c), c.trs[k];
    forall i | 0 <= i < |p|
      ensures p[i].slot == OfferAllocation.Held(k) ==>
                if t.mid == "" then !t.stopped else i < |lines| && lines[i].mid == t.mid && OfferAllocation.Kept(lines, c.trs, i)
    {
      OfferAllocation.PlanIsSound(lines, c.trs, c.needSctp, i);
      if p[i].slot == OfferAllocation.Held(k) && t.mid != "" {
        assert c.trs[k].mid == lines[i].mid;
      }
    }
    if t.mid == "" && !t.stopped {
      var i := OfferAllocation.EveryRequestIsPlaced(lines, c.trs, c.needSctp, OfferAllocation.Held(k));
    }
    forall i | 0 <= i < |lines| && OfferAllocation.Keeper(c.trs, |c.trs|, lines[i].mid) == Some(k)
      ensures i < |p| && p[i].slot == OfferAllocation.Held(k)
    {
      assert p[i] == OfferAllocation.EntryAt(lines, c.trs, c.needSctp, i);
    }
    forall i | 0 <= i < |p| && p[i].slot == OfferAllocation.Held(k) && t.mid != ""
      ensures OfferAllocation.Keeper(c.trs, |c.trs|, lines[i].mid) == Some(k)
    {
      assert p[i] == OfferAllocation.EntryAt(lines, c.trs, c.needSctp, i);
    }
  }

  lemma {:induction false} RecordedIs(trs: seq<Tr>, p: seq<OfferAllocation.Entry>, n: nat, k: nat)
    requires n <= |p| && k < |trs| && forall e :: e in p && e.slot.Held? ==> e.slot.k < |trs|
    requires forall i, j :: 0 <= i < j < |p| && p[i].slot == OfferAllocation.Held(k) ==> p[j].slot != OfferAllocation.Held(k)
    ensures var r := Recorded(trs, p, n);
            && r[k] == trs[k].(mline := r[k].mline)
            && (forall i :: 0 <= i < n && p[i].slot == OfferAllocation.Held(k) ==> r[k].mline == Some(i))
            && ((forall i :: 0 <= i < n ==> p[i].slot != OfferAllocation.Held(k)) ==> r[k] == trs[k])
  {
    if n > 0 {
      assert p[n - 1] in p;
      RecordedIs(trs, p, n - 1, k);
    }
  }

  /** A transceiver's record afterwards points at its own section. */
  lemma RecordedMlines(c: Conn, k: nat)
    requires CanPlan(c) && k < |c.trs|
    ensures var t, p := MakeOffer(c).1.trs[k], PlanOf(c);
            && t == c.trs[k].(mline := t.mline)
            && (forall i :: 0 <= i < |p| && p[i].slot == OfferAllocation.Held(k) ==> t.mline == Some(i))
            && (LeftOut(c, k) ==> t == c.trs[k])
  {
    hide OfferAllocation.Plan, OfferAllocation.Total, Recorded;
    PlanFits(c);
    var p := PlanOf(c);
    forall i, j | 0 <= i < j < |p| && p[i].slot == OfferAllocation.Held(k) ensures p[j].slot != OfferAllocation.Held(k) {
      OfferAllocation.PlacedOnce(Lines(c), c.trs, c.needSctp, i, j);
    }
    RecordedIs(c.trs, p, |p|, k);
  }

  /** Nothing changed but where transceivers are recorded, and the counter mids are made from. */
  predicate OnlyRecords(c: Conn, d: Conn) {
    && d == c.(trs := d.trs, counter := d.counter) && |d.trs| == |c.trs|
    && forall k :: 0 <= k < |c.trs| ==> d.trs[k] == c.trs[k].(mline := d.trs[k].mline)
  }

  lemma OfferKeeps(c: Conn)
    requires CanPlan(c)
    ensures var (d, made) := MakeOffer(c);
            |made.trs| == |c.trs| && made == c.(trs := made.trs, counter := made.counter) && d.what == Offer
  {
  }

  /** An offer made when one may be set passes the checks of set_local_description exactly when every transceiver it leaves
      out is still where an earlier offer recorded it, if one did (section 5.2.2 of RFC 8829). */
  lemma OfferPassesIff(c: Conn)
    requires CanPlan(c) && (c.signaling == Stable || c.signaling == Closed)
    ensures var (d, made) := MakeOffer(c);
            SetLocal(made, d).1.None? <==> forall k :: 0 <= k < |c.trs| && LeftOut(c, k) ==> InPlace(c.trs[k], d.medias)
  {
    hide LeftOut, Misplaced, InPlace, MakeOffer;
    var (d, made) := MakeOffer(c);
    OfferKeeps(c);
    MisplacedIff(made.trs, d.medias);
    forall k | 0 <= k < |c.trs| ensures InPlace(made.trs[k], d.medias) <==> (LeftOut(c, k) ==> InPlace(c.trs[k], d.medias)) {
      if LeftOut(c, k) {
        RecordedMlines(c, k);
      } else {
        HeldInPlace(c, k);
      }
    }
  }

  /** The checks can fail: one transceiver, an offer, a stop, a second offer without it, which is then refused. */
  lemma StoppedAfterOfferFails(codec: Codec, direction: Direction)
    ensures var c := Conn([Tr("", direction, codec, false, None)], false, 0, Stable, None, None, false);
            var first := MakeOffer(c).1;
            && |first.trs| == 1
            && var stopped := first.(trs := [first.trs[0].(stopped := true)]);
            && CanPlan(stopped)
            && var (offer, made) := MakeOffer(stopped);
            SetLocal(made, offer).1.Some?
  {
    var c := Conn([Tr("", direction, codec, false, None)], false, 0, Stable, None, None, false);
    var first := MakeOffer(c).1;
    OfferKeeps(c);
    var i := OfferAllocation.EveryRequestIsPlaced([], c.trs, false, OfferAllocation.Held(0));
    RecordedMlines(c, 0);
    var stopped := first.(trs := [first.trs[0].(stopped := true)]);
    hide OfferAllocation.Plan, OfferAllocation.Total, MakeOffer, LeftOut, SetLocal;
    LeftOutIff(stopped, 0);
    OfferSections(stopped);
    OfferPassesIff(stopped);
    NothingToOffer(stopped.trs);
    assert !InPlace(stopped.trs[0], MakeOffer(stopped).0.medias);
  }

  lemma NothingToOffer(trs: seq<Tr>)
    requires |trs| == 1 && trs[0].stopped
    ensures OfferAllocation.Total([], trs, false) == 0
  {
    assert OfferAllocation.Requests(trs, 1, false) == OfferAllocation.Requests(trs, 0, false) + [];
  }

  lemma HeldInPlace(c: Conn, k: nat)
    requires CanPlan(c) && k < |c.trs| && !LeftOut(c, k)
    ensures InPlace(MakeOffer(c).1.trs[k], MakeOffer(c).0.medias)
  {
    hide OfferAllocation.Plan, OfferAllocation.Total, MakeOffer, OfferAllocation.Tidy, Named;
    var p := PlanOf(c);
    var i :| 0 <= i < |p| && p[i].slot == OfferAllocation.Held(k);
    RecordedMlines(c, k);
    OfferSections(c);
    NamesAreDistinct(c);
    PlanMids(c, i);
  }

  lemma PlanMids(c: Conn, i: nat)
    requires CanPlan(c) && i < |PlanOf(c)|
    ensures var e := PlanOf(c)[i]; e.slot.Held? ==> e.slot.k < |c.trs| && e.mid == c.trs[e.slot.k].mid
  {
    OfferAllocation.PlanIsSound(Lines(c), c.trs, c.needSctp, i);
  }

  // ---------------------------------------------------------------------------------------------
  // The answerer

  /** No transceiver has a section yet. */
  predicate Unassigned(trs: seq<Tr>) {
    forall k :: 0 <= k < |trs| ==> trs[k].mid == ""
  }

  /** The transceiver that section `i` of an offer is given. */
  function MatchOf(trs: seq<Tr>, medias: seq<Media>, i: nat): Option<nat>
    requires i < |medias|
  {
    if medias[i].what.Rtp? then Pick(Assigned(trs, medias, i).0, 0, medias[i].what.kind) else None
  }

  /** A transceiver that is given a section. */
  function Taking(t: Tr, m: Media): Tr {
    AfterRemoteOffer(t.(mid := m.mid), m)
  }

  /** The last of the first `n` sections that transceiver `k` is given. */
  function Given(trs: seq<Tr>, medias: seq<Media>, n: nat, k: nat): (r: Option<nat>)
    requires n <= |medias|
    ensures r.Some? ==> r.value < n && MatchOf(trs, medias, r.value) == Some(k)
    ensures r.None? ==> forall i :: 0 <= i < n ==> MatchOf(trs, medias, i) != Some(k)
  {
    if n == 0 then None else if MatchOf(trs, medias, n - 1) == Some(k) then Some(n - 1) else Given(trs, medias, n - 1, k)
  }

  lemma AssignedStep(trs: seq<Tr>, medias: seq<Media>, n: nat)
    requires n < |medias| && Assigned(trs, medias, n).1 && medias[n].mid != ""
    ensures var r, s, k := Assigned(trs, medias, n).0, Assigned(trs, medias, n + 1), MatchOf(trs, medias, n);
            s.1 && if k.None? then s.0 == r
                   else k.value < |r| && r[k.value].mid == "" && !r[k.value].stopped
                        && s.0 == r[k.value := Taking(r[k.value], medias[n])]
  {
    hide AfterRemoteOffer;
  }

  lemma {:induction false} AssignedOk(trs: seq<Tr>, medias: seq<Media>, n: nat)
    requires n <= |medias| && OfferAllocation.Tidy(medias)
    ensures Assigned(trs, medias, n).1
  {
    if n > 0 {
      AssignedOk(trs, medias, n - 1);
    }
  }

  lemma TakingMid(t: Tr, m: Media)
    ensures Taking(t, m).mid == m.mid && Taking(t, m).stopped == t.stopped
  {
  }

  /** A transceiver is either untouched or given one section, which it keeps. */
  lemma {:induction false} AssignedHolds(trs: seq<Tr>, medias: seq<Media>, n: nat, k: nat)
    requires n <= |medias| && k < |trs| && Unassigned(trs) && OfferAllocation.Tidy(medias)
    ensures var t, i := Assigned(trs, medias, n).0[k], Given(trs, medias, n, k);
            if i.None? then t == trs[k] else !trs[k].stopped && t == Taking(trs[k], medias[i.value])
  {
    hide Assigned, MatchOf, Taking, Given, OfferAllocation.Tidy, Unassigned;
    if n == 0 {
      NoneAssigned(trs, medias, k);
    } else {
      AssignedHolds(trs, medias, n - 1, k);
      AssignedOk(trs, medias, n - 1);
      OfferAllocation.TidyMid(medias, n - 1);
      AssignedStep(trs, medias, n - 1);
      GivenStep(trs, medias, n, k);
      var i := Given(trs, medias, n - 1, k);
      if i.Some? {
        OfferAllocation.TidyMid(medias, i.value);
        TakingMid(trs[k], medias[i.value]);
      }
    }
  }

  lemma NoneAssigned(trs: seq<Tr>, medias: seq<Media>, k: nat)
    ensures Assigned(trs, medias, 0).0 == trs && Given(trs, medias, 0, k) == None
  {
  }

  /** Of all sections matched with a transceiver there is only one. */
  lemma {:induction false} GivenOnce(trs: seq<Tr>, medias: seq<Media>, n: nat, k: nat, j: nat)
    requires j < n <= |medias| && k < |trs| && Unassigned(trs) && OfferAllocation.Tidy(medias)
    requires MatchOf(trs, medias, j) == Some(k)
    ensures Given(trs, medias, n, k) == Some(j)
  {
    hide MatchOf, Given, Assigned, Taking, Unassigned, OfferAllocation.Tidy;
    GivenStep(trs, medias, n, k);
    if j < n - 1 {
      GivenOnce(trs, medias, n - 1, k, j);
      AssignedHolds(trs, medias, n - 1, k);
      AssignedOk(trs, medias, n - 1);
      OfferAllocation.TidyMid(medias, n - 1);
      OfferAllocation.TidyMid(medias, j);
      TakingMid(trs[k], medias[j]);
      AssignedStep(trs, medias, n - 1);
    }
  }

  lemma GivenStep(trs: seq<Tr>, medias: seq<Media>, n: nat, k: nat)
    requires 0 < n <= |medias|
    ensures Given(trs, medias, n, k) == if MatchOf(trs, medias, n - 1) == Some(k) then Some(n - 1) else Given(trs, medias, n - 1, k)
  {
  }

  /** Every section of an offer finds, under its mid, the transceiver it was given, or none; different sections are given
      different transceivers. */
  lemma SectionHolder(trs: seq<Tr>, medias: seq<Media>, i: nat)
    requires i < |medias| && Unassigned(trs) && OfferAllocation.Tidy(medias)
    ensures var r, m := Assigned(trs, medias, |medias|), MatchOf(trs, medias, i);
            && r.1 && OfferAllocation.Keeper(r.0, |r.0|, medias[i].mid) == m
            && (m.Some? ==> m.value < |trs| && !trs[m.value].stopped && medias[i].what == Rtp(KindOf(trs[m.value].codec))
                            && r.0[m.value] == Taking(trs[m.value], medias[i])
                            && forall j :: 0 <= j < |medias| && j != i ==> MatchOf(trs, medias, j) != m)
  {
    hide Assigned, MatchOf, OfferAllocation.Keeper, Taking, Given;
    var n := |medias|;
    var r, m := Assigned(trs, medias, n).0, MatchOf(trs, medias, i);
    AssignedOk(trs, medias, n);
    forall k | 0 <= k < |trs| ensures r[k].mid == medias[i].mid <==> m == Some(k) {
      HoldsMid(trs, medias, i, k);
    }
    MatchIsPicked(trs, medias, i);
    if m.Some? {
      AssignedHolds(trs, medias, n, m.value);
      GivenOnce(trs, medias, n, m.value, i);
      forall j | 0 <= j < |medias| && MatchOf(trs, medias, j) == m ensures j == i {
        GivenOnce(trs, medias, n, m.value, j);
      }
    }
  }

  lemma HoldsMid(trs: seq<Tr>, medias: seq<Media>, i: nat, k: nat)
    requires i < |medias| && k < |trs| && Unassigned(trs) && OfferAllocation.Tidy(medias)
    ensures Assigned(trs, medias, |medias|).0[k].mid == medias[i].mid <==> MatchOf(trs, medias, i) == Some(k)
  {
    hide Assigned, MatchOf, Taking, Given;
    AssignedHolds(trs, medias, |medias|, k);
    if MatchOf(trs, medias, i) == Some(k) {
      GivenOnce(trs, medias, |medias|, k, i);
    }
    var g := Given(trs, medias, |medias|, k);
    if g.Some? {
      TakingMid(trs[k], medias[g.value]);
    }
  }

  lemma MatchIsPicked(trs: seq<Tr>, medias: seq<Media>, i: nat)
    requires i < |medias| && Unassigned(trs) && OfferAllocation.Tidy(medias)
    ensures var m := MatchOf(trs, medias, i);
            m.Some? ==> m.value < |trs| && medias[i].what == Rtp(KindOf(trs[m.value].codec))
  {
    var m := MatchOf(trs, medias, i);
    if m.Some? {
      AssignedHolds(trs, medias, i, m.value);
    }
  }

  // ---------------------------------------------------------------------------------------------
  // One offer and one answer

  /** Descriptions exchanged and both sides' final states. */
  datatype Outcome = Outcome(offer: Description, answer: Description, offerer: Conn, answerer: Conn)

  /** The six calls of an exchange; nothing when one of them fails. */
  function Exchange(a: Conn, b: Conn): Option<Outcome>
    requires CanPlan(a)
  {
    var (offer, a0) := MakeOffer(a);
    var (a1, e1) := SetLocal(a0, offer);
    var (b1, e2) := SetRemote(b, offer);
    var answer := MakeAnswer(b1);
    if e1.Some? || e2.Some? || answer.None? then None
    else
      var (b2, e3) := SetLocal(b1, answer.value);
      var (a2, e4) := SetRemote(a1, answer.value);
      if e3.Some? || e4.Some? then None else Some(Outcome(offer, answer.value, a2, b2))
  }

  predicate Idle(c: Conn) {
    c.signaling == Stable || c.signaling == Closed
  }

  lemma {:induction false} LiveMidsAre(medias: seq<Media>)
    ensures LiveMids(medias) != [] <==> exists m :: m in medias && m.port != 0
    ensures forall m :: m in medias && m.port != 0 ==> m.mid in LiveMids(medias)
  {
    if medias != [] {
      var last := medias[|medias| - 1];
      LiveMidsAre(medias[..|medias| - 1]);
      assert medias == medias[..|medias| - 1] + [last];
    }
  }

  /** Data channel sections of an offer are alive and wanted. */
  lemma OfferedApplication(c: Conn)
    requires CanPlan(c)
    ensures forall m :: m in MakeOffer(c).0.medias && m.what == Application ==> c.needSctp && m.port != 0
    ensures c.needSctp ==> exists m :: m in MakeOffer(c).0.medias && m.what == Application
  {
    hide OfferAllocation.Plan, OfferAllocation.Total, MakeOffer, Named, OfferAllocation.Tidy;
    OfferSections(c);
    var d, p, names := MakeOffer(c).0, PlanOf(c), Named(PlanOf(c), c.counter).0;
    forall m | m in d.medias && m.what == Application ensures c.needSctp && m.port != 0 {
      var i :| 0 <= i < |d.medias| && d.medias[i] == m;
      OfferAllocation.PlanIsSound(Lines(c), c.trs, c.needSctp, i);
      assert p[i].slot == OfferAllocation.Sctp;
    }
    if c.needSctp {
      var i := OfferAllocation.EveryRequestIsPlaced(Lines(c), c.trs, c.needSctp, OfferAllocation.Sctp);
      assert d.medias[i] in d.medias && d.medias[i].what == Application;
    }
  }

  /** What the answerer makes of an offer with a live section, and of its own answer. */
  lemma AnswererSteps(a: Conn, b: Conn)
    requires CanPlan(a) && Idle(b) && Unassigned(b.trs)
    ensures var offer := MakeOffer(a).0;
            var (b1, e) := SetRemote(b, offer);
            && (e.None? <==> exists m :: m in offer.medias && m.port != 0)
            && (e.None? ==> b1 == b.(trs := Assigned(b.trs, offer.medias, |offer.medias|).0, remote := Some(offer),
                                     signaling := HaveRemoteOffer, controlling := false)
                            && MakeAnswer(b1).Some? && SetLocal(b1, MakeAnswer(b1).value).1.None?)
  {
    hide MakeOffer, SetRemote, MakeAnswer, SetLocal, OfferWith, OfferAllocation.Tidy, OfferAllocation.Plan, OfferAllocation.Total;
    var offer := MakeOffer(a).0;
    OfferSections(a);
    OfferedApplication(a);
    OfferIs(a);
    OfferIsTaken(b, offer);
    if SetRemote(b, offer).1.None? {
      AnswerIsMade(SetRemote(b, offer).0);
    }
  }

  lemma OfferIsTaken(b: Conn, offer: Description)
    requires Idle(b) && OfferAllocation.Tidy(offer.medias) && offer == OfferWith(offer.medias)
    requires forall m :: m in offer.medias && m.what == Application ==> m.port != 0
    ensures var (b1, e) := SetRemote(b, offer);
            && (e.None? <==> exists m :: m in offer.medias && m.port != 0)
            && (e.None? ==> b1 == b.(trs := Assigned(b.trs, offer.medias, |offer.medias|).0, remote := Some(offer),
                                     signaling := HaveRemoteOffer, controlling := false))
  {
    hide LiveMids, Assigned, OfferAllocation.Tidy;
    LiveMidsAre(offer.medias);
    AssignedOk(b.trs, offer.medias, |offer.medias|);
  }

  lemma AnswerIsMade(b: Conn)
    requires b.signaling == HaveRemoteOffer && b.remote.Some?
    ensures MakeAnswer(b).Some? && SetLocal(b, MakeAnswer(b).value).1.None?
  {
  }

  lemma OfferIs(c: Conn)
    requires CanPlan(c)
    ensures MakeOffer(c).0 == OfferWith(MakeOffer(c).0.medias)
  {
  }

  /** An exchange between idle connections succeeds exactly when the offer has a live section and every transceiver it
      leaves out is still where an earlier offer recorded it. */
  lemma ExchangeSucceedsIff(a: Conn, b: Conn)
    requires CanPlan(a) && Idle(a) && Idle(b) && Unassigned(b.trs)
    ensures var offer := MakeOffer(a).0;
            Exchange(a, b).Some? <==> (exists m :: m in offer.medias && m.port != 0)
                                      && forall k :: 0 <= k < |a.trs| && LeftOut(a, k) ==> InPlace(a.trs[k], offer.medias)
  {
    hide MakeOffer, LiveMids, Assigned, OfferAllocation.Tidy, OfferAllocation.Plan, OfferAllocation.Total, LeftOut, InPlace;
    OfferKeeps(a);
    OfferPassesIff(a);
    AnswererSteps(a, b);
  }

  // ---------------------------------------------------------------------------------------------
  // A first offer, in terms of the connection before it

  /** Transceivers that are not stopped. */
  function Running(trs: seq<Tr>, k: nat): (n: nat)
    requires k <= |trs|
    ensures n > 0 <==> exists x :: 0 <= x < k && !trs[x].stopped
  {
    if k == 0 then 0 else Running(trs, k - 1) + if trs[k - 1].stopped then 0 else 1
  }

  /** Number of sections a first offer has. */
  function FirstSize(c: Conn): nat {
    Running(c.trs, |c.trs|) + if c.needSctp then 1 else 0
  }

  lemma {:induction false} RequestsAreRunning(trs: seq<Tr>, k: nat, needSctp: bool)
    requires k <= |trs| && Unassigned(trs)
    ensures |OfferAllocation.Requests(trs, k, needSctp)| == Running(trs, k) + if needSctp then 1 else 0
  {
    if k > 0 {
      RequestsAreRunning(trs, k - 1, needSctp);
    }
  }

  /** No local description, and no transceiver has a section yet. */
  predicate First(c: Conn) {
    c.local.None? && Unassigned(c.trs) && |c.trs| < 0x1_0000
  }

  lemma FirstOffer(c: Conn, i: nat)
    requires First(c) && CanPlan(c)
    ensures |MakeOffer(c).0.medias| == |PlanOf(c)| == FirstSize(c)
    ensures i < FirstSize(c) ==> MakeOffer(c).0.medias[i].port == 9
  {
    hide OfferAllocation.Plan, MakeOffer, Named, OfferAllocation.Tidy;
    RequestsAreRunning(c.trs, |c.trs|, c.needSctp);
    NoLines(c);
    OfferSections(c);
    if i < FirstSize(c) {
      OfferAllocation.PlanIsSound(Lines(c), c.trs, c.needSctp, i);
    }
  }

  lemma NoLines(c: Conn)
    requires c.local.None?
    ensures Lines(c) == [] && |PlanOf(c)| == |OfferAllocation.Requests(c.trs, |c.trs|, c.needSctp)|
  {
  }

  /** A first offer passes the checks exactly when no stopped transceiver has kept, from an earlier offer, a place beyond
      the sections there are now. */
  lemma FirstOfferPassesIff(c: Conn)
    requires First(c) && CanPlan(c) && Idle(c)
    ensures var (offer, made) := MakeOffer(c);
            SetLocal(made, offer).1.None? <==>
            forall k :: 0 <= k < |c.trs| && c.trs[k].stopped && c.trs[k].mline.Some? ==> c.trs[k].mline.value < FirstSize(c)
  {
    hide OfferAllocation.Plan, OfferAllocation.Total, MakeOffer, LeftOut, SetLocal;
    OfferPassesIff(c);
    FirstOffer(c, 0);
    forall k | 0 <= k < |c.trs| ensures LeftOut(c, k) <==> c.trs[k].stopped {
      LeftOutIff(c, k);
    }
  }

  /** A first exchange succeeds exactly when there is something to offer and the offer passes the checks. */
  lemma FirstExchangeSucceedsIff(a: Conn, b: Conn)
    requires First(a) && CanPlan(a) && Idle(a) && Idle(b) && Unassigned(b.trs)
    ensures Exchange(a, b).Some? <==>
            (a.needSctp || exists k :: 0 <= k < |a.trs| && !a.trs[k].stopped)
            && forall k :: 0 <= k < |a.trs| && a.trs[k].stopped && a.trs[k].mline.Some? ==> a.trs[k].mline.value < FirstSize(a)
  {
    hide OfferAllocation.Plan, OfferAllocation.Total, MakeOffer, LeftOut, SetLocal, Exchange;
    ExchangeSucceedsIff(a, b);
    OfferPassesIff(a);
    FirstOfferPassesIff(a);
    var medias := MakeOffer(a).0.medias;
    FirstOffer(a, 0);
    if FirstSize(a) > 0 {
      assert medias[0] in medias;
    }
  }

  /** The transceivers two ends have for a section of the offer. */
  function OffererOf(a: Conn, i: nat): Option<nat>
    requires i < |PlanOf(a)|
  {
    if PlanOf(a)[i].slot.Held? then Some(PlanOf(a)[i].slot.k) else None
  }

  /** Codecs are made from the supported formats, never from the retransmission format. */
  predicate NoRtx(trs: seq<Tr>) {
    forall k :: 0 <= k < |trs| ==> Lower(trs[k].codec.name) != "rtx"
  }

  lemma ExchangeIs(a: Conn, b: Conn)
    requires CanPlan(a) && Idle(a) && Idle(b) && Unassigned(b.trs) && Exchange(a, b).Some?
    ensures var (offer, made) := MakeOffer(a);
            var o := Exchange(a, b).value;
            && |offer.medias| == |PlanOf(a)| && o.offer == offer && (forall k :: 0 <= k < |made.trs| ==> InPlace(made.trs[k], offer.medias))
            && var held := Assigned(b.trs, offer.medias, |offer.medias|).0;
            && o.answer == Description(Answer, AnswerSections(held, offer.medias), o.answer.bundle, Some(Active))
            && o.answerer == b.(trs := held, local := Some(o.answer), remote := Some(offer), signaling := HaveLocalPranswer,
                                controlling := false)
            && o.offerer == made.(trs := AllSettled(WithMids(made.trs, offer.medias), o.answer.medias), local := Some(offer),
                                  remote := Some(o.answer), signaling := HaveRemotePranswer, controlling := true)
  {
    hide MakeOffer, LiveMids, Assigned, OfferAllocation.Tidy, OfferAllocation.Plan, OfferAllocation.Total, LeftOut, InPlace;
    OfferKeeps(a);
    OfferSections(a);
    AnswererSteps(a, b);
    MisplacedIff(MakeOffer(a).1.trs, MakeOffer(a).0.medias);
  }

  /** The offerer's transceiver of section `i` answers to that section's mid. */
  lemma OffererHolds(a: Conn, i: nat)
    requires CanPlan(a) && i < |PlanOf(a)| && OffererOf(a, i).Some?
    requires i < |MakeOffer(a).0.medias|
    requires OffererOf(a, i).value < |a.trs| ==> InPlace(MakeOffer(a).1.trs[OffererOf(a, i).value], MakeOffer(a).0.medias)
    ensures var k, offer, made := OffererOf(a, i).value, MakeOffer(a).0, MakeOffer(a).1;
            k < |a.trs| && offer.medias[i] == OfferMedia(a.trs[k], offer.medias[i].mid).(setup := Some(ActPass))
            && WithMid(made.trs[k], offer.medias) == a.trs[k].(mline := Some(i), mid := offer.medias[i].mid)
  {
    hide OfferAllocation.Plan, OfferAllocation.Total, MakeOffer, OfferAllocation.Tidy, Named;
    OfferSections(a);
    NamesAreDistinct(a);
    PlanMids(a, i);
    RecordedMlines(a, OffererOf(a, i).value);
  }

  /** Each section's mid is that of the transceiver it was planned for, and of no other. */
  ghost predicate OwnSections(c: Conn, medias: seq<Media>, trs: seq<Tr>)
    requires |medias| == |PlanOf(c)|
  {
    forall i, k :: 0 <= i < |medias| && 0 <= k < |trs| ==> (trs[k].mid == medias[i].mid <==> OffererOf(c, i) == Some(k))
  }

  lemma PlacedOwns(c: Conn, i: nat, k: nat)
    requires First(c) && CanPlan(c) && k < |c.trs| && !c.trs[k].stopped && i < |MakeOffer(c).0.medias| == |PlanOf(c)|
    ensures InPlace(MakeOffer(c).1.trs[k], MakeOffer(c).0.medias)
    ensures WithMid(MakeOffer(c).1.trs[k], MakeOffer(c).0.medias).mid == MakeOffer(c).0.medias[i].mid <==> OffererOf(c, i) == Some(k)
  {
    hide OfferAllocation.Plan, OfferAllocation.Total, MakeOffer, LeftOut, InPlace, WithMid, OfferAllocation.Tidy;
    LeftOutIff(c, k);
    HeldInPlace(c, k);
    OfferSections(c);
    var i0: nat := HeldAt(c, k);
    OffererHolds(c, i0);
    if i != i0 {
      if i < i0 {
        OfferAllocation.PlacedOnce(Lines(c), c.trs, c.needSctp, i, i0);
      } else {
        OfferAllocation.PlacedOnce(Lines(c), c.trs, c.needSctp, i0, i);
      }
      OfferAllocation.TidyDiffers(MakeOffer(c).0.medias, i, i0);
    }
  }

  lemma HeldAt(c: Conn, k: nat) returns (i: nat)
    requires CanPlan(c) && k < |c.trs| && !LeftOut(c, k)
    ensures i < |PlanOf(c)| && OffererOf(c, i) == Some(k)
  {
    i :| 0 <= i < |PlanOf(c)| && PlanOf(c)[i].slot == OfferAllocation.Held(k);
  }

  /** Before any description is set, an offer passes and each of its sections belongs to its own transceiver alone exactly when
      no stopped transceiver was given a place by an earlier offer: one whose place is gone fails the checks, and any other
      takes on the mid of the section that is there now. */
  lemma OwnSectionsIff(c: Conn)
    requires First(c) && CanPlan(c) && Idle(c)
    ensures var (offer, made) := MakeOffer(c);
            var (placed, error) := SetLocal(made, offer);
            && |offer.medias| == |PlanOf(c)|
            && (error.None? && OwnSections(c, offer.medias, placed.trs) <==>
                forall k :: 0 <= k < |c.trs| && c.trs[k].stopped ==> c.trs[k].mline.None?)
  {
    hide OfferAllocation.Plan, OfferAllocation.Total, MakeOffer, LeftOut, WithMid, Misplaced, InPlace, OffererOf;
    var (offer, made) := MakeOffer(c);
    var (placed, error) := SetLocal(made, offer);
    OfferSections(c);
    OfferKeeps(c);
    FirstOfferPassesIff(c);
    MisplacedIff(made.trs, offer.medias);
    if error.None? {
      forall k | 0 <= k < |c.trs|
        ensures (forall i :: 0 <= i < |offer.medias| ==> (placed.trs[k].mid == offer.medias[i].mid <==> OffererOf(c, i) == Some(k)))
                <==> (c.trs[k].stopped ==> c.trs[k].mline.None?)
      {
        if c.trs[k].stopped {
          StoppedOwns(c, k);
        } else {
          forall i | 0 <= i < |offer.medias| ensures placed.trs[k].mid == offer.medias[i].mid <==> OffererOf(c, i) == Some(k) {
            PlacedOwns(c, i, k);
          }
        }
      }
    }
  }

  lemma StoppedOwns(c: Conn, k: nat)
    requires First(c) && CanPlan(c) && k < |c.trs| && c.trs[k].stopped && |MakeOffer(c).0.medias| == |PlanOf(c)|
    requires k < |MakeOffer(c).1.trs| && InPlace(MakeOffer(c).1.trs[k], MakeOffer(c).0.medias)
    ensures var (offer, made) := MakeOffer(c);
            (forall i :: 0 <= i < |offer.medias| ==> (WithMid(made.trs[k], offer.medias).mid == offer.medias[i].mid <==> OffererOf(c, i) == Some(k)))
            <==> c.trs[k].mline.None?
  {
    hide OfferAllocation.Plan, OfferAllocation.Total, MakeOffer, OfferAllocation.Tidy;
    var (offer, made) := MakeOffer(c);
    LeftOutIff(c, k);
    RecordedMlines(c, k);
    OfferSections(c);
    forall i | 0 <= i < |offer.medias| ensures offer.medias[i].mid != "" {
      OfferAllocation.TidyMid(offer.medias, i);
    }
    if c.trs[k].mline.Some? {
      assert WithMid(made.trs[k], offer.medias).mid == offer.medias[c.trs[k].mline.value].mid;
    }
  }

  lemma AnswerMid(trs: seq<Tr>, m: Media)
    ensures AnswerSection(trs, m).mid == m.mid
  {
  }

  lemma FindOwn(trs: seq<Tr>, offer: seq<Media>, i: nat)
    requires i < |offer| && OfferAllocation.Tidy(offer)
    ensures Find(AnswerSections(trs, offer), offer[i].mid) == Some(i)
  {
    hide AnswerSection;
    var answer := AnswerSections(trs, offer);
    forall x | 0 <= x < |offer| ensures answer[x].mid == offer[x].mid {
      AnswerMid(trs, offer[x]);
    }
  }

  /** The offerer's side of a section once it has the answer for it. */
  function Concluded(t: Tr, answered: Media): Tr {
    var u := AfterRemoteAnswer(t, answered);
    if u.direction == INACTIVE then u.(stopped := true) else u
  }

  lemma SectionOutcome(x: Tr, y: Tr, m: Media, i: nat)
    requires !y.stopped && Lower(y.codec.name) != "rtx" && m == OfferMedia(x, m.mid).(setup := m.setup)
    ensures var y1 := AfterRemoteOffer(y.(mid := m.mid), m);
            var answered := AnswerMedia(y1, m);
            var x1 := Concluded(x.(mline := Some(i), mid := m.mid), answered);
            && x1.mid == y1.mid == m.mid && y1.direction == Agreed(x, y) && x1.direction == Reverse(y1.direction)
            && answered.direction == y1.direction
            && (y1.direction != INACTIVE ==> x1.codec.payload == y1.codec.payload == x.codec.payload)
            && (y1.direction == INACTIVE ==> answered.port == 0 && x1.stopped)
  {
    hide FirstMatch, IsMatch, OfferMedia;
    SectionIsMirrored(x, y.(mid := m.mid), m.mid);
  }

  lemma RefusedOutcome(t: Tr, what: MediaType)
    ensures var x := Concluded(t, Media(t.mid, what, 0, INACTIVE, [], None)); x.direction == INACTIVE && x.stopped
  {
  }

  lemma SettledIs(t: Tr, medias: seq<Media>, i: nat)
    requires i < |medias| && Find(medias, t.mid) == Some(i)
    ensures Settled(t, medias) == Concluded(t, medias[i])
  {
  }

  /** A section offered from `t` and answered by `u`, which end up as `x` and `y`: the answerer sends exactly when it wanted to
      and the offerer wanted to receive, it receives exactly when it wanted to and the offerer wanted to send, the offerer does
      the opposite, neither does anything on a stopped offerer or differing codecs, and the offered payload type is used. */
  predicate BothEnds(t: Tr, u: Tr, offered: Media, answered: Media, x: Tr, y: Tr) {
    && x.mid == y.mid == offered.mid
    && var on := !t.stopped && IsMatch(t.codec, u.codec);
    && (y.direction.send <==> on && u.direction.send && t.direction.recv)
    && (y.direction.recv <==> on && u.direction.recv && t.direction.send)
    && x.direction.send == y.direction.recv && x.direction.recv == y.direction.send && answered.direction == y.direction
    && (y.direction != INACTIVE ==> x.codec.payload == y.codec.payload == t.codec.payload)
    && (y.direction == INACTIVE ==> answered.port == 0 && x.stopped)
  }

  predicate Refused(answered: Media) {
    answered.direction == INACTIVE && answered.port == 0
  }

  /** What section `i` ends up as: with a transceiver at both ends, agreement as above; without one at the answerer, refused
      and inactive, the offerer stopped. A data channel section is answered as offered, a carried-over one stays dead. */
  ghost predicate SectionAgrees(a: Conn, b: Conn, o: Outcome, i: nat)
    requires i < |PlanOf(a)|
  {
    && |o.answer.medias| == |o.offer.medias| == |PlanOf(a)|
    && |o.offerer.trs| == |a.trs| && |o.answerer.trs| == |b.trs|
    && var m, n := o.offer.medias[i], o.answer.medias[i];
    && n.mid == m.mid
    && match (OffererOf(a, i), MatchOf(b.trs, o.offer.medias, i))
       case (Some(k), Some(j)) =>
         k < |a.trs| && j < |b.trs| && BothEnds(a.trs[k], b.trs[j], m, n, o.offerer.trs[k], o.answerer.trs[j])
       case (Some(k), None) =>
         Refused(n) && k < |a.trs| && o.offerer.trs[k].direction == INACTIVE && o.offerer.trs[k].stopped
       case (None, j) =>
         if m.what == Application then n.port == 9 && n.direction == m.direction == Direction(true, true)
         else m.port == 0 && Refused(n) && (j.Some? ==> j.value < |b.trs| && o.answerer.trs[j.value].direction == INACTIVE)
  }

  /** Every section of every exchange agrees, and the answer keeps the offer's mids in the offer's order (section 6 of
      RFC 3264). */
  lemma SectionsAreMirrored(a: Conn, b: Conn, i: nat)
    requires CanPlan(a) && Idle(a) && Idle(b) && Unassigned(b.trs) && NoRtx(b.trs) && Exchange(a, b).Some?
    requires i < |PlanOf(a)|
    ensures SectionAgrees(a, b, Exchange(a, b).value, i)
  {
    hide MakeOffer, Assigned, OfferAllocation.Plan, OfferAllocation.Total, Exchange, Named, MatchOf, OfferAllocation.Keeper, Settled,
         Concluded, AfterRemoteAnswer, AfterRemoteOffer, AnswerMedia, OfferMedia, InPlace, WithMid, Find, OfferAllocation.Tidy;
    ExchangeIs(a, b);
    OfferSections(a);
    var o := Exchange(a, b).value;
    var offer, m := o.offer.medias, o.offer.medias[i];
    var held := o.answerer.trs;
    var k, j := OffererOf(a, i), MatchOf(b.trs, offer, i);
    SectionHolder(b.trs, offer, i);
    AnswerMid(held, m);
    OfferKeeps(a);
    if k.Some? {
      OfferedKind(a, i);
      OffererHolds(a, i);
      FindOwn(held, offer, i);
      var before := a.trs[k.value].(mline := Some(i), mid := m.mid);
      SettledIs(before, o.answer.medias, i);
      if j.Some? {
        SectionOutcome(a.trs[k.value], b.trs[j.value], m, i);
      } else {
        RefusedOutcome(before, m.what);
      }
    } else {
      UnheldSection(a, i);
      if m.what != Application && j.Some? {
        GapOutcome(b.trs[j.value], m);
      }
    }
  }

  /** A section without a transceiver is the data channel's, which is alive, or a carried-over one, which is dead. */
  lemma UnheldSection(c: Conn, i: nat)
    requires CanPlan(c) && i < |PlanOf(c)| && OffererOf(c, i).None? && i < |MakeOffer(c).0.medias|
    ensures var m := MakeOffer(c).0.medias[i];
            if m.what == Application then m.direction == Direction(true, true) && m.port == 9
            else m.direction == INACTIVE && m.port == 0
  {
    hide OfferAllocation.Plan, OfferAllocation.Total, MakeOffer, Named, OfferAllocation.Tidy;
    OfferSections(c);
    OfferAllocation.PlanIsSound(Lines(c), c.trs, c.needSctp, i);
  }

  lemma GapOutcome(y: Tr, m: Media)
    requires m.direction == INACTIVE
    ensures var y1 := AfterRemoteOffer(y.(mid := m.mid), m);
            y1.direction == INACTIVE && AnswerMedia(y1, m).direction == INACTIVE && AnswerMedia(y1, m).port == 0
  {
  }

  lemma OfferedKind(c: Conn, i: nat)
    requires CanPlan(c) && i < |PlanOf(c)| && OffererOf(c, i).Some?
    ensures OffererOf(c, i).value < |c.trs| && i < |MakeOffer(c).0.medias| && MakeOffer(c).0.medias[i].what.Rtp?
  {
    hide OfferAllocation.Plan, OfferAllocation.Total, MakeOffer, Named, OfferAllocation.Tidy;
    OfferSections(c);
    PlanMids(c, i);
  }

  /** Different sections belong to different transceivers, at both ends. */
  lemma SectionsAreSeparate(a: Conn, b: Conn, i: nat, j: nat)
    requires CanPlan(a) && Idle(a) && Idle(b) && Unassigned(b.trs) && Exchange(a, b).Some?
    requires i < j < |PlanOf(a)|
    ensures |PlanOf(a)| == |Exchange(a, b).value.offer.medias|
    ensures OffererOf(a, i).Some? ==> OffererOf(a, i) != OffererOf(a, j)
    ensures var offer := Exchange(a, b).value.offer.medias; MatchOf(b.trs, offer, i).Some? ==> MatchOf(b.trs, offer, i) != MatchOf(b.trs, offer, j)
  {
    hide MakeOffer, Assigned, OfferAllocation.Plan, OfferAllocation.Total, Exchange, MatchOf, OfferAllocation.Keeper, Named,
         AfterRemoteOffer;
    ExchangeIs(a, b);
    OfferSections(a);
    SectionHolder(b.trs, Exchange(a, b).value.offer.medias, i);
    if OffererOf(a, i).Some? {
      OfferAllocation.PlacedOnce(Lines(a), a.trs, a.needSctp, i, j);
    }
  }

  /** After an exchange exactly one side is ICE controlling and exactly one opens the DTLS handshake; they agree on running
      SCTP, one connecting and one accepting, exactly unless only the answerer asked for a data channel. */
  lemma RolesAreSplit(a: Conn, b: Conn)
    requires CanPlan(a) && Idle(a) && Idle(b) && Unassigned(b.trs) && Exchange(a, b).Some?
    ensures var o := Exchange(a, b).value;
            && o.offerer.controlling && !o.answerer.controlling
            && o.offerer.remote.Some? && o.answerer.remote.Some?
            && !IsActive(o.offerer) && IsActive(o.answerer)
            && (RunsSctp(o.offerer) <==> a.needSctp) && (RunsSctp(o.answerer) <==> a.needSctp || b.needSctp)
            && ((RunsSctp(o.offerer) <==> RunsSctp(o.answerer)) <==> (b.needSctp ==> a.needSctp))
  {
    hide MakeOffer, Assigned, OfferAllocation.Plan, OfferAllocation.Total, Exchange, AnswerSection, Named, OfferAllocation.Tidy;
    ExchangeIs(a, b);
    OfferSections(a);
    OfferKeeps(a);
    OfferedApplication(a);
    var o := Exchange(a, b).value;
    var held, offer := o.answerer.trs, o.offer.medias;
    forall m | m in o.answer.medias && m.what == Application ensures a.needSctp {
      var i :| 0 <= i < |offer| && o.answer.medias[i] == m;
      AnswerKind(held, offer[i]);
      assert offer[i] in offer;
    }
  }

  /** The two ends can disagree: when only the answerer wants a data channel, it waits for an association nobody opens. */
  lemma OnlyAnswererWantsData(codec: Codec, direction: Direction)
    ensures var a := Conn([Tr("", direction, codec, false, None)], false, 0, Stable, None, None, false);
            var b := Conn([], true, 0, Stable, None, None, false);
            && CanPlan(a) && Exchange(a, b).Some?
            && var o := Exchange(a, b).value;
            o.answerer.remote.Some? && o.offerer.remote.Some? && RunsSctp(o.answerer) && IsActive(o.answerer) && !RunsSctp(o.offerer)
  {
    hide Exchange, MakeOffer;
    var a := Conn([Tr("", direction, codec, false, None)], false, 0, Stable, None, None, false);
    var b := Conn([], true, 0, Stable, None, None, false);
    assert !a.trs[0].stopped;
    FirstExchangeSucceedsIff(a, b);
    RolesAreSplit(a, b);
  }

  lemma AnswerKind(trs: seq<Tr>, m: Media)
    ensures AnswerSection(trs, m).what == m.what
  {
  }
}
