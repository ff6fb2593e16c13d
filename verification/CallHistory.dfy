/** Whole runs of calls on one connection, and on the two connections of an exchange. */
module CallHistory {
  import opened Words
  import opened Session
  import opened Negotiation
  import OfferAllocation

  /** The public calls that change what negotiation reads. A call that throws before it changes anything is no call; adding a
      track adds a transceiver or sets the direction of one. Where an existing data channel section makes create_offer repeat
      itself, the places and the counter it records are left open. */
  datatype Call =
    | AddTransceiver(codec: Codec, direction: Direction)
    | StopTransceiver(k: nat)
    | SetDirection(k: nat, direction: Direction)
    | CreateDataChannel
    | CreateOffer(places: map<nat, nat>, counter: U16)
    | LocalDesc(d: Description)
    | RemoteDesc(d: Description)
    | Close

  function Placed(trs: seq<Tr>, places: map<nat, nat>): (r: seq<Tr>)
    ensures |r| == |trs|
  {
    seq(|trs|, k requires 0 <= k < |trs| => if k in places then trs[k].(mline := Some(places[k])) else trs[k])
  }

  /** Everything set up before is dropped, but neither the signalling state nor the wish for a data channel. */
  function AfterClose(c: Conn): Conn {
    c.(trs := [], local := None, remote := None)
  }

  function Do(c: Conn, call: Call): Conn {
    match call
    case AddTransceiver(codec, direction) =>
      if direction == INACTIVE then c else c.(trs := c.trs + [Tr("", direction, codec, false, None)])
    case StopTransceiver(k) => if k < |c.trs| then c.(trs := c.trs[k := c.trs[k].(stopped := true)]) else c
    case SetDirection(k, direction) => if k < |c.trs| then c.(trs := c.trs[k := c.trs[k].(direction := direction)]) else c
    case CreateDataChannel => c.(needSctp := true)
    case CreateOffer(places, counter) =>
      if CanPlan(c) then MakeOffer(c).1 else c.(trs := Placed(c.trs, places), counter := counter)
    case LocalDesc(d) => SetLocal(c, d).0
    case RemoteDesc(d) => SetRemote(c, d).0
    case Close => AfterClose(c)
  }

  function Run(c: Conn, calls: seq<Call>): Conn {
    if calls == [] then c else Do(Run(c, calls[..|calls| - 1]), calls[|calls| - 1])
  }

  lemma RunStep(c: Conn, calls: seq<Call>)
    requires calls != []
    ensures Run(c, calls) == Do(Run(c, calls[..|calls| - 1]), calls[|calls| - 1])
  {
  }

  predicate Fresh(c: Conn) {
    c.signaling == Stable && c.local.None? && c.remote.None?
  }

  // ---------------------------------------------------------------------------------------------
  // What the signalling state says

  predicate OfType(d: Option<Description>, what: DescType) {
    d.Some? ==> d.value.what == what
  }

  /** Which descriptions can be in place, of which type, and the ICE role that goes with them. */
  predicate Typed(c: Conn) {
    match c.signaling
    case Stable => c.local.None? && c.remote.None?
    case HaveLocalOffer => OfType(c.local, Offer) && c.remote.None? && c.controlling
    case HaveRemoteOffer => OfType(c.remote, Offer) && c.local.None? && !c.controlling
    case HaveLocalPranswer => OfType(c.local, Answer) && OfType(c.remote, Offer) && !c.controlling
    case HaveRemotePranswer => OfType(c.local, Offer) && OfType(c.remote, Answer) && c.controlling
    case Closed => false
  }

  /** The descriptions the state speaks of are there. */
  predicate Complete(c: Conn) {
    match c.signaling
    case Stable => true
    case Closed => false
    case HaveLocalOffer => c.local.Some?
    case HaveRemoteOffer => c.remote.Some?
    case HaveLocalPranswer => c.local.Some? && c.remote.Some?
    case HaveRemotePranswer => c.local.Some? && c.remote.Some?
  }

  /** The connection was closed after a description had been set. */
  predicate ClosedLate(c: Conn, calls: seq<Call>) {
    calls != [] &&
    var before := calls[..|calls| - 1];
    ClosedLate(c, before) || (calls[|calls| - 1].Close? && Run(c, before).signaling != Stable)
  }

  /** The fields negotiation is about, apart from the transceivers. */
  lemma SignallingStep(c: Conn, call: Call)
    ensures var d := Do(c, call);
            match call
            case LocalDesc(desc) =>
              (d.signaling == c.signaling && d.local == c.local && d.remote == c.remote && d.controlling == c.controlling)
              || (Gate(c.signaling, true, desc.what).None? && d.local == Some(desc) && d.remote == c.remote
                  && if desc.what == Offer then d.signaling == HaveLocalOffer && d.controlling
                     else d.signaling == HaveLocalPranswer && !d.controlling)
            case RemoteDesc(desc) =>
              (d.signaling == c.signaling && d.local == c.local && d.remote == c.remote && d.controlling == c.controlling)
              || (Gate(c.signaling, false, desc.what).None? && d.remote == Some(desc) && d.local == c.local
                  && if desc.what == Offer then d.signaling == HaveRemoteOffer && !d.controlling
                     else d.signaling == HaveRemotePranswer && d.controlling)
            case Close => d.signaling == c.signaling && d.local.None? && d.remote.None? && d.controlling == c.controlling
            case _ => d.signaling == c.signaling && d.local == c.local && d.remote == c.remote && d.controlling == c.controlling
  {
    hide Gate, Misplaced, Assigned, Bundled, AllSettled, OfferAllocation.Plan, OfferAllocation.Total;
    if call.CreateOffer? && CanPlan(c) {
      OfferKeeps(c);
    }
  }

  /** In every run the state says which descriptions can be in place, one offer and one answer of different origin, and who is
      ICE controlling; they are in place exactly unless the connection was closed after one had been set, for close leaves the
      state as it is. */
  lemma {:induction false} RunIsConsistent(c: Conn, calls: seq<Call>)
    requires Fresh(c)
    ensures Typed(Run(c, calls)) && (Complete(Run(c, calls)) <==> !ClosedLate(c, calls))
  {
    hide Do;
    if calls != [] {
      RunIsConsistent(c, calls[..|calls| - 1]);
      SignallingStep(Run(c, calls[..|calls| - 1]), calls[|calls| - 1]);
    }
  }

  /** The states in which a local, or a remote, description has been set for good. */
  predicate HadLocal(s: Signaling) {
    s == HaveLocalOffer || s == HaveLocalPranswer || s == HaveRemotePranswer
  }

  predicate HadRemote(s: Signaling) {
    s == HaveRemoteOffer || s == HaveLocalPranswer || s == HaveRemotePranswer
  }

  /** Descriptions once set stay until the connection is closed and are never replaced, not even then. */
  lemma {:induction false} DescriptionsStay(c: Conn, calls: seq<Call>, more: seq<Call>)
    requires Fresh(c)
    ensures var x, y := Run(c, calls), Run(c, calls + more);
            && (x.local.Some? ==> HadLocal(y.signaling) && y.local == if Close in more then None else x.local)
            && (x.remote.Some? ==> HadRemote(y.signaling) && y.remote == if Close in more then None else x.remote)
            && (x.local.Some? && x.remote.Some? ==> y.signaling == x.signaling && y.controlling == x.controlling)
  {
    hide Do, Run;
    RunIsConsistent(c, calls);
    if more == [] {
      assert calls + more == calls;
    } else {
      var n := |more| - 1;
      assert (calls + more)[..|calls| + n] == calls + more[..n] && (calls + more)[|calls| + n] == more[n];
      assert more == more[..n] + [more[n]];
      DescriptionsStay(c, calls, more[..n]);
      RunStep(c, calls + more);
      SignallingStep(Run(c, calls + more[..n]), more[n]);
    }
  }

  /** Two connections that hold each other's descriptions never both control, whatever either of them did before. */
  lemma OneSideControls(a: Conn, callsA: seq<Call>, b: Conn, callsB: seq<Call>)
    requires Fresh(a) && Fresh(b)
    requires var x, y := Run(a, callsA), Run(b, callsB);
             x.local.Some? && x.remote.Some? && x.local == y.remote && x.remote == y.local
    ensures Run(a, callsA).controlling != Run(b, callsB).controlling
  {
    hide Run;
    RunIsConsistent(a, callsA);
    RunIsConsistent(b, callsB);
  }

  // ---------------------------------------------------------------------------------------------
  // Before the first description

  /** A connection as it is constructed. */
  function NewConn(controlling: bool): Conn {
    Conn([], false, 0, Stable, None, None, controlling)
  }

  predicate SectionsNamed(medias: seq<Media>) {
    forall i :: 0 <= i < |medias| && medias[i].what.Rtp? ==> medias[i].mid != ""
  }

  /** Codecs are made from the supported formats, and remote offers name their sections. */
  predicate Proper(call: Call) {
    match call
    case AddTransceiver(codec, _) => Lower(codec.name) != "rtx"
    case RemoteDesc(d) => d.what == Offer ==> SectionsNamed(d.medias)
    case _ => true
  }

  predicate Ready(c: Conn) {
    Fresh(c) && Unassigned(c.trs) && NoRtx(c.trs)
  }

  lemma {:induction false} NamedAreAssigned(trs: seq<Tr>, medias: seq<Media>, n: nat)
    requires n <= |medias| && SectionsNamed(medias)
    ensures Assigned(trs, medias, n).1
  {
    if n > 0 {
      NamedAreAssigned(trs, medias, n - 1);
    }
  }

  lemma ReadyStep(c: Conn, call: Call)
    requires Ready(c) && Proper(call) && Do(c, call).signaling == Stable
    ensures Ready(Do(c, call)) && |Do(c, call).trs| <= |c.trs| + 1
  {
    hide Misplaced, Bundled, AllSettled, OfferAllocation.Plan, OfferAllocation.Total, Assigned;
    match call
    case CreateOffer(places, counter) =>
      if CanPlan(c) {
        OfferKeeps(c);
        forall k | 0 <= k < |c.trs| ensures MakeOffer(c).1.trs[k] == c.trs[k].(mline := MakeOffer(c).1.trs[k].mline) {
          RecordedMlines(c, k);
        }
      }
    case RemoteDesc(d) =>
      if d.what == Offer {
        NamedAreAssigned(c.trs, d.medias, |d.medias|);
      }
    case _ =>
  }

  lemma StableBefore(c: Conn, call: Call)
    requires Do(c, call).signaling == Stable
    ensures c.signaling == Stable
  {
    hide Do;
    SignallingStep(c, call);
  }

  /** As long as it is stable, a connection that was only offered named sections has no description and no transceiver with a
      section: whatever was called, it is ready for a first exchange. */
  lemma {:induction false} StableIsReady(controlling: bool, calls: seq<Call>)
    requires Run(NewConn(controlling), calls).signaling == Stable && forall i :: 0 <= i < |calls| ==> Proper(calls[i])
    ensures Ready(Run(NewConn(controlling), calls)) && |Run(NewConn(controlling), calls).trs| <= |calls|
  {
    hide Do, Ready, Proper;
    var c := NewConn(controlling);
    if calls == [] {
      NewIsReady(controlling);
    } else {
      var before, call := calls[..|calls| - 1], calls[|calls| - 1];
      StableBefore(Run(c, before), call);
      StableIsReady(controlling, before);
      ReadyStep(Run(c, before), call);
    }
  }

  lemma NewIsReady(controlling: bool)
    ensures Ready(NewConn(controlling)) && Run(NewConn(controlling), []) == NewConn(controlling)
  {
  }

  /** The excluded case is reachable: an offer whose second section has no name fails after the first one was given out, and the
      connection stays stable with a transceiver that has a section. */
  lemma NamelessOfferLeavesTraces(codec: Codec, direction: Direction, bundle: seq<string>)
    requires direction != INACTIVE
    ensures var m := Media("0", Rtp(KindOf(codec)), 9, direction, [], None);
            var d := Description(Offer, [m, m.(mid := "")], Some(bundle), None);
            var x := Run(NewConn(false), [AddTransceiver(codec, direction), RemoteDesc(d)]);
            Fresh(x) && |x.trs| == 1 && x.trs[0].mid == "0" && !Unassigned(x.trs)
  {
    var m := Media("0", Rtp(KindOf(codec)), 9, direction, [], None);
    var medias := [m, m.(mid := "")];
    var d := Description(Offer, medias, Some(bundle), None);
    var calls := [AddTransceiver(codec, direction), RemoteDesc(d)];
    var t := Tr("", direction, codec, false, None);
    RunStep(NewConn(false), calls[..1]);
    RunStep(NewConn(false), calls);
    assert calls[..1] == [AddTransceiver(codec, direction)] && calls[..1][..0] == [];
    assert Run(NewConn(false), []) == NewConn(false);
    assert Run(NewConn(false), calls[..1]) == NewConn(false).(trs := [t]) by {
      assert [] + [t] == [t];
    }
    hide AfterRemoteOffer;
    assert Pick([t], 0, KindOf(codec)) == Some(0);
    assert Assigned([t], medias, 0) == ([t], true);
    TakesMid(t, m);
    assert m.mid != "" && MatchOf([t], medias, 0) == Some(0);
    AssignedStep([t], medias, 0);
    assert [t][0 := Taking(t, m)] == [Taking(t, m)];
    assert Assigned([t], medias, 1) == ([Taking(t, m)], true);
    assert Assigned([t], medias, 2) == ([Taking(t, m)], false);
  }

  lemma TakesMid(t: Tr, m: Media)
    ensures Taking(t, m).mid == m.mid && Taking(t, m) == AfterRemoteOffer(t.(mid := m.mid), m)
  {
  }

  // ---------------------------------------------------------------------------------------------
  // Two histories

  /** Two new connections, whatever was called on each while it was stable and only named sections were offered to it: the first
      exchange between them succeeds exactly when there is something to offer and no stopped transceiver was given a place that
      is gone, and then every section agrees at both ends, one side controls and the other opens DTLS. */
  lemma HistoriesMeet(roleA: bool, callsA: seq<Call>, roleB: bool, callsB: seq<Call>)
    requires Run(NewConn(roleA), callsA).signaling == Stable && Run(NewConn(roleB), callsB).signaling == Stable
    requires forall i :: 0 <= i < |callsA| ==> Proper(callsA[i])
    requires forall i :: 0 <= i < |callsB| ==> Proper(callsB[i])
    requires |Run(NewConn(roleA), callsA).trs| < 0x1_0000
    ensures var a, b := Run(NewConn(roleA), callsA), Run(NewConn(roleB), callsB);
            && CanPlan(a)
            && (Exchange(a, b).Some? <==>
                (a.needSctp || exists k :: 0 <= k < |a.trs| && !a.trs[k].stopped)
                && forall k :: 0 <= k < |a.trs| && a.trs[k].stopped && a.trs[k].mline.Some? ==> a.trs[k].mline.value < FirstSize(a))
            && (Exchange(a, b).Some? ==>
                var o := Exchange(a, b).value;
                && (forall i :: 0 <= i < |PlanOf(a)| ==> SectionAgrees(a, b, o, i))
                && o.offerer.controlling && !o.answerer.controlling
                && o.offerer.remote.Some? && o.answerer.remote.Some? && !IsActive(o.offerer) && IsActive(o.answerer))
  {
    var a, b := Run(NewConn(roleA), callsA), Run(NewConn(roleB), callsB);
    StableIsReady(roleA, callsA);
    StableIsReady(roleB, callsB);
    hide Run, Exchange, SectionAgrees, IsActive, OfferAllocation.Plan, OfferAllocation.Total;
    assert First(a) && CanPlan(a);
    FirstExchangeSucceedsIff(a, b);
    if Exchange(a, b).Some? {
      forall i | 0 <= i < |PlanOf(a)| ensures SectionAgrees(a, b, Exchange(a, b).value, i) {
        SectionsAreMirrored(a, b, i);
      }
      RolesAreSplit(a, b);
    }
  }
}
