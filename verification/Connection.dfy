/** The connection object: signalling state changed in place by the four description calls. */
module Connection {

  import opened Words
  import opened Session
  import opened Negotiation
  import CallHistory
  import OfferAllocation
  import Mids

  lemma RecordedStep(trs: seq<Tr>, p: seq<OfferAllocation.Entry>, n: nat, lines: nat)
    requires n < |p| && OfferAllocation.Sane(p, lines, |trs|)
    ensures p[n] in p
    ensures Recorded(trs, p, n + 1) == if p[n].slot.Held? then
                                         var k := p[n].slot.k;
                                         Recorded(trs, p, n)[k := Recorded(trs, p, n)[k].(mline := Some(n))]
                                       else Recorded(trs, p, n)
  {
  }

  lemma {:induction false} RecordedOnlyMlines(trs: seq<Tr>, p: seq<OfferAllocation.Entry>, n: nat, k: nat)
    requires n <= |p| && k < |trs| && forall e :: e in p && e.slot.Held? ==> e.slot.k < |trs|
    ensures Recorded(trs, p, n)[k] == trs[k].(mline := Recorded(trs, p, n)[k].mline)
  {
    if n > 0 {
      assert p[n - 1] in p;
      RecordedOnlyMlines(trs, p, n - 1, k);
    }
  }

  lemma RecordsOnly(c: Conn, p: seq<OfferAllocation.Entry>, counter: U16)
    requires OfferAllocation.Sane(p, |Lines(c)|, |c.trs|)
    ensures forall e :: e in p && e.slot.Held? ==> e.slot.k < |c.trs|
    ensures OnlyRecords(c, c.(trs := Recorded(c.trs, p, |p|), counter := counter))
  {
    hide Recorded;
    forall k | 0 <= k < |c.trs| ensures Recorded(c.trs, p, |p|)[k] == c.trs[k].(mline := Recorded(c.trs, p, |p|)[k].mline) {
      RecordedOnlyMlines(c.trs, p, |p|, k);
    }
  }

  lemma TakeMore(s: seq<Media>, i: nat)
    requires i < |s|
    ensures s[..i + 1] == s[..i] + [s[i]]
  {
  }

  /** Recording positions does not change what a section looks like. */
  lemma SectionIgnoresRecord(c: Conn, p: seq<OfferAllocation.Entry>, n: nat, name: string)
    requires n < |p| && OfferAllocation.Sane(p, |Lines(c)|, |c.trs|)
    ensures p[n] in p && (p[n].slot.Gap? ==> p[n].index < |Lines(c)|) && (p[n].slot.Held? ==> p[n].slot.k < |c.trs|)
    ensures SectionOf(c.(trs := Recorded(c.trs, p, n)), p[n], name) == SectionOf(c, p[n], name)
  {
    assert p[n] in p;
    if p[n].slot.Held? {
      RecordedOnlyMlines(c.trs, p, n, p[n].slot.k);
    }
  }

  lemma OfferIsMade(c: Conn, p: seq<OfferAllocation.Entry>, names: seq<string>, counter: U16)
    requires CanPlan(c) && p == PlanOf(c) && |p| <= 0x1_0000 && (names, counter) == Named(p, c.counter)
    requires OfferAllocation.Sane(p, |Lines(c)|, |c.trs|)
    ensures MakeOffer(c) == (OfferWith(Sections(c, p, names)), c.(trs := Recorded(c.trs, p, |p|), counter := counter))
  {
    hide OfferAllocation.Plan, OfferAllocation.Total, Named, Recorded;
  }

  lemma SectionTwice(c: Conn, p: seq<OfferAllocation.Entry>, names: seq<string>, medias: seq<Media>)
    requires OfferAllocation.Sane(p, |Lines(c)|, |c.trs|) && |p| <= 0x1_0000 && names == Named(p, c.counter).0
    requires medias == Sections(c, p, names)
    requires exists s: nat :: s < |Lines(c)| && Lines(c)[s].mid != "" && OfferAllocation.Entry(OfferAllocation.Sctp, s, Lines(c)[s].mid) in p
                              && OfferAllocation.Entry(OfferAllocation.Gap, s, Lines(c)[s].mid) in p
    ensures exists a, b :: 0 <= a < b < |medias| && medias[a].mid == medias[b].mid
  {
    var s: nat :| s < |Lines(c)| && Lines(c)[s].mid != "" && OfferAllocation.Entry(OfferAllocation.Sctp, s, Lines(c)[s].mid) in p
                  && OfferAllocation.Entry(OfferAllocation.Gap, s, Lines(c)[s].mid) in p;
    hide Mids.Filled, Mids.Missing, Mids.Used, OfferMedia;
    var mid := Lines(c)[s].mid;
    var a :| 0 <= a < |p| && p[a] == OfferAllocation.Entry(OfferAllocation.Sctp, s, mid);
    var b :| 0 <= b < |p| && p[b] == OfferAllocation.Entry(OfferAllocation.Gap, s, mid);
    var mids := MidsOf(p);
    Mids.UsedAndMissing(mids);
    Mids.FilledKeeps(mids, c.counter, Mids.Used(mids), a);
    assert medias[a].mid == medias[b].mid == mid;
    assert medias[Min(a, b)].mid == medias[Max(a, b)].mid;
  }

  /** One offered section given to the first transceiver that can take it. */
  function GivenTo(trs: seq<Tr>, m: Media): (r: seq<Tr>)
    ensures |r| == |trs|
  {
    if !m.what.Rtp? || m.mid == "" then trs
    else
      var k := Pick(trs, 0, m.what.kind);
      if k.None? then trs else trs[k.value := AfterRemoteOffer(trs[k.value].(mid := m.mid), m)]
  }

  lemma AssignedNext(trs: seq<Tr>, medias: seq<Media>, n: nat)
    requires n < |medias| && Assigned(trs, medias, n).1
    ensures var m, r := medias[n], Assigned(trs, medias, n + 1);
            r.0 == GivenTo(Assigned(trs, medias, n).0, m) && (r.1 <==> m.what.Rtp? ==> m.mid != "")
  {
  }

  lemma {:induction false} AssignedFails(trs: seq<Tr>, medias: seq<Media>, n: nat, m: nat)
    requires n <= m <= |medias| && !Assigned(trs, medias, n).1
    ensures Assigned(trs, medias, m) == Assigned(trs, medias, n)
  {
    if n < m {
      AssignedFails(trs, medias, n, m - 1);
    }
  }

  class Connection {
    var transceivers: seq<Transceiver>
    var needSctp: bool
    var midCounter: U16
    var signaling: Signaling
    var localDesc: Option<Description>
    var remoteDesc: Option<Description>
    var iceControlling: bool

    ghost predicate Valid()
      reads this
    {
      forall i, j :: 0 <= i < j < |transceivers| ==> transceivers[i] != transceivers[j]
    }

    ghost function Value(): Conn
      reads this, transceivers
    {
      Conn(OfferAllocation.States(transceivers), needSctp, midCounter, signaling, localDesc, remoteDesc, iceControlling)
    }

    constructor (iceControlling: bool)
      ensures Valid() && Value() == Conn([], false, 0, Stable, None, None, iceControlling)
    {
      transceivers, needSctp, midCounter, signaling := [], false, 0, Stable;
      localDesc, remoteDesc, this.iceControlling := None, None, iceControlling;
    }

    /** Refused for a direction that neither sends nor receives. */
    method AddTransceiver(codec: Codec, direction: Direction) returns (added: bool)
      requires Valid()
      modifies this
      ensures Valid() && (added <==> direction != INACTIVE)
      ensures Value() == if added then old(Value()).(trs := old(Value()).trs + [Tr("", direction, codec, false, None)]) else old(Value())
    {
      added := direction != INACTIVE;
      if added {
        var t := new Transceiver(codec, direction);
        ghost var trs := OfferAllocation.States(transceivers);
        transceivers := transceivers + [t];
        assert OfferAllocation.States(transceivers) == trs + [t.State()];
      }
    }

    method CreateDataChannel()
      modifies `needSctp
      ensures Value() == old(Value()).(needSctp := true)
    {
      needSctp := true;
    }

    /** Stops and drops every transceiver and both descriptions; the signalling state stays. */
    method Close()
      requires Valid()
      modifies this, transceivers
      ensures Valid() && Value() == CallHistory.AfterClose(old(Value()))
      ensures forall t :: t in old(transceivers) ==> t.stopped
    {
      var i := 0;
      while i < |transceivers|
        modifies set t | t in transceivers
        invariant 0 <= i <= |transceivers| && forall k :: 0 <= k < i ==> transceivers[k].stopped
      {
        transceivers[i].Stop();
        i := i + 1;
      }
      transceivers := [];
      localDesc, remoteDesc := None, None;
    }

    // -------------------------------------------------------------------------------------------

    /** An offer, and where each transceiver's section is in it. A section for data channels that is already in the local
        description comes out twice, under the same mid. */
    method CreateOffer() returns (d: Description)
      requires Valid() && |Lines(Value())| + |transceivers| + 1 <= 0x1_0000
      modifies this, transceivers
      ensures Valid() && transceivers == old(transceivers)
      ensures CanPlan(old(Value())) ==> (d, Value()) == MakeOffer(old(Value()))
      ensures OnlyRecords(old(Value()), Value())
      ensures OfferAllocation.Tidy(old(Lines(Value()))) && !OfferAllocation.NoApplication(old(Lines(Value()))) ==>
                exists a, b :: 0 <= a < b < |d.medias| && d.medias[a].mid == d.medias[b].mid
    {
      hide OfferAllocation.Tidy, OfferAllocation.NoApplication, OfferAllocation.Plan, OfferAllocation.Total, Recorded, Mids.Filled,
           Sections, LiveMids, OfferAllocation.Sane, OfferAllocation.States, Mids.Missing, Mids.Used, OnlyRecords;
      ghost var c := Value();
      var lines := if localDesc.Some? then localDesc.value.medias else [];
      var p := OfferAllocation.Allocate(lines, transceivers, needSctp);
      var mids := seq(|p|, i requires 0 <= i < |p| => p[i].mid);
      var names, counter := Mids.FillIn(mids, midCounter);
      assert mids == MidsOf(p);
      var medias := BuildSections(lines, p, names);
      midCounter := counter;
      var live := LiveMidsOf(medias);
      d := Description(Offer, medias, if live == [] then None else Some(live), Some(ActPass));
      RecordsOnly(c, p, counter);
      if CanPlan(c) {
        OfferIsMade(c, p, names, counter);
      }
      if OfferAllocation.Tidy(lines) && !OfferAllocation.NoApplication(lines) {
        SectionTwice(c, p, names, medias);
      }
    }

    method Record(k: nat, i: nat)
      requires Valid() && k < |transceivers|
      modifies transceivers[k]
      ensures Value() == old(Value()).(trs := old(Value()).trs[k := old(Value()).trs[k].(mline := Some(i))])
    {
      ghost var trs := OfferAllocation.States(transceivers);
      transceivers[k].mline := Some(i);
      assert OfferAllocation.States(transceivers) == trs[k := trs[k].(mline := Some(i))];
    }

    /** The sections, one by one; each transceiver placed records its position. */
    method BuildSections(lines: seq<Media>, p: seq<OfferAllocation.Entry>, names: seq<string>) returns (medias: seq<Media>)
      requires Valid() && lines == Lines(Value()) && |names| == |p| && OfferAllocation.Sane(p, |lines|, |transceivers|)
      modifies transceivers
      ensures medias == Sections(old(Value()), p, names)
      ensures Value() == old(Value()).(trs := Recorded(old(Value()).trs, p, |p|))
    {
      ghost var c := Value();
      assert Recorded(c.trs, p, 0) == c.trs;
      hide Recorded, SectionOf, Sections, OfferAllocation.Sane, OfferAllocation.States;
      ghost var whole := Sections(c, p, names);
      medias := [];
      var i := 0;
      while i < |p|
        modifies transceivers
        invariant 0 <= i <= |p| && medias == whole[..i] && Value() == c.(trs := Recorded(c.trs, p, i))
      {
        var m := PlaceSection(lines, p, i, names[i], c);
        TakeMore(whole, i);
        medias := medias + [m];
        i := i + 1;
      }
      assert whole[..|p|] == whole;
    }

    method PlaceSection(lines: seq<Media>, p: seq<OfferAllocation.Entry>, i: nat, name: string, ghost c: Conn) returns (m: Media)
      requires Valid() && lines == Lines(c) && i < |p| && OfferAllocation.Sane(p, |lines|, |c.trs|)
      requires Value() == c.(trs := Recorded(c.trs, p, i))
      modifies transceivers
      ensures p[i] in p && (p[i].slot.Gap? ==> p[i].index < |lines|) && (p[i].slot.Held? ==> p[i].slot.k < |c.trs|)
      ensures m == SectionOf(c, p[i], name) && Value() == c.(trs := Recorded(c.trs, p, i + 1))
    {
      hide Recorded, SectionOf, OfferAllocation.Sane;
      RecordedStep(c.trs, p, i, |lines|);
      SectionIgnoresRecord(c, p, i, name);
      m := MakeSection(lines, p[i], name);
      if p[i].slot.Held? {
        Record(p[i].slot.k, i);
      }
    }

    method MakeSection(lines: seq<Media>, e: OfferAllocation.Entry, mid: string) returns (m: Media)
      requires lines == Lines(Value()) && (e.slot.Gap? ==> e.index < |lines|) && (e.slot.Held? ==> e.slot.k < |transceivers|)
      ensures m == SectionOf(Value(), e, mid)
    {
      match e.slot
      case Sctp => m := Media(mid, Application, if needSctp then 9 else 0, Direction(true, true), [], Some(ActPass));
      case Gap => m := lines[e.index].(port := 0, direction := INACTIVE);
      case Held(k) =>
        m := transceivers[k].ToOffer(mid);
        m := m.(setup := Some(ActPass));
    }

    static method LiveMidsOf(medias: seq<Media>) returns (live: seq<string>)
      ensures live == LiveMids(medias)
    {
      live := [];
      var i := 0;
      while i < |medias|
        invariant 0 <= i <= |medias| && live == LiveMids(medias[..i])
      {
        assert medias[..i + 1][..i] == medias[..i];
        if medias[i].port != 0 {
          live := live + [medias[i].mid];
        }
        i := i + 1;
      }
      assert medias[..i] == medias;
    }

    // -------------------------------------------------------------------------------------------

    method SetLocalDescription(d: Description) returns (error: Option<Error>)
      requires Valid()
      modifies this, transceivers
      ensures Valid() && transceivers == old(transceivers)
      ensures (Value(), error) == SetLocal(old(Value()), d)
    {
      error := CheckState(true, d.what);
      if error.None? && d.what == Offer {
        error := KeepOffer(d);
      } else if error.None? {
        localDesc := Some(d);
        signaling := HaveLocalPranswer;
        iceControlling := false;
      }
    }

    method KeepOffer(d: Description) returns (error: Option<Error>)
      requires Valid() && d.what == Offer && Gate(signaling, true, Offer).None?
      modifies this, transceivers
      ensures Valid() && transceivers == old(transceivers)
      ensures (Value(), error) == SetLocal(old(Value()), d)
    {
      hide Misplaced, WithMids, Gate, InPlace, OfferAllocation.States;
      error := CheckSections(d.medias);
      if error.Some? {
        return;
      }
      MisplacedIff(OfferAllocation.States(transceivers), d.medias);
      TakeMids(d.medias);
      localDesc := Some(d);
      signaling := HaveLocalOffer;
      iceControlling := true;
    }

    method CheckState(local: bool, what: DescType) returns (error: Option<Error>)
      ensures error == Gate(signaling, local, what)
    {
      match signaling
      case HaveLocalPranswer | HaveRemotePranswer => error := Some(WrongState);
      case Stable | Closed => error := if what != Offer then Some(WrongType) else None;
      case HaveLocalOffer =>
        error := if local then Some(WrongState) else if what != Answer then Some(WrongType) else None;
      case HaveRemoteOffer =>
        error := if !local then Some(WrongState) else if what != Answer then Some(WrongType) else None;
    }

    method CheckSections(medias: seq<Media>) returns (error: Option<Error>)
      ensures error == Misplaced(OfferAllocation.States(transceivers), medias)
    {
      ghost var trs := OfferAllocation.States(transceivers);
      assert trs[0..] == trs;
      var k := 0;
      while k < |transceivers|
        invariant 0 <= k <= |transceivers| && Misplaced(trs[k..], medias) == Misplaced(trs, medias)
      {
        assert trs[k..][1..] == trs[k + 1..] && trs[k..][0] == transceivers[k].State();
        var t := transceivers[k];
        if t.mline.Some? {
          if |medias| <= t.mline.value {
            return Some(BadMline);
          }
          if t.mid != "" && t.mid != medias[t.mline.value].mid {
            return Some(MidMismatch);
          }
        }
        k := k + 1;
      }
      error := None;
    }

    /** Placed transceivers without a mid take their section's. */
    method TakeMids(medias: seq<Media>)
      requires Valid() && forall k :: 0 <= k < |transceivers| ==> InPlace(Value().trs[k], medias)
      modifies transceivers
      ensures Value() == old(Value()).(trs := WithMids(old(Value()).trs, medias))
    {
      ghost var c := Value();
      var k := 0;
      while k < |transceivers|
        modifies transceivers
        invariant 0 <= k <= |transceivers|
        invariant forall x :: 0 <= x < |transceivers| ==>
                    transceivers[x].State() == if x < k then WithMid(c.trs[x], medias) else c.trs[x]
      {
        var t := transceivers[k];
        assert t.State() == c.trs[k];
        if t.mline.Some? && t.mid == "" {
          t.mid := medias[t.mline.value].mid;
        }
        k := k + 1;
      }
      assert OfferAllocation.States(transceivers) == WithMids(c.trs, medias);
    }

    // -------------------------------------------------------------------------------------------

    /** On a section without a mid the sections before it have been given out already. */
    method SetRemoteDescription(d: Description) returns (error: Option<Error>)
      requires Valid()
      modifies this, transceivers
      ensures Valid() && transceivers == old(transceivers)
      ensures (Value(), error) == SetRemote(old(Value()), d)
    {
      error := CheckState(false, d.what);
      if error.None? && d.what == Offer {
        error := TakeOffer(d);
      } else if error.None? {
        TakeAnswer(d);
      }
    }

    method TakeOffer(d: Description) returns (error: Option<Error>)
      requires Valid() && d.what == Offer && Gate(signaling, false, Offer).None?
      modifies this, transceivers
      ensures Valid() && transceivers == old(transceivers)
      ensures (Value(), error) == SetRemote(old(Value()), d)
    {
      hide Assigned, Bundled, Gate, OfferAllocation.States;
      if d.bundle.None? {
        return Some(NoBundle);
      }
      var bundled := CheckBundle(d.medias, d.bundle.value);
      if !bundled {
        return Some(NotBundled);
      }
      var ok := AssignSections(d.medias);
      if !ok {
        return Some(EmptyMid);
      }
      remoteDesc := Some(d);
      signaling := HaveRemoteOffer;
      iceControlling := false;
      error := None;
    }

    method TakeAnswer(d: Description)
      requires Valid() && d.what != Offer && Gate(signaling, false, d.what).None?
      modifies this, transceivers
      ensures Valid() && transceivers == old(transceivers)
      ensures (Value(), None) == SetRemote(old(Value()), d)
    {
      hide AllSettled, Gate, OfferAllocation.States;
      SettleSections(d.medias);
      remoteDesc := Some(d);
      signaling := HaveRemotePranswer;
      iceControlling := true;
    }

    static method CheckBundle(medias: seq<Media>, bundle: seq<string>) returns (ok: bool)
      ensures ok == Bundled(medias, bundle)
    {
      var i := 0;
      while i < |medias|
        invariant 0 <= i <= |medias| && forall x :: 0 <= x < i && medias[x].what == Application ==> medias[x].mid in bundle
      {
        if medias[i].what == Application && medias[i].mid !in bundle {
          return false;
        }
        i := i + 1;
      }
      ok := true;
    }

    /** Gives each section, in order, the first transceiver that can take it. */
    method AssignSections(medias: seq<Media>) returns (ok: bool)
      requires Valid()
      modifies transceivers
      ensures Value() == old(Value()).(trs := Assigned(old(Value()).trs, medias, |medias|).0)
      ensures ok == Assigned(old(Value()).trs, medias, |medias|).1
    {
      ghost var c := Value();
      assert Assigned(c.trs, medias, 0) == (c.trs, true);
      hide Assigned, GivenTo, OfferAllocation.States, Valid;
      var i := 0;
      ok := true;
      while i < |medias|
        modifies transceivers
        invariant 0 <= i <= |medias| && ok && Assigned(c.trs, medias, i).1
        invariant Value() == c.(trs := Assigned(c.trs, medias, i).0)
      {
        AssignedNext(c.trs, medias, i);
        ok := AssignNext(medias[i]);
        i := i + 1;
        if !ok {
          AssignedFails(c.trs, medias, i, |medias|);
          return;
        }
      }
    }

    method AssignNext(m: Media) returns (ok: bool)
      requires Valid()
      modifies transceivers
      ensures Value() == old(Value()).(trs := GivenTo(old(Value()).trs, m)) && (ok <==> m.what.Rtp? ==> m.mid != "")
    {
      ok := true;
      if m.what.Rtp? {
        if m.mid == "" {
          return false;
        }
        AssignOne(m);
      }
    }

    method AssignOne(m: Media)
      requires Valid() && m.what.Rtp? && m.mid != ""
      modifies transceivers
      ensures Value() == old(Value()).(trs := GivenTo(old(Value()).trs, m))
    {
      ghost var c := Value();
      var k := 0;
      while k < |transceivers| && !(transceivers[k].mid == "" && !transceivers[k].stopped && KindOf(transceivers[k].codec) == m.what.kind)
        invariant 0 <= k <= |transceivers| && Pick(c.trs, k, m.what.kind) == Pick(c.trs, 0, m.what.kind)
      {
        assert c.trs[k] == transceivers[k].State();
        k := k + 1;
      }
      if k < |transceivers| {
        assert c.trs[k] == transceivers[k].State();
        transceivers[k].mid := m.mid;
        transceivers[k].FromRemoteOffer(m);
        assert OfferAllocation.States(transceivers) == c.trs[k := AfterRemoteOffer(c.trs[k].(mid := m.mid), m)];
      }
    }

    method SettleSections(medias: seq<Media>)
      requires Valid()
      modifies transceivers
      ensures Value() == old(Value()).(trs := AllSettled(old(Value()).trs, medias))
    {
      ghost var c := Value();
      var k := 0;
      while k < |transceivers|
        modifies transceivers
        invariant 0 <= k <= |transceivers|
        invariant forall x :: 0 <= x < |transceivers| ==>
                    transceivers[x].State() == if x < k then Settled(c.trs[x], medias) else c.trs[x]
      {
        SettleOne(transceivers[k], medias);
        k := k + 1;
      }
      assert OfferAllocation.States(transceivers) == AllSettled(c.trs, medias);
    }

    static method SettleOne(t: Transceiver, medias: seq<Media>)
      modifies t
      ensures t.State() == Settled(old(t.State()), medias)
    {
      var i := Find(medias, t.mid);
      if i.None? {
        t.direction := INACTIVE;
        t.Stop();
        return;
      }
      t.FromRemoteAnswer(medias[i.value]);
      if t.direction == INACTIVE {
        t.Stop();
      }
    }

    // -------------------------------------------------------------------------------------------

    /** No answer without a remote offer. */
    method CreateAnswer() returns (d: Option<Description>)
      ensures d == MakeAnswer(Value())
    {
      hide AnswerSection;
      if remoteDesc.None? || signaling != HaveRemoteOffer {
        return None;
      }
      var offered := remoteDesc.value.medias;
      var setup := if SetupFrom(remoteDesc.value) != Active then Active else Passive;
      ghost var trs := OfferAllocation.States(transceivers);
      var medias := [];
      var bundle := [];
      var i := 0;
      while i < |offered|
        invariant 0 <= i <= |offered| && |medias| == |bundle| == i
        invariant forall x :: 0 <= x < i ==> medias[x] == AnswerSection(trs, offered[x]) && bundle[x] == medias[x].mid
      {
        var m := AnswerOne(offered[i]);
        medias, bundle := medias + [m], bundle + [m.mid];
        i := i + 1;
      }
      assert medias == AnswerSections(trs, offered);
      assert bundle == MidList(medias);
      d := Some(Description(Answer, medias, if bundle == [] then None else Some(bundle), Some(setup)));
    }

    method AnswerOne(m: Media) returns (answered: Media)
      ensures answered == AnswerSection(OfferAllocation.States(transceivers), m)
    {
      if m.what == Application {
        return Media(m.mid, m.what, 9, m.direction, [], None);
      }
      ghost var trs := OfferAllocation.States(transceivers);
      var k := 0;
      while k < |transceivers| && transceivers[k].mid != m.mid
        invariant 0 <= k <= |transceivers| && forall x :: 0 <= x < k ==> trs[x].mid != m.mid
      {
        assert trs[k] == transceivers[k].State();
        k := k + 1;
      }
      if k < |transceivers| {
        assert trs[k] == transceivers[k].State();
        answered := transceivers[k].ToAnswer(m);
      } else {
        answered := Media(m.mid, m.what, 0, INACTIVE, [], None);
      }
    }

    /** What this side does once connected: whether it opens the DTLS handshake, and whether it runs SCTP. */
    method ChooseRoles() returns (active: bool, sctp: bool)
      requires remoteDesc.Some?
      ensures active == IsActive(Value()) && sctp == RunsSctp(Value())
    {
      active := SetupFrom(remoteDesc.value) != Active;
      sctp := needSctp;
      var medias := remoteDesc.value.medias;
      var i := 0;
      while i < |medias|
        invariant 0 <= i <= |medias|
        invariant sctp <==> needSctp || exists x :: 0 <= x < i && medias[x].what == Application
      {
        if medias[i].what == Application {
          sctp := true;
        }
        i := i + 1;
      }
    }
  }
}
