/** What a connection does with the descriptions it is given, which it refuses and why, and what its own say, told from the
    descriptions and the transceivers alone. */
module Descriptions {
  import opened Words
  import opened Session
  import opened Negotiation
  import OfferAllocation

  // ---------------------------------------------------------------------------------------------
  // States

  /** An offer opens a negotiation, the other side's answer closes it, and nothing else is let through (section 3.2 of RFC 8829,
      without its way back). */
  predicate Allowed(s: Signaling, local: bool, what: DescType) {
    || ((s == Stable || s == Closed) && what == Offer)
    || (s == HaveLocalOffer && !local && what == Answer)
    || (s == HaveRemoteOffer && local && what == Answer)
  }

  lemma GateIsAllowed(s: Signaling, local: bool, what: DescType)
    ensures Gate(s, local, what).None? <==> Allowed(s, local, what)
  {
  }

  /** A description that is not allowed changes nothing. */
  lemma NotAllowedIsRefused(c: Conn, d: Description)
    ensures !Allowed(c.signaling, true, d.what) ==> SetLocal(c, d).0 == c && SetLocal(c, d).1.Some?
    ensures !Allowed(c.signaling, false, d.what) ==> SetRemote(c, d).0 == c && SetRemote(c, d).1.Some?
  {
    hide Misplaced, Assigned, Bundled, AllSettled;
    GateIsAllowed(c.signaling, true, d.what);
    GateIsAllowed(c.signaling, false, d.what);
  }

  // ---------------------------------------------------------------------------------------------
  // Local offers

  /** The section recorded for a transceiver is there, under the transceiver's mid if it has one. */
  predicate Fits(t: Tr, medias: seq<Media>) {
    t.mline.Some? ==> t.mline.value < |medias| && (t.mid == "" || t.mid == medias[t.mline.value].mid)
  }

  /** A local offer is taken exactly when every transceiver fits; then those recorded without a mid take their section's, the
      side becomes ICE controlling, and nothing else changes. A refused one changes nothing. */
  lemma LocalOfferIs(c: Conn, d: Description)
    requires Allowed(c.signaling, true, Offer) && d.what == Offer
    ensures var (e, error) := SetLocal(c, d);
            && (error.None? <==> forall k :: 0 <= k < |c.trs| ==> Fits(c.trs[k], d.medias))
            && (error.Some? ==> e == c)
            && (error.None? ==>
                  && |e.trs| == |c.trs| && e == c.(trs := e.trs, local := Some(d), signaling := HaveLocalOffer, controlling := true)
                  && forall k :: 0 <= k < |c.trs| ==>
                       e.trs[k] == c.trs[k].(mid := if c.trs[k].mline.Some? && c.trs[k].mid == "" then d.medias[c.trs[k].mline.value].mid
                                                    else c.trs[k].mid))
  {
    hide Misplaced;
    MisplacedIff(c.trs, d.medias);
    forall k | 0 <= k < |c.trs| ensures InPlace(c.trs[k], d.medias) <==> Fits(c.trs[k], d.medias) {
    }
  }

  // ---------------------------------------------------------------------------------------------
  // Remote offers

  predicate Unbundled(d: Description)
    requires d.bundle.Some?
  {
    exists m :: m in d.medias && m.what == Application && m.mid !in d.bundle.value
  }

  predicate Unnamed(medias: seq<Media>, n: nat)
    requires n <= |medias|
  {
    exists i :: 0 <= i < n && medias[i].what.Rtp? && medias[i].mid == ""
  }

  lemma {:induction false} AssignedIffNamed(trs: seq<Tr>, medias: seq<Media>, n: nat)
    requires n <= |medias|
    ensures Assigned(trs, medias, n).1 <==> !Unnamed(medias, n)
  {
    if n > 0 {
      AssignedIffNamed(trs, medias, n - 1);
    }
  }

  /** A remote offer is refused for want of a BUNDLE group, for a data channel outside it, or for a section without a mid, in
      this order of preference, and for nothing else. */
  lemma RemoteOfferIs(c: Conn, d: Description)
    requires Allowed(c.signaling, false, Offer) && d.what == Offer
    ensures var (e, error) := SetRemote(c, d);
            && error == (if d.bundle.None? then Some(NoBundle)
                         else if Unbundled(d) then Some(NotBundled)
                         else if Unnamed(d.medias, |d.medias|) then Some(EmptyMid)
                         else None)
            && (error == Some(NoBundle) || error == Some(NotBundled) ==> e == c)
            && (error.None? ==> e == c.(trs := e.trs, remote := Some(d), signaling := HaveRemoteOffer, controlling := false))
  {
    hide Assigned;
    AssignedIffNamed(c.trs, d.medias, |d.medias|);
  }

  // ---------------------------------------------------------------------------------------------
  // What is offered and answered

  lemma {:induction false} LiveMidsIff(medias: seq<Media>, x: string)
    ensures x in LiveMids(medias) <==> exists i :: 0 <= i < |medias| && medias[i].port != 0 && medias[i].mid == x
  {
    if medias != [] {
      var n := |medias| - 1;
      LiveMidsIff(medias[..n], x);
      assert forall i :: 0 <= i < n ==> medias[..n][i] == medias[i];
    }
  }

  /** An offer bundles exactly its live sections, and has no BUNDLE group when there are none. */
  lemma OfferBundlesLive(c: Conn, x: string)
    requires CanPlan(c)
    ensures var d := MakeOffer(c).0;
            (d.bundle.Some? && x in d.bundle.value) <==> exists i :: 0 <= i < |d.medias| && d.medias[i].port != 0 && d.medias[i].mid == x
  {
    hide MakeOffer, OfferAllocation.Plan, OfferAllocation.Total, LiveMids;
    OfferIs(c);
    LiveMidsIff(MakeOffer(c).0.medias, x);
  }

  /** The setup role a description states: for the whole session, or else in its first section, or else passive. */
  function Stated(d: Description): Setup {
    if d.setup.Some? then d.setup.value
    else if d.medias == [] || d.medias[0].setup.None? then Passive
    else d.medias[0].setup.value
  }

  /** An answer is made exactly to an offer that is in place; it has a section for each offered one, under the same mid, all of
      them bundled, and takes the active role unless the offer does (section 5.3 of RFC 8842). */
  lemma AnswerIs(c: Conn)
    ensures MakeAnswer(c).Some? <==> c.remote.Some? && c.signaling == HaveRemoteOffer
    ensures MakeAnswer(c).Some? ==>
              var d, offered := MakeAnswer(c).value, c.remote.value;
              && d.what == Answer && |d.medias| == |offered.medias|
              && (forall i :: 0 <= i < |d.medias| ==> d.medias[i].mid == offered.medias[i].mid)
              && (if d.medias == [] then d.bundle.None?
                  else d.bundle.Some? && |d.bundle.value| == |d.medias|
                       && forall i :: 0 <= i < |d.medias| ==> d.bundle.value[i] == offered.medias[i].mid)
              && d.setup == Some(if Stated(offered) == Active then Passive else Active)
  {
    hide AnswerSection;
    if c.remote.Some? {
      forall i | 0 <= i < |c.remote.value.medias| ensures AnswerSection(c.trs, c.remote.value.medias[i]).mid == c.remote.value.medias[i].mid {
        AnswerMid(c.trs, c.remote.value.medias[i]);
      }
    }
  }

  /** A side opens the DTLS handshake exactly when the other states a role other than active, and runs SCTP exactly when it
      wants a data channel or the other has a section for one. */
  lemma RolesAre(c: Conn)
    requires c.remote.Some?
    ensures IsActive(c) <==> Stated(c.remote.value) != Active
    ensures RunsSctp(c) <==> c.needSctp || exists i :: 0 <= i < |c.remote.value.medias| && c.remote.value.medias[i].what == Application
  {
    var medias := c.remote.value.medias;
    if i :| 0 <= i < |medias| && medias[i].what == Application {
      assert medias[i] in medias;
    }
  }

  // ---------------------------------------------------------------------------------------------
  // One section

  /** What a transceiver offers: refused and inactive when it stopped, else its direction and codec, a video codec with a
      retransmission format of the next payload type. */
  lemma OfferedSectionIs(t: Tr, mid: string)
    ensures var m := OfferMedia(t, mid);
            && m.mid == mid && m.what == Rtp(if SameName(t.codec.name, "opus") then Audio else Video)
            && m.codecs != [] && m.codecs[0] == t.codec
            && (t.stopped ==> m.port == 0 && m.direction == Direction(false, false) && |m.codecs| == 1)
            && (!t.stopped ==> m.port == 9 && m.direction == t.direction
                               && if m.what == Rtp(Audio) then |m.codecs| == 1
                                  else |m.codecs| == 2 && m.codecs[1].name == "rtx" && m.codecs[1].clock == t.codec.clock
                                       && m.codecs[1].payload as int == (t.codec.payload as int + 1) % 256)
  {
    assert Lower("opus") == "opus";
    LowerIsCaseless(t.codec.name, "opus");
  }

  /** What a transceiver answers to an offered section: accepted exactly when it runs and one side wants to send what the other
      wants to receive, with the first offered codec that matches its own, or else the first offered. */
  lemma AnsweredSectionIs(t: Tr, offered: Media)
    ensures var m := AnswerMedia(t, offered);
            var sends, receives := t.direction.send && offered.direction.recv, t.direction.recv && offered.direction.send;
            && m.mid == t.mid && m.what == offered.what && (m.port == 9 || m.port == 0)
            && (m.port == 9 <==> !t.stopped && (sends || receives))
            && m.direction == (if m.port == 9 then Direction(sends, receives) else Direction(false, false))
            && |m.codecs| == (if offered.codecs == [] then 0 else 1)
            && (offered.codecs != [] ==>
                  exists i :: 0 <= i < |offered.codecs| && m.codecs[0] == offered.codecs[i]
                    && (IsMatch(offered.codecs[i], t.codec) || (i == 0 && forall o :: o in offered.codecs ==> !IsMatch(o, t.codec)))
                    && forall j :: 0 <= j < i ==> !IsMatch(offered.codecs[j], t.codec))
  {
    hide IsMatch;
    if offered.codecs != [] {
      var i := FirstMatchAt(offered.codecs, t.codec);
    }
  }

  lemma {:induction false} FirstMatchAt(offered: seq<Codec>, c: Codec) returns (i: nat)
    requires offered != []
    ensures i < |offered| && forall j :: 0 <= j < i ==> !IsMatch(offered[j], c)
    ensures var m := FirstMatch(offered, c);
            if m.Some? then m.value == offered[i] && IsMatch(offered[i], c) else i == 0
  {
    hide IsMatch;
    if IsMatch(offered[0], c) || |offered| == 1 {
      i := 0;
    } else {
      var rest := FirstMatchAt(offered[1..], c);
      i := if FirstMatch(offered[1..], c).Some? then rest + 1 else 0;
      assert FirstMatch(offered, c) == FirstMatch(offered[1..], c);
      assert forall j :: 0 <= j < |offered[1..]| ==> offered[1..][j] == offered[j + 1];
    }
  }

  /** After a remote offer the direction holds what both sides want, and nothing without a matching codec; the payload type is
      the matching offered codec's. */
  lemma AfterOfferIs(t: Tr, offered: Media)
    ensures var u := AfterRemoteOffer(t, offered);
            var on := exists o :: o in offered.codecs && IsMatch(o, t.codec);
            && u == t.(direction := u.direction, codec := t.codec.(payload := u.codec.payload))
            && (u.direction.send <==> on && t.direction.send && offered.direction.recv)
            && (u.direction.recv <==> on && t.direction.recv && offered.direction.send)
            && (u.direction != Direction(false, false) ==>
                  exists o :: o in offered.codecs && IsMatch(o, t.codec) && u.codec.payload == o.payload)
  {
    hide IsMatch;
  }

  /** After a remote answer the same holds, the payload type stays, and a transceiver that neither sends nor receives any more,
      or that has no section in the answer, has stopped. */
  lemma RemoteAnswerIs(c: Conn, d: Description, k: nat)
    requires c.signaling == HaveLocalOffer && d.what == Answer && k < |c.trs|
    ensures var (e, error) := SetRemote(c, d);
            && error.None? && e == c.(trs := e.trs, remote := Some(d), signaling := HaveRemotePranswer, controlling := true)
            && |e.trs| == |c.trs|
            && var t, u := c.trs[k], e.trs[k];
            && u == t.(direction := u.direction, stopped := u.stopped)
            && (u.stopped <==> t.stopped || u.direction == Direction(false, false))
            && if i :| 0 <= i < |d.medias| && d.medias[i].mid == t.mid && forall j :: 0 <= j < i ==> d.medias[j].mid != t.mid
               then
                 var on := exists o :: o in d.medias[i].codecs && IsMatch(o, t.codec);
                 && (u.direction.send <==> on && t.direction.send && d.medias[i].direction.recv)
                 && (u.direction.recv <==> on && t.direction.recv && d.medias[i].direction.send)
               else u.direction == Direction(false, false)
  {
    hide IsMatch, Find;
    var i := Find(d.medias, c.trs[k].mid);
  }

  /** Sections of an offer are given out in order, each to the first transceiver of its kind that runs and has none yet: every
      one passed over has been given an earlier section. */
  lemma SectionGoesToFirst(trs: seq<Tr>, medias: seq<Media>, i: nat, x: nat)
    requires i < |medias| && Unassigned(trs) && OfferAllocation.Tidy(medias) && x < |trs|
    requires medias[i].what.Rtp? && !trs[x].stopped && KindOf(trs[x].codec) == medias[i].what.kind
    ensures var m := MatchOf(trs, medias, i);
            (m.Some? ==> x < m.value) ==> exists j :: 0 <= j < i && MatchOf(trs, medias, j) == Some(x)
  {
    hide Assigned, Given, AfterRemoteOffer, KindOf;
    AssignedHolds(trs, medias, i, x);
    var j := Given(trs, medias, i, x);
  }
}
