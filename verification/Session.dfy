/** Session descriptions as far as offer/answer reads them, and the transceivers that fill their media sections. */
module Session {

  import opened Words

  // ---------------------------------------------------------------------------------------------
  // Descriptions

  /** The two bits of the direction enumeration. */
  datatype Direction = Direction(send: bool, recv: bool)

  const INACTIVE := Direction(false, false)

  datatype Kind = Audio | Video

  datatype MediaType = Rtp(kind: Kind) | Application | Other

  datatype Setup = Active | Passive | ActPass | HoldConn

  datatype Codec = Codec(name: string, clock: U32, channels: Option<U8>, profile: Option<string>, payload: U8)

  datatype Media = Media(mid: string, what: MediaType, port: nat, direction: Direction, codecs: seq<Codec>, setup: Option<Setup>)

  datatype DescType = Offer | Answer | OtherType

  /** `bundle` holds the mids of the first BUNDLE group. */
  datatype Description = Description(what: DescType, medias: seq<Media>, bundle: Option<seq<string>>, setup: Option<Setup>)

  function Reverse(d: Direction): Direction {
    Direction(d.recv, d.send)
  }

  /** Bitwise and of the local direction and the mirrored remote one. */
  function Negotiate(local: Direction, remote: Direction): Direction {
    Direction(local.send && Reverse(remote).send, local.recv && Reverse(remote).recv)
  }

  // ---------------------------------------------------------------------------------------------
  // Codecs

  function LowerChar(c: char): char {
    if 'A' <= c <= 'Z' then (c as int + 32) as char else c
  }

  /** Encoding names are compared without regard to case. */
  function Lower(s: string): (r: string)
    ensures |r| == |s|
  {
    seq(|s|, i requires 0 <= i < |s| => LowerChar(s[i]))
  }

  predicate IsMatch(a: Codec, b: Codec) {
    Lower(a.name) == Lower(b.name) && a.clock == b.clock && a.channels == b.channels
    && (Lower(a.name) == "h264" ==> a.profile == b.profile)
  }

  function KindOf(c: Codec): Kind {
    if Lower(c.name) == "opus" then Audio else Video
  }

  /** The first offered codec that matches. */
  function FirstMatch(offered: seq<Codec>, c: Codec): (r: Option<Codec>)
    ensures r.Some? ==> r.value in offered && IsMatch(r.value, c)
    ensures r.None? ==> forall o :: o in offered ==> !IsMatch(o, c)
  {
    if offered == [] then None
    else if IsMatch(offered[0], c) then Some(offered[0])
    else FirstMatch(offered[1..], c)
  }

  /** Retransmissions of a video codec use the next payload type. */
  function RtxOf(c: Codec): Codec {
    Codec("rtx", c.clock, None, None, (c.payload + 1) % 0x100)
  }

  // ---------------------------------------------------------------------------------------------
  // Transceivers

  datatype Tr = Tr(mid: string, direction: Direction, codec: Codec, stopped: bool, mline: Option<nat>)

  function OfferMedia(t: Tr, mid: string): Media {
    var what := MediaType.Rtp(KindOf(t.codec));
    if t.stopped then Media(mid, what, 0, INACTIVE, [t.codec], None)
    else Media(mid, what, 9, t.direction, if KindOf(t.codec) == Video then [t.codec, RtxOf(t.codec)] else [t.codec], None)
  }

  function AnswerMedia(t: Tr, remote: Media): Media {
    var d := Negotiate(t.direction, remote.direction);
    var m := FirstMatch(remote.codecs, t.codec);
    var codecs := if m.Some? then [m.value] else if remote.codecs != [] then [remote.codecs[0]] else [];
    if t.stopped || d == INACTIVE then Media(t.mid, remote.what, 0, INACTIVE, codecs, None)
    else Media(t.mid, remote.what, 9, d, codecs, None)
  }

  function AfterRemoteOffer(t: Tr, remote: Media): Tr {
    var d := Negotiate(t.direction, remote.direction);
    var m := FirstMatch(remote.codecs, t.codec);
    if d == INACTIVE || m.None? then t.(direction := INACTIVE)
    else t.(direction := d, codec := t.codec.(payload := m.value.payload))
  }

  function AfterRemoteAnswer(t: Tr, remote: Media): Tr {
    var d := Negotiate(t.direction, remote.direction);
    if d == INACTIVE || FirstMatch(remote.codecs, t.codec).None? then t.(direction := INACTIVE) else t.(direction := d)
  }

  /** Direction both ends should settle on for a section, as the answerer sees it: it sends what it wants to send and the
      offerer wants to receive, and the other way round, unless the offerer stopped or the codecs differ. */
  function Agreed(offerer: Tr, answerer: Tr): Direction {
    var on := !offerer.stopped && IsMatch(offerer.codec, answerer.codec);
    Direction(on && answerer.direction.send && offerer.direction.recv, on && answerer.direction.recv && offerer.direction.send)
  }

  /** Two characters that differ in case at most. */
  predicate SameLetter(c: char, d: char) {
    || c == d
    || ('A' <= c <= 'Z' && d as int == c as int + 32)
    || ('A' <= d <= 'Z' && c as int == d as int + 32)
  }

  predicate SameName(a: string, b: string) {
    |a| == |b| && forall i :: 0 <= i < |a| ==> SameLetter(a[i], b[i])
  }

  lemma LowerIsCaseless(a: string, b: string)
    ensures Lower(a) == Lower(b) <==> SameName(a, b)
  {
    if Lower(a) == Lower(b) {
      forall i | 0 <= i < |a| ensures SameLetter(a[i], b[i]) {
        assert Lower(a)[i] == Lower(b)[i];
      }
    }
  }

  /** Codecs match when name, apart from case, clock rate, channels and, for H.264, profile agree. */
  lemma MatchIff(a: Codec, b: Codec)
    ensures IsMatch(a, b) <==> SameName(a.name, b.name) && a.clock == b.clock && a.channels == b.channels
                               && (SameName(a.name, "H264") ==> a.profile == b.profile)
  {
    assert Lower("H264") == "h264";
    LowerIsCaseless(a.name, b.name);
    LowerIsCaseless(a.name, "H264");
  }

  /** One section through offer and answer: both ends settle on mirrored directions, inactive when the offerer stopped or
      the codecs differ, and an active section uses the payload type offered (section 6 of RFC 3264). */
  lemma SectionIsMirrored(offerer: Tr, answerer: Tr, mid: string)
    requires Lower(answerer.codec.name) != "rtx" && !answerer.stopped && answerer.mid == mid
    ensures var offered := OfferMedia(offerer, mid);
            var a := AfterRemoteOffer(answerer, offered);
            var answered := AnswerMedia(a, offered);
            var o := AfterRemoteAnswer(offerer, answered);
            && a.direction == Agreed(offerer, answerer) && o.direction == Reverse(a.direction)
            && answered.mid == mid && answered.direction == a.direction && (answered.port == 0 <==> a.direction == INACTIVE)
            && (a.direction != INACTIVE ==> a.codec.payload == o.codec.payload == offerer.codec.payload
                                            && answered.codecs == [offerer.codec])
  {
    var offered := OfferMedia(offerer, mid);
    assert Lower("rtx") == "rtx";
    assert offered.codecs[0] == offerer.codec;
    assert |offered.codecs| == 2 ==> offered.codecs[1..] == [offered.codecs[1]] && !IsMatch(RtxOf(offerer.codec), answerer.codec);
    var m := FirstMatch(offered.codecs, answerer.codec);
    assert m == if IsMatch(offerer.codec, answerer.codec) then Some(offerer.codec) else None;
    var a := AfterRemoteOffer(answerer, offered);
    assert IsMatch(offerer.codec, a.codec) <==> IsMatch(offerer.codec, answerer.codec);
    assert a.direction == Agreed(offerer, answerer);
    var answered := AnswerMedia(a, offered);
    assert Negotiate(a.direction, offered.direction) == a.direction;
    if a.direction != INACTIVE {
      assert answered.codecs == [offerer.codec];
      assert FirstMatch(answered.codecs, offerer.codec) == Some(offerer.codec);
    }
  }

  class Transceiver {
    var mid: string
    var direction: Direction
    var codec: Codec
    var stopped: bool
    var mline: Option<nat>

    ghost function State(): Tr
      reads this
    {
      Tr(mid, direction, codec, stopped, mline)
    }

    constructor (codec: Codec, direction: Direction)
      ensures State() == Tr("", direction, codec, false, None)
    {
      this.mid, this.direction, this.codec, this.stopped, this.mline := "", direction, codec, false, None;
    }

    method Stop()
      modifies `stopped
      ensures State() == old(State()).(stopped := true)
    {
      stopped := true;
    }

    method ToOffer(mid: string) returns (m: Media)
      ensures m == OfferMedia(State(), mid)
    {
      var kind := KindOf(codec);
      m := Media(mid, MediaType.Rtp(kind), 9, INACTIVE, [codec], None);
      if stopped {
        return m.(port := 0);
      }
      m := m.(direction := direction);
      if kind == Video {
        m := m.(codecs := m.codecs + [RtxOf(codec)]);
      }
    }

    method ToAnswer(remote: Media) returns (m: Media)
      ensures m == AnswerMedia(State(), remote)
    {
      m := Media(mid, remote.what, 0, Negotiate(direction, remote.direction), [], None);
      var matching := FirstMatch(remote.codecs, codec);
      if matching.Some? {
        m := m.(codecs := [matching.value]);
      }
      if m.codecs == [] && remote.codecs != [] {
        m := m.(codecs := [remote.codecs[0]]);
      }
      if stopped || m.direction == INACTIVE {
        return m.(port := 0, direction := INACTIVE);
      }
      m := m.(port := 9);
    }

    method FromRemoteOffer(remote: Media)
      modifies `direction, `codec
      ensures State() == AfterRemoteOffer(old(State()), remote)
    {
      direction := Negotiate(direction, remote.direction);
      if direction == INACTIVE {
        return;
      }
      var matching := FirstMatch(remote.codecs, codec);
      if matching.None? {
        direction := INACTIVE;
        return;
      }
      codec := codec.(payload := matching.value.payload);
    }

    method FromRemoteAnswer(remote: Media)
      modifies `direction
      ensures State() == AfterRemoteAnswer(old(State()), remote)
    {
      direction := Negotiate(direction, remote.direction);
      if direction == INACTIVE {
        return;
      }
      var matching := FirstMatch(remote.codecs, codec);
      if matching.None? {
        direction := INACTIVE;
      }
    }
  }
}
