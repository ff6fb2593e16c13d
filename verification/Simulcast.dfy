/** The simulcast attribute: printing send and receive layers and reading them back. */
module Simulcast {

  import opened Words

  datatype Stream = Stream(rid: string, paused: bool)

  type Layer = seq<Stream>

  datatype Attribute = Attribute(send: seq<Layer>, recv: seq<Layer>)

  // ---------------------------------------------------------------------------------------------
  // Text

  /** Blank, or one of the five controls from tab to carriage return. */
  predicate IsSpace(c: char) {
    c == ' ' || 9 <= c as int <= 13
  }

  /** Position of the first `c`; the length when there is none. */
  function IndexOf(s: string, c: char): (i: nat)
    ensures i <= |s| && (i < |s| ==> s[i] == c) && forall k :: 0 <= k < i ==> s[k] != c
  {
    if s == [] || s[0] == c then 0 else 1 + IndexOf(s[1..], c)
  }

  /** Position of the first occurrence of `t`; nothing when there is none. */
  function Search(s: string, t: string): (i: Option<nat>)
    ensures i.Some? ==> i.value + |t| <= |s| && s[i.value..i.value + |t|] == t
    decreases |s|
  {
    if |s| < |t| then None
    else if s[..|t|] == t then Some(0)
    else if s == [] then None
    else
      var r := Search(s[1..], t);
      if r.None? then None else Some(r.value + 1)
  }

  function TrimLeft(s: string): string {
    if s != [] && IsSpace(s[0]) then TrimLeft(s[1..]) else s
  }

  function TrimRight(s: string): string {
    if s != [] && IsSpace(s[|s| - 1]) then TrimRight(s[..|s| - 1]) else s
  }

  function Trim(s: string): string {
    TrimRight(TrimLeft(s))
  }

  // ---------------------------------------------------------------------------------------------
  // Printing

  function PrintStream(s: Stream): string {
    (if s.paused then "~" else "") + s.rid
  }

  function PrintStreams(l: Layer): string {
    if l == [] then ""
    else if |l| == 1 then PrintStream(l[0])
    else PrintStream(l[0]) + "," + PrintStreams(l[1..])
  }

  /** Layers without a stream are left out. */
  function NonEmpty(ls: seq<Layer>): seq<Layer> {
    if ls == [] then [] else (if ls[0] == [] then [] else [ls[0]]) + NonEmpty(ls[1..])
  }

  function JoinLayers(ls: seq<Layer>): string {
    if ls == [] then ""
    else if |ls| == 1 then PrintStreams(ls[0])
    else PrintStreams(ls[0]) + ";" + JoinLayers(ls[1..])
  }

  function Print(a: Attribute): string {
    (if a.send == [] then "" else "send " + JoinLayers(NonEmpty(a.send)))
    + if a.recv == [] then "" else " recv " + JoinLayers(NonEmpty(a.recv))
  }

  // ---------------------------------------------------------------------------------------------
  // Parsing

  function ParseToken(token: string): seq<Stream> {
    var t := Trim(token);
    if t == [] then [] else if t[0] == '~' then [Stream(t[1..], true)] else [Stream(t, false)]
  }

  function ParseGroup(group: string): Layer
    decreases |group|
  {
    if group == [] then []
    else
      var comma := IndexOf(group, ',');
      ParseToken(group[..comma]) + if comma == |group| then [] else ParseGroup(group[comma + 1..])
  }

  function ParseLayers(s: string): seq<Layer>
    decreases |s|
  {
    if s == [] then []
    else
      var semi := IndexOf(s, ';');
      var alts := ParseGroup(s[..semi]);
      (if alts == [] then [] else [alts]) + if semi == |s| then [] else ParseLayers(s[semi + 1..])
  }

  function SetDirection(a: Attribute, keyword: string, layers: seq<Layer>): Attribute {
    if keyword == "send" then a.(send := layers) else a.(recv := layers)
  }

  /** The list of one keyword, up to the other keyword, and the text from there on when it comes. */
  function TakeList(keyword: string, rest: string, a: Attribute): (r: (Attribute, Option<string>))
    ensures r.1.Some? ==> |r.1.value| < |rest|
  {
    var next := Search(rest, if keyword == "send" then " recv" else " send");
    var layers := ParseLayers(Trim(if next.Some? then rest[..next.value] else rest));
    (SetDirection(a, keyword, layers), if next.Some? then Some(rest[next.value + 1..]) else None)
  }

  /** Reads keyword after keyword; a later list of the same direction replaces an earlier one. */
  function ParseFrom(v: string, a: Attribute): Attribute
    decreases |v|
  {
    if v == [] then a
    else
      var token := v[..IndexOf(v, ' ')];
      var rest := if |token| == |v| then "" else Trim(v[|token| + 1..]);
      if rest == [] || !(token == "send" || token == "recv") then a
      else
        TrimShrinks(v[|token| + 1..]);
        var (b, more) := TakeList(token, rest, a);
        if more.Some? then ParseFrom(more.value, b) else b
  }

  function Parse(value: string): Attribute {
    ParseFrom(Trim(value), Attribute([], []))
  }

  lemma TrimShrinks(s: string)
    ensures |Trim(s)| <= |s|
  {
    TrimLeftShrinks(s);
    TrimRightShrinks(TrimLeft(s));
  }

  lemma {:induction false} TrimLeftShrinks(s: string)
    ensures |TrimLeft(s)| <= |s|
  {
    if s != [] && IsSpace(s[0]) {
      TrimLeftShrinks(s[1..]);
    }
  }

  lemma {:induction false} TrimRightShrinks(s: string)
    ensures |TrimRight(s)| <= |s|
  {
    if s != [] && IsSpace(s[|s| - 1]) {
      TrimRightShrinks(s[..|s| - 1]);
    }
  }

  // ---------------------------------------------------------------------------------------------
  // Round trip

  /** No character that would end a token. */
  predicate Clean(s: string) {
    forall i :: 0 <= i < |s| ==> !IsSpace(s[i]) && s[i] != ',' && s[i] != ';'
  }

  /** A name that prints as one token; a tilde in front is taken for the pause mark unless there is one. */
  predicate Plain(s: Stream) {
    Clean(s.rid) && (s.paused || (s.rid != "" && s.rid[0] != '~'))
  }

  predicate PlainLayer(l: Layer) {
    l != [] && forall i :: 0 <= i < |l| ==> Plain(l[i])
  }

  predicate PlainLayers(ls: seq<Layer>) {
    forall i :: 0 <= i < |ls| ==> PlainLayer(ls[i])
  }

  lemma IndexOfIs(s: string, c: char, i: nat)
    requires i <= |s| && (forall k :: 0 <= k < i ==> s[k] != c) && (i < |s| ==> s[i] == c)
    ensures IndexOf(s, c) == i
  {
  }

  /** Text that neither starts nor ends with a space is not trimmed. */
  lemma TrimKeeps(s: string)
    requires s != [] ==> !IsSpace(s[0]) && !IsSpace(s[|s| - 1])
    ensures Trim(s) == s
  {
  }

  lemma CleanStream(s: Stream)
    requires Plain(s)
    ensures Clean(PrintStream(s)) && PrintStream(s) != ""
  {
    var t := PrintStream(s);
    assert forall i :: 0 <= i < |t| ==> if s.paused then t[i] == (if i == 0 then '~' else s.rid[i - 1]) else t[i] == s.rid[i];
  }

  /** A stream whose name ends no token reads back exactly when it is marked paused or its name is there and does not start
      with the mark. */
  lemma TokenParsesIff(s: Stream)
    requires Clean(s.rid)
    ensures ParseToken(PrintStream(s)) == [s] <==> Plain(s)
  {
    var t := PrintStream(s);
    assert s.paused ==> t[1..] == s.rid;
    assert !s.paused ==> t == s.rid;
    if Plain(s) {
      CleanStream(s);
      TrimKeeps(t);
    } else {
      TrimKeeps(t);
    }
  }

  lemma GroupStep(head: string, rest: string)
    requires forall i :: 0 <= i < |head| ==> head[i] != ','
    ensures ParseGroup(head + "," + rest) == ParseToken(head) + ParseGroup(rest)
    ensures head != "" ==> ParseGroup(head) == ParseToken(head)
  {
    hide ParseToken;
    var t := head + "," + rest;
    IndexOfIs(t, ',', |head|);
    assert t[..|head|] == head && t[|head| + 1..] == rest;
    IndexOfIs(head, ',', |head|);
    assert head[..|head|] == head;
  }

  lemma LayerStep(head: string, rest: string)
    requires forall i :: 0 <= i < |head| ==> head[i] != ';'
    ensures var alts := ParseGroup(head);
            && ParseLayers(head + ";" + rest) == (if alts == [] then [] else [alts]) + ParseLayers(rest)
            && (head != "" ==> ParseLayers(head) == if alts == [] then [] else [alts])
  {
    hide ParseGroup;
    var t := head + ";" + rest;
    IndexOfIs(t, ';', |head|);
    assert t[..|head|] == head && t[|head| + 1..] == rest;
    IndexOfIs(head, ';', |head|);
    assert head[..|head|] == head;
  }

  /** Neither a blank nor this separator occurs. */
  predicate Free(s: string, separator: char) {
    forall i :: 0 <= i < |s| ==> !IsSpace(s[i]) && s[i] != separator
  }

  lemma FreeJoin(a: string, c: char, b: string, separator: char)
    requires Free(a, separator) && Free(b, separator) && !IsSpace(c) && c != separator
    ensures Free(a + [c] + b, separator)
  {
  }

  /** A layer's text has no blank and no semicolon in it and reads back. */
  lemma {:induction false} GroupParses(l: Layer)
    requires PlainLayer(l)
    ensures var t := PrintStreams(l); t != "" && Free(t, ';') && ParseGroup(t) == l
  {
    hide ParseGroup, ParseToken, PrintStream, IsSpace;
    var head := PrintStream(l[0]);
    CleanStream(l[0]);
    TokenParsesIff(l[0]);
    if |l| == 1 {
      GroupStep(head, "");
    } else {
      GroupParses(l[1..]);
      CommaIsNoSpace();
      FreeJoin(head, ',', PrintStreams(l[1..]), ';');
      GroupStep(head, PrintStreams(l[1..]));
    }
  }

  lemma CommaIsNoSpace()
    ensures !IsSpace(',') && !IsSpace(';')
  {
  }

  lemma {:induction false} LayersParse(ls: seq<Layer>)
    requires PlainLayers(ls)
    ensures var t := JoinLayers(ls); (ls != [] ==> t != "") && Free(t, ' ') && ParseLayers(t) == ls
  {
    if ls != [] {
      hide ParseGroup, PrintStreams, ParseLayers, IsSpace, PlainLayer;
      var head := PrintStreams(ls[0]);
      GroupParses(ls[0]);
      SpaceIsBlank();
      if |ls| == 1 {
        LayerStep(head, "");
      } else {
        LayersParse(ls[1..]);
        CommaIsNoSpace();
        FreeJoin(head, ';', JoinLayers(ls[1..]), ' ');
        LayerStep(head, JoinLayers(ls[1..]));
      }
    }
  }

  lemma SpaceIsBlank()
    ensures IsSpace(' ')
  {
  }

  lemma {:induction false} NothingLeftOut(ls: seq<Layer>)
    requires PlainLayers(ls)
    ensures NonEmpty(ls) == ls
  {
    if ls != [] {
      NothingLeftOut(ls[1..]);
    }
  }

  lemma {:induction false} SearchNone(s: string, t: string)
    requires t != "" && forall i :: 0 <= i < |s| ==> s[i] != t[0]
    ensures Search(s, t).None?
  {
    if |s| >= |t| {
      assert s[..|t|][0] == s[0];
      SearchNone(s[1..], t);
    }
  }

  lemma {:induction false} SearchAfter(s: string, t: string, more: string)
    requires t != "" && forall i :: 0 <= i < |s| ==> s[i] != t[0]
    ensures Search(s + t + more, t) == Some(|s|)
  {
    var all := s + t + more;
    if s == "" {
      assert all[..|t|] == t;
    } else {
      assert all[..|t|][0] == s[0];
      assert all[1..] == s[1..] + t + more;
      SearchAfter(s[1..], t, more);
    }
  }

  lemma BothText(sends: string, recvs: string)
    ensures var rest := sends + " recv" + (" " + recvs);
            && "send " + sends + " recv " + recvs == "send" + " " + rest
            && rest[..|sends|] == sends && rest[|sends| + 1..] == "recv" + " " + recvs
  {
  }

  lemma FirstStep(keyword: string, rest: string, a: Attribute)
    requires (keyword == "send" || keyword == "recv") && rest != "" && Trim(rest) == rest
    ensures var (b, more) := TakeList(keyword, rest, a);
            ParseFrom(keyword + " " + rest, a) == if more.Some? then ParseFrom(more.value, b) else b
  {
    hide Trim, ParseFrom, IndexOf, TakeList;
    var v := keyword + " " + rest;
    SpaceIsBlank();
    IndexOfIs(v, ' ', 4);
    assert v[..4] == keyword && v[5..] == rest;
    ReadKeyword(v, a);
  }

  /** One direction at the end of the text. */
  lemma LastDirection(keyword: string, ls: seq<Layer>, a: Attribute)
    requires (keyword == "send" || keyword == "recv") && PlainLayers(ls) && ls != []
    ensures ParseFrom(keyword + " " + JoinLayers(ls), a) == if keyword == "send" then a.(send := ls) else a.(recv := ls)
  {
    hide ParseLayers, JoinLayers, Search, Trim, PlainLayers, ParseFrom;
    LayersParse(ls);
    SpaceIsBlank();
    var text := JoinLayers(ls);
    TrimKeeps(text);
    SearchNone(text, if keyword == "send" then " recv" else " send");
    FirstStep(keyword, text, a);
  }

  lemma BothDirections(a: Attribute)
    requires PlainLayers(a.send) && PlainLayers(a.recv) && a.send != [] && a.recv != []
    ensures ParseFrom("send " + JoinLayers(a.send) + " recv " + JoinLayers(a.recv), Attribute([], [])) == a
  {
    hide ParseLayers, JoinLayers, Search, Trim, PlainLayers, ParseFrom;
    LayersParse(a.send);
    LayersParse(a.recv);
    SpaceIsBlank();
    var sends, recvs := JoinLayers(a.send), JoinLayers(a.recv);
    var rest := sends + " recv" + (" " + recvs);
    BothText(sends, recvs);
    RestIsTrimmed(sends, recvs);
    SearchAfter(sends, " recv", " " + recvs);
    TrimKeeps(sends);
    FirstStep("send", rest, Attribute([], []));
    LastDirection("recv", a.recv, Attribute(a.send, []));
  }

  lemma RestIsTrimmed(sends: string, recvs: string)
    requires sends != "" && recvs != "" && Free(sends, ' ') && Free(recvs, ' ')
    ensures var rest := sends + " recv" + (" " + recvs); rest != "" && Trim(rest) == rest
  {
    TrimKeeps(sends + " recv" + (" " + recvs));
  }

  lemma KeywordIsTrimmed(keyword: string, text: string)
    requires (keyword == "send" || keyword == "recv") && text != "" && Free(text, ' ')
    ensures Trim(keyword + " " + text) == keyword + " " + text
  {
    TrimKeeps(keyword + " " + text);
  }

  lemma BothIsTrimmed(sends: string, recvs: string)
    requires recvs != "" && Free(recvs, ' ')
    ensures var v := "send " + sends + " recv " + recvs; Trim(v) == v
  {
    TrimKeeps("send " + sends + " recv " + recvs);
  }

  /** What is printed for plain layers reads back as the same nested lists with the same pause marks
      (section 5.1 of RFC 8853). */
  lemma ParseOfPrint(a: Attribute)
    requires PlainLayers(a.send) && PlainLayers(a.recv)
    ensures Parse(Print(a)) == a
  {
    hide NonEmpty, JoinLayers, ParseLayers, Search, PlainLayers, ParseFrom, Trim, Free;
    NothingLeftOut(a.send);
    NothingLeftOut(a.recv);
    LayersParse(a.send);
    LayersParse(a.recv);
    var sends, recvs := JoinLayers(a.send), JoinLayers(a.recv);
    if a.send == [] && a.recv == [] {
      assert Print(a) == "";
      TrimKeeps("");
      ParseNothing();
    } else if a.recv == [] {
      KeywordText("send", sends);
      assert Print(a) == "send" + " " + sends;
      KeywordIsTrimmed("send", sends);
      LastDirection("send", a.send, Attribute([], []));
    } else if a.send == [] {
      KeywordText("recv", recvs);
      assert Print(a) == " " + ("recv" + " " + recvs);
      KeywordIsTrimmed("recv", recvs);
      TrimOneBlank("recv" + " " + recvs);
      LastDirection("recv", a.recv, Attribute([], []));
    } else {
      BothPrinted(sends, recvs);
      assert Print(a) == "send " + sends + " recv " + recvs;
      BothIsTrimmed(sends, recvs);
      BothDirections(a);
    }
  }

  lemma KeywordText(keyword: string, text: string)
    ensures keyword == "send" ==> "send " + text + "" == "send" + " " + text
    ensures keyword == "recv" ==> "" + (" recv " + text) == " " + ("recv" + " " + text)
  {
  }

  lemma BothPrinted(sends: string, recvs: string)
    ensures ("send " + sends) + (" recv " + recvs) == "send " + sends + " recv " + recvs
  {
    Assoc("send " + sends, " recv ", recvs);
  }

  lemma ParseNothing()
    ensures ParseFrom("", Attribute([], [])) == Attribute([], [])
  {
  }

  lemma TrimOneBlank(s: string)
    ensures Trim(" " + s) == Trim(s)
  {
    assert (" " + s)[1..] == s;
  }

  // ---------------------------------------------------------------------------------------------
  // The loops

  method WriteAttribute(a: Attribute) returns (s: string)
    ensures s == Print(a)
  {
    hide JoinLayers, NonEmpty;
    s := "";
    if a.send != [] {
      s := WriteLayers("send ", a.send);
    }
    if a.recv != [] {
      Assoc(s, " recv ", JoinLayers(NonEmpty(a.recv)));
      s := WriteLayers(s + " recv ", a.recv);
    }
  }

  method WriteLayers(s0: string, layers: seq<Layer>) returns (s: string)
    ensures s == s0 + JoinLayers(NonEmpty(layers))
  {
    hide Terminated, NonEmpty, PrintStreams, JoinLayers;
    s := s0;
    WriteNothing(s0);
    var i := 0;
    while i < |layers|
      invariant 0 <= i <= |layers| && s == s0 + Terminated(NonEmpty(layers[..i]))
    {
      NonEmptyAppend(layers[..i], layers[i]);
      assert layers[..i + 1] == layers[..i] + [layers[i]];
      ghost var done := NonEmpty(layers[..i]);
      if layers[i] != [] {
        s := WriteLayer(s, layers[i]);
        TerminatedAppend(s0, done, layers[i]);
      } else {
        assert done + [] == done;
      }
      i := i + 1;
    }
    assert layers[..i] == layers;
    TerminatedIs(NonEmpty(layers));
    NothingJoined();
    if |s| > |s0| {
      s := s[..|s| - 1];
    }
  }

  /** Every layer followed by a semicolon. */
  function Terminated(ls: seq<Layer>): string {
    if ls == [] then "" else Terminated(ls[..|ls| - 1]) + PrintStreams(ls[|ls| - 1]) + ";"
  }

  lemma TerminatedAppend(s: string, ls: seq<Layer>, l: Layer)
    ensures s + Terminated(ls + [l]) == s + Terminated(ls) + PrintStreams(l) + ";"
  {
    assert (ls + [l])[..|ls|] == ls;
  }

  lemma WriteNothing(s: string)
    ensures s + Terminated(NonEmpty([])) == s
  {
  }

  lemma NothingJoined()
    ensures JoinLayers([]) == ""
  {
  }

  lemma {:induction false} NonEmptyAppend(ls: seq<Layer>, l: Layer)
    ensures NonEmpty(ls + [l]) == NonEmpty(ls) + if l == [] then [] else [l]
  {
    if ls == [] {
      assert ls + [l] == [l];
    } else {
      assert (ls + [l])[1..] == ls[1..] + [l];
      NonEmptyAppend(ls[1..], l);
    }
  }

  lemma {:induction false} TerminatedFront(l: Layer, ls: seq<Layer>)
    ensures Terminated([l] + ls) == PrintStreams(l) + ";" + Terminated(ls)
  {
    hide PrintStreams;
    if ls == [] {
      assert [l] + ls == [l] && [l][..0] == [];
    } else {
      var n := |ls| - 1;
      assert ([l] + ls)[..|ls|] == [l] + ls[..n];
      TerminatedFront(l, ls[..n]);
    }
  }

  lemma {:induction false} TerminatedIs(ls: seq<Layer>)
    ensures Terminated(ls) == if ls == [] then "" else JoinLayers(ls) + ";"
  {
    hide PrintStreams;
    if ls != [] {
      assert ls == [ls[0]] + ls[1..];
      TerminatedFront(ls[0], ls[1..]);
      TerminatedIs(ls[1..]);
    }
  }

  method WriteLayer(s0: string, layer: Layer) returns (s: string)
    requires layer != []
    ensures s == s0 + PrintStreams(layer) + ";"
  {
    hide Commas, PrintStreams;
    s := s0;
    NoCommas(s0);
    var i := 0;
    while i < |layer|
      invariant 0 <= i <= |layer| && s == s0 + Commas(layer[..i])
    {
      CommaAfter(s0, layer, i);
      if layer[i].paused {
        s := s + "~";
      }
      s := s + layer[i].rid + ",";
      i := i + 1;
    }
    assert layer[..i] == layer;
    CommasIs(layer);
    s := s[|s| - 1 := ';'];
    assert s == s0 + PrintStreams(layer) + ";";
  }

  lemma CommaAfter(s: string, l: Layer, i: nat)
    requires i < |l|
    ensures s + Commas(l[..i + 1]) == (if l[i].paused then s + Commas(l[..i]) + "~" else s + Commas(l[..i])) + l[i].rid + ","
  {
    assert l[..i + 1][..i] == l[..i];
  }

  lemma NoCommas(s: string)
    ensures s + Commas([]) == s
  {
  }

  /** Every stream followed by a comma. */
  function Commas(l: Layer): string {
    if l == [] then "" else Commas(l[..|l| - 1]) + PrintStream(l[|l| - 1]) + ","
  }

  lemma {:induction false} CommasFront(s: Stream, l: Layer)
    ensures Commas([s] + l) == PrintStream(s) + "," + Commas(l)
  {
    hide PrintStream;
    if l == [] {
      assert [s] + l == [s] && [s][..0] == [];
    } else {
      var n := |l| - 1;
      assert ([s] + l)[..|l|] == [s] + l[..n];
      CommasFront(s, l[..n]);
    }
  }

  lemma {:induction false} CommasIs(l: Layer)
    ensures Commas(l) == if l == [] then "" else PrintStreams(l) + ","
  {
    hide PrintStream;
    if l != [] {
      assert l == [l[0]] + l[1..];
      CommasFront(l[0], l[1..]);
      CommasIs(l[1..]);
    }
  }

  lemma ParseLayersStep(s: string)
    requires s != ""
    ensures var semi := IndexOf(s, ';');
            var alts := ParseGroup(s[..semi]);
            ParseLayers(s) == (if alts == [] then [] else [alts]) + if semi == |s| then [] else ParseLayers(s[semi + 1..])
  {
    hide ParseGroup, IndexOf;
  }

  lemma ReadOneLayer(done: seq<Layer>, s: string)
    requires s != ""
    ensures var semi := IndexOf(s, ';');
            var alts := ParseGroup(s[..semi]);
            done + ParseLayers(s) == (if alts == [] then done else done + [alts])
                                     + if semi == |s| then [] else ParseLayers(s[semi + 1..])
  {
    hide ParseGroup, ParseLayers, IndexOf;
    ParseLayersStep(s);
    var semi := IndexOf(s, ';');
    var alts := ParseGroup(s[..semi]);
    var rest := if semi == |s| then [] else ParseLayers(s[semi + 1..]);
    if alts == [] {
      assert [] + rest == rest;
    } else {
      Assoc(done, [alts], rest);
    }
  }

  lemma ReadOneToken(done: Layer, group: string)
    requires group != ""
    ensures var comma := IndexOf(group, ',');
            done + ParseGroup(group) == done + ParseToken(group[..comma]) + if comma == |group| then [] else ParseGroup(group[comma + 1..])
  {
    hide ParseToken, IndexOf;
    var comma := IndexOf(group, ',');
    var rest := if comma == |group| then [] else ParseGroup(group[comma + 1..]);
    assert ParseGroup(group) == ParseToken(group[..comma]) + rest;
    hide ParseGroup;
    Assoc(done, ParseToken(group[..comma]), rest);
  }

  lemma ReadNothing()
    ensures ParseLayers("") == [] && ParseGroup("") == []
  {
  }

  /** Splits at semicolons, then at commas; empty alternatives and empty layers are dropped. */
  method ReadLayers(str: string) returns (result: seq<Layer>)
    ensures result == ParseLayers(str)
  {
    hide ParseGroup, ParseLayers, IndexOf;
    result := [];
    ReadNothing();
    var s := str;
    while s != ""
      invariant result + ParseLayers(s) == ParseLayers(str)
      decreases |s|
    {
      ReadOneLayer(result, s);
      var semi := IndexOf(s, ';');
      var alts := ReadGroup(s[..semi]);
      if alts != [] {
        result := result + [alts];
      }
      if semi == |s| {
        break;
      }
      s := s[semi + 1..];
    }
  }

  method ReadGroup(str: string) returns (alts: Layer)
    ensures alts == ParseGroup(str)
  {
    hide ParseToken, ParseGroup, IndexOf;
    alts := [];
    ReadNothing();
    var group := str;
    while group != ""
      invariant alts + ParseGroup(group) == ParseGroup(str)
      decreases |group|
    {
      ReadOneToken(alts, group);
      var comma := IndexOf(group, ',');
      var token := ReadToken(group[..comma]);
      alts := alts + token;
      if comma == |group| {
        break;
      }
      group := group[comma + 1..];
    }
  }

  method ReadToken(text: string) returns (streams: seq<Stream>)
    ensures streams == ParseToken(text)
  {
    var token := Trim(text);
    if token == "" {
      return [];
    }
    var paused := token[0] == '~';
    if paused {
      token := token[1..];
    }
    streams := [Stream(token, paused)];
  }

  /** What one keyword of the text does: stop, or set a direction and go on after the next keyword. */
  lemma ReadKeyword(v: string, a: Attribute)
    requires v != ""
    ensures var token := v[..IndexOf(v, ' ')];
            var rest := if |token| == |v| then "" else Trim(v[|token| + 1..]);
            if rest == [] || !(token == "send" || token == "recv") then ParseFrom(v, a) == a
            else
              |rest| < |v| &&
              var (b, more) := TakeList(token, rest, a);
              ParseFrom(v, a) == if more.Some? then ParseFrom(more.value, b) else b
  {
    hide Trim, TakeList;
    TrimShrinks(if IndexOf(v, ' ') == |v| then "" else v[IndexOf(v, ' ') + 1..]);
  }

  method ReadList(keyword: string, rest: string, a: Attribute) returns (b: Attribute, more: Option<string>)
    ensures (b, more) == TakeList(keyword, rest, a)
  {
    hide ParseLayers, Search, Trim;
    var next := Search(rest, if keyword == "send" then " recv" else " send");
    var layers := ReadLayers(Trim(if next.Some? then rest[..next.value] else rest));
    if keyword == "send" {
      b := a.(send := layers);
    } else {
      b := a.(recv := layers);
    }
    more := if next.Some? then Some(rest[next.value + 1..]) else None;
  }

  method ReadAttribute(value: string) returns (a: Attribute)
    ensures a == Parse(value)
  {
    a := Attribute([], []);
    ParseNothing();
    assert Parse(value) == ParseFrom(Trim(value), a);
    hide Trim, ParseFrom, IndexOf, Parse, TakeList, Search, ParseLayers, SetDirection;
    var v := Trim(value);
    while v != ""
      invariant ParseFrom(v, a) == Parse(value)
      decreases |v|
    {
      ReadKeyword(v, a);
      var token := v[..IndexOf(v, ' ')];
      var rest := if |token| == |v| then "" else Trim(v[|token| + 1..]);
      if rest == "" || !(token == "send" || token == "recv") {
        return;
      }
      var more;
      a, more := ReadList(token, rest, a);
      if more.None? {
        return;
      }
      v := more.value;
    }
    ParseDone(a);
  }

  lemma ParseDone(a: Attribute)
    ensures ParseFrom("", a) == a
  {
  }

  // ---------------------------------------------------------------------------------------------
  // The grammar

  lemma OneStream(s: Stream)
    ensures PrintStreams([s]) == PrintStream(s)
  {
  }

  lemma TwoStreams(s: Stream, t: Stream)
    ensures PrintStreams([s, t]) == PrintStream(s) + "," + PrintStream(t)
  {
    hide PrintStream;
    assert [s, t][1..] == [t];
  }

  lemma OneLayer(l: Layer)
    requires l != []
    ensures JoinLayers(NonEmpty([l])) == PrintStreams(l)
  {
    hide PrintStreams;
    assert NonEmpty([l]) == [l];
  }

  lemma TwoLayers(l: Layer, m: Layer)
    requires l != [] && m != []
    ensures JoinLayers(NonEmpty([l, m])) == PrintStreams(l) + ";" + PrintStreams(m)
  {
    hide PrintStreams;
    assert [l, m][1..] == [m] && NonEmpty([m]) == [m];
    assert NonEmpty([l, m]) == [l, m];
  }

  /** Alternatives are separated by commas, layers by semicolons, and a tilde marks a paused one (section 5.1 of RFC 8853). */
  lemma PrintedForm()
    ensures var a, b, c, d := Stream("1", false), Stream("4", true), Stream("2", false), Stream("3", false);
            Print(Attribute([[a, b], [c]], [[d]])) == "send 1,~4;2 recv 3"
  {
    var a, b, c, d := Stream("1", false), Stream("4", true), Stream("2", false), Stream("3", false);
    assert PrintStream(a) == "1" && PrintStream(b) == "~4" && PrintStream(c) == "2" && PrintStream(d) == "3";
    TwoStreams(a, b);
    OneStream(c);
    OneStream(d);
    TwoLayers([a, b], [c]);
    OneLayer([d]);
    hide JoinLayers, NonEmpty, PrintStreams;
    assert JoinLayers(NonEmpty([[a, b], [c]])) == "1,~4;2";
  }
}
