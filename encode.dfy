/** The send side's content encoder, `content_parse_string`: a message's
    parts and font as the `content` value of a send request. That value is a
    JSON string holding a JSON array, so every quote inside it is written
    `\"` and text goes through `parse_unescape`. */
module Encode {
  import opened Seqs
  import opened Optional
  import opened CText
  import opened Messages
  import opened TextEscape

  /** `\"`: a quote inside the outer JSON string. */
  const Q: string := "\\\""

  /** `KEY(k)`: `k` between escaped quotes. */
  function Key(k: string): string {
    Q + k + Q
  }

  /** The token one content part contributes; every token ends with ','. */
  function PartToken(c: Content): (r: string)
    ensures |r| > 0 && r[|r| - 1] == ','
    ensures c.Text? ==> |r| > |Q| && r[..|Q|] == Q
    ensures !c.Text? ==> r[0] == '['
  {
    match c
    case Face(face) => "[" + Key("face") + "," + FormatInt(face) + "],"
    case OffPic(_, filePath, file, size) =>
      "[" + Key("offpic") + "," + Key(CStr(filePath)) + "," + Key(CStr(file)) + "," + FormatInt(size) + "],"
    case CFace(name, _, _, _, _) => "[" + Key("cface") + "," + Key("group") + "," + Key(CStr(name)) + "],"
    case Text(str) => Q + Unescape(str) + Q + ","
  }

  /** The tokens of the parts, in order. */
  function Tokens(ps: seq<Content>): (r: string)
    ensures r == [] <==> ps == []
    ensures r != [] ==> r[|r| - 1] == ','
  {
    if ps == [] then [] else PartToken(ps[0]) + Tokens(ps[1..])
  }

  /** The closing font token: name, size, style flags and colour. */
  function FontToken(m: Message): (r: string)
    ensures |r| > 0 && r[|r| - 1] == ']'
  {
    "[" + Key("font") + ",{" + FontName(m) + FontSize(m) + FontStyle(m) + FontColor(m) + "}]"
  }

  function FontName(m: Message): string {
    Key("name") + ":" + Key(CStr(m.fName)) + ","
  }

  function FontSize(m: Message): string {
    Key("size") + ":" + Key(FormatInt(m.fSize)) + ","
  }

  function FontStyle(m: Message): string {
    Key("style") + ":[" + FormatInt(m.fStyle.b) + "," + FormatInt(m.fStyle.i) + "," + FormatInt(m.fStyle.u) + "],"
  }

  function FontColor(m: Message): string {
    Key("color") + ":" + Key(CStr(m.fColor))
  }

  /** The whole `content` value. */
  function EncodeContent(m: Message): (r: string)
    ensures |r| >= 5 && r[..2] == "\"[" && r[|r| - 3..] == "]]\""
  {
    EnvelopeShape(Tokens(m.content), FontToken(m));
    "\"[" + Tokens(m.content) + FontToken(m) + "]\""
  }

  lemma EnvelopeShape(tokens: string, font: string)
    requires |font| > 0 && font[|font| - 1] == ']'
    ensures var r := "\"[" + tokens + font + "]\"";
      |r| >= 5 && r[..2] == "\"[" && r[|r| - 3..] == "]]\""
  {
    var r := "\"[" + tokens + font + "]\"";
    assert r[|r| - 3] == font[|font| - 1];
  }

  /** Whether a message has a group custom face, which makes a send carry the
      group face credentials. */
  predicate HasCface(ps: seq<Content>) {
    exists k :: 0 <= k < |ps| && ps[k].CFace?
  }

  /** Tokens of consecutive part lists concatenate. */
  lemma {:induction false} TokensAppend(a: seq<Content>, b: seq<Content>)
    ensures Tokens(a + b) == Tokens(a) + Tokens(b)
  {
    if a == [] {
      assert a + b == b;
    } else {
      assert (a + b)[0] == a[0] && (a + b)[1..] == a[1..] + b;
      TokensAppend(a[1..], b);
    }
  }

  /** A text with no newline, tab or backslash is sent verbatim between escaped
      quotes. */
  lemma PlainTextVerbatim(s: string)
    requires forall k :: 0 <= k < |s| ==> !Special(s[k])
    ensures PartToken(Text(s)) == Q + s + Q + ","
  {
    UnescapePlain(s);
  }

  /** Neither a raw newline nor a raw tab. */
  predicate NoControl(s: string) {
    '\n' !in s && '\t' !in s
  }

  lemma FormatIntNoControl(n: int)
    ensures NoControl(FormatInt(n))
  {
    var d := FormatNat(if n < 0 then -n else n);
    assert forall k :: 0 <= k < |d| ==> IsDigit(d[k]);
    if n < 0 {
      assert FormatInt(n) == "-" + d;
    }
  }

  /** The string fields the encoder copies as they are. */
  predicate FieldsNoControl(m: Message) {
    && NoControl(CStr(m.fName)) && NoControl(CStr(m.fColor))
    && forall k :: 0 <= k < |m.content| ==> PartNoControl(m.content[k])
  }

  predicate PartNoControl(c: Content) {
    match c
    case OffPic(_, filePath, file, _) => NoControl(CStr(filePath)) && NoControl(CStr(file))
    case CFace(name, _, _, _, _) => NoControl(CStr(name))
    case _ => true
  }

  lemma ConcatNoControl(a: string, b: string)
    requires NoControl(a) && NoControl(b)
    ensures NoControl(a + b)
  {
  }

  /** The fixed pieces the encoder writes. */
  lemma LiteralsNoControl()
    ensures NoControl("[") && NoControl(",") && NoControl("],") && NoControl(Q)
    ensures NoControl(":") && NoControl(":[") && NoControl(",{") && NoControl("}]")
    ensures NoControl("\"[") && NoControl("]\"")
  {
  }

  lemma TagNoControl(tag: string)
    requires NoControl(tag)
    ensures NoControl("[" + Key(tag) + ",")
  {
    LiteralsNoControl();
    KeyNoControl(tag);
    ConcatNoControl("[", Key(tag));
    ConcatNoControl("[" + Key(tag), ",");
  }

  lemma PartTokenNoControl(c: Content)
    requires PartNoControl(c)
    ensures NoControl(PartToken(c))
  {
    LiteralsNoControl();
    match c
    case Face(face) =>
      TagNoControl("face");
      FormatIntNoControl(face);
      ConcatNoControl("[" + Key("face") + ",", FormatInt(face));
      ConcatNoControl("[" + Key("face") + "," + FormatInt(face), "],");
    case OffPic(_, filePath, file, size) =>
      TagNoControl("offpic");
      var p0 := "[" + Key("offpic") + ",";
      KeyNoControl(CStr(filePath));
      ConcatNoControl(p0, Key(CStr(filePath)));
      ConcatNoControl(p0 + Key(CStr(filePath)), ",");
      var p1 := p0 + Key(CStr(filePath)) + ",";
      KeyNoControl(CStr(file));
      ConcatNoControl(p1, Key(CStr(file)));
      ConcatNoControl(p1 + Key(CStr(file)), ",");
      var p2 := p1 + Key(CStr(file)) + ",";
      FormatIntNoControl(size);
      ConcatNoControl(p2, FormatInt(size));
      ConcatNoControl(p2 + FormatInt(size), "],");
    case CFace(name, _, _, _, _) =>
      TagNoControl("cface");
      var p0 := "[" + Key("cface") + ",";
      KeyNoControl("group");
      ConcatNoControl(p0, Key("group"));
      ConcatNoControl(p0 + Key("group"), ",");
      var p1 := p0 + Key("group") + ",";
      KeyNoControl(CStr(name));
      ConcatNoControl(p1, Key(CStr(name)));
      ConcatNoControl(p1 + Key(CStr(name)), "],");
    case Text(str) =>
      UnescapeNoRawControl(str);
      assert NoControl(Unescape(str));
      ConcatNoControl(Q, Unescape(str));
      ConcatNoControl(Q + Unescape(str), Q);
      ConcatNoControl(Q + Unescape(str) + Q, ",");
  }

  lemma {:induction false} TokensNoControl(ps: seq<Content>)
    requires forall k :: 0 <= k < |ps| ==> PartNoControl(ps[k])
    ensures NoControl(Tokens(ps))
    decreases |ps|
  {
    if ps != [] {
      TokensNoControl(ps[1..]);
      PartTokenNoControl(ps[0]);
    }
  }

  /** Newlines and tabs in text parts never reach the request raw: the
      encoded content holds neither unless a field copied verbatim (a font
      name, a colour, a picture path or name) already did. */
  lemma KeyNoControl(k: string)
    requires NoControl(k)
    ensures NoControl(Key(k))
  {
  }

  lemma FieldNoControl(k: string, v: string)
    requires NoControl(k) && NoControl(v)
    ensures NoControl(Key(k) + ":" + v)
  {
    LiteralsNoControl();
    KeyNoControl(k);
    ConcatNoControl(Key(k), ":");
    ConcatNoControl(Key(k) + ":", v);
  }

  lemma FontStyleNoControl(st: Style)
    ensures NoControl(Key("style") + ":[" + FormatInt(st.b) + "," + FormatInt(st.i) + "," + FormatInt(st.u) + "],")
  {
    LiteralsNoControl();
    FormatIntNoControl(st.b);
    FormatIntNoControl(st.i);
    FormatIntNoControl(st.u);
    KeyNoControl("style");
    var p0 := Key("style") + ":[";
    ConcatNoControl(Key("style"), ":[");
    ConcatNoControl(p0, FormatInt(st.b));
    ConcatNoControl(p0 + FormatInt(st.b), ",");
    var p1 := p0 + FormatInt(st.b) + ",";
    ConcatNoControl(p1, FormatInt(st.i));
    ConcatNoControl(p1 + FormatInt(st.i), ",");
    var p2 := p1 + FormatInt(st.i) + ",";
    ConcatNoControl(p2, FormatInt(st.u));
    ConcatNoControl(p2 + FormatInt(st.u), "],");
  }

  lemma FontTokenNoControl(m: Message)
    requires NoControl(CStr(m.fName)) && NoControl(CStr(m.fColor))
    ensures NoControl(FontToken(m))
  {
    LiteralsNoControl();
    assert NoControl(FontName(m)) by {
      KeyNoControl(CStr(m.fName));
      FieldNoControl("name", Key(CStr(m.fName)));
      ConcatNoControl(Key("name") + ":" + Key(CStr(m.fName)), ",");
    }
    assert NoControl(FontSize(m)) by {
      FormatIntNoControl(m.fSize);
      KeyNoControl(FormatInt(m.fSize));
      FieldNoControl("size", Key(FormatInt(m.fSize)));
      ConcatNoControl(Key("size") + ":" + Key(FormatInt(m.fSize)), ",");
    }
    FontStyleNoControl(m.fStyle);
    assert NoControl(FontColor(m)) by {
      KeyNoControl(CStr(m.fColor));
      FieldNoControl("color", Key(CStr(m.fColor)));
    }
    var p0 := "[" + Key("font");
    assert NoControl(p0) by {
      KeyNoControl("font");
      ConcatNoControl("[", Key("font"));
    }
    ConcatNoControl(p0, ",{");
    ConcatNoControl(p0 + ",{", FontName(m));
    ConcatNoControl(p0 + ",{" + FontName(m), FontSize(m));
    ConcatNoControl(p0 + ",{" + FontName(m) + FontSize(m), FontStyle(m));
    ConcatNoControl(p0 + ",{" + FontName(m) + FontSize(m) + FontStyle(m), FontColor(m));
    ConcatNoControl(p0 + ",{" + FontName(m) + FontSize(m) + FontStyle(m) + FontColor(m), "}]");
  }

  lemma EncodeContentNoControl(m: Message)
    requires FieldsNoControl(m)
    ensures NoControl(EncodeContent(m))
  {
    LiteralsNoControl();
    TokensNoControl(m.content);
    FontTokenNoControl(m);
    ConcatNoControl("\"[", Tokens(m.content));
    ConcatNoControl("\"[" + Tokens(m.content), FontToken(m));
    ConcatNoControl("\"[" + Tokens(m.content) + FontToken(m), "]\"");
  }

  lemma TokensStep(ps: seq<Content>, i: nat)
    requires i < |ps|
    ensures Tokens(ps[..i + 1]) == Tokens(ps[..i]) + PartToken(ps[i])
  {
    assert ps[..i + 1] == ps[..i] + [ps[i]];
    TokensAppend(ps[..i], [ps[i]]);
    assert [ps[i]][1..] == [];
  }

  lemma HasCfaceStep(ps: seq<Content>, i: nat)
    requires i < |ps|
    ensures HasCface(ps[..i + 1]) <==> HasCface(ps[..i]) || ps[i].CFace?
  {
    if HasCface(ps[..i + 1]) && !ps[i].CFace? {
      var k :| 0 <= k < i + 1 && ps[..i + 1][k].CFace?;
      assert ps[..i][k].CFace?;
    }
    if HasCface(ps[..i]) {
      var k :| 0 <= k < i && ps[..i][k].CFace?;
      assert ps[..i + 1][k].CFace?;
    }
    if ps[i].CFace? {
      assert ps[..i + 1][i].CFace?;
    }
  }

  /** The `switch` in the loop of `content_parse_string`: the token of one
      part, and whether the part raises the has-cface flag. */
  method PartTokenOf(c: Content) returns (token: string, isCface: bool)
    ensures token == PartToken(c)
    ensures isCface <==> c.CFace?
  {
    isCface := false;
    match c {
      case Face(face) =>
        token := "[" + Key("face") + "," + FormatInt(face) + "],";
      case OffPic(_, filePath, file, size) =>
        token := "[" + Key("offpic") + "," + Key(CStr(filePath)) + "," + Key(CStr(file)) + "," + FormatInt(size) + "],";
      case CFace(name, _, _, _, _) =>
        token := "[" + Key("cface") + "," + Key("group") + "," + Key(CStr(name)) + "],";
        isCface := true;
      case Text(str) =>
        var u := ParseUnescape(str);
        token := Q + u + Q + ",";
    }
  }

  /** `content_parse_string`: walks the parts in order, appending each token,
      then the font token; raises the has-cface flag (never lowers it) when
      a part is a group custom face. */
  method ContentParseString(m: Message, hasCface0: bool) returns (buf: string, hasCface: bool)
    ensures buf == EncodeContent(m)
    ensures hasCface <==> hasCface0 || HasCface(m.content)
  {
    buf := "\"[";
    hasCface := hasCface0;
    var i := 0;
    while i < |m.content|
      invariant 0 <= i <= |m.content|
      invariant buf == "\"[" + Tokens(m.content[..i])
      invariant hasCface <==> hasCface0 || HasCface(m.content[..i])
    {
      var c := m.content[i];
      TokensStep(m.content, i);
      HasCfaceStep(m.content, i);
      var token, isCface := PartTokenOf(c);
      if isCface {
        hasCface := true;
      }
      Assoc("\"[", Tokens(m.content[..i]), token);
      buf := buf + token;
      i := i + 1;
    }
    assert m.content[..i] == m.content;
    buf := buf + FontToken(m) + "]\"";
  }
}
