/** Decoding of one poll response: the response gate, the event classifier and
    the decoders of buddy/group messages (with their content array) and of
    status changes. The transcoder `ucs4toutf8` is not part of this model; it
    is the parameter `ucs4ToUtf8` wherever the decoder calls it. */
module Decode {
  import opened Seqs
  import opened Optional
  import opened CText
  import opened Json
  import opened Messages
  import opened TextEscape

  /** `get_result_json_object`: a response passes only when its `retcode` text
      is exactly "0" and it has a `result` member; the gate yields that member. */
  function ResultGate(doc: Json): (r: Option<Json>)
    ensures r.Some? <==> SimpleValue(doc, "retcode") == Some("0") && HasLabel(doc, "result")
    ensures r.Some? ==> IsLabel(r.value, "result")
  {
    var retcode := SimpleValue(doc, "retcode");
    if retcode.None? || retcode.value != "0" then None
    else FindLabel(doc, "result")
  }

  /** `parse_recvmsg_type`: the kind of an event, by the prefix of its
      `poll_type` text. The three prefixes exclude each other, so the order of
      the tests does not matter. */
  function RecvmsgType(event: Json): (r: MsgKind)
    ensures var p := SimpleValue(event, "poll_type");
      && (r == BuddyMsg <==> p.Some? && "message" <= p.value)
      && (r == GroupMsg <==> p.Some? && "group_message" <= p.value)
      && (r == StatusChange <==> p.Some? && "buddies_status_change" <= p.value)
  {
    match SimpleValue(event, "poll_type")
    case None => UnknownKind
    case Some(t) =>
      PrefixesExclusive(t);
      if "message" <= t then BuddyMsg
      else if "group_message" <= t then GroupMsg
      else if "buddies_status_change" <= t then StatusChange
      else UnknownKind
  }

  /** No text starts with two of the three `poll_type` names. */
  lemma PrefixesExclusive(t: string)
    ensures !("message" <= t && "group_message" <= t)
    ensures !("message" <= t && "buddies_status_change" <= t)
    ensures !("group_message" <= t && "buddies_status_change" <= t)
  {
    if "message" <= t { assert t[0] == 'm'; }
    if "group_message" <= t { assert t[0] == 'g'; }
  }

  /** The font fields one `font` element carries. */
  datatype Font = Font(name: string, color: string, size: int, style: Style)

  /** The tag of a content element: the text of its first item. */
  function Tag(e: Json): Option<string> {
    ItemText(e, 0)
  }

  predicate IsFont(e: Json) {
    e.kind == JArray && Tag(e) == Some("font")
  }

  /** The `style` triple of a `font` element, read positionally; (0,0,0) when
      the element has no `style`. */
  function StyleOf(e: Json): (r: Style)
    ensures !HasLabel(e, "style") ==> r == Style(0, 0, 0)
  {
    match FindLabel(e, "style")
    case None => Style(0, 0, 0)
    case Some(l) =>
      var v := LabelValue(l);
      Style(Atoi(ItemText(v, 0).GetOr("")), Atoi(ItemText(v, 1).GetOr("")), Atoi(ItemText(v, 2).GetOr("")))
  }

  /** A `style` written as three decimal numbers reads back as those numbers. */
  lemma StyleOfWritten(e: Json, b: int, i: int, u: int)
    requires FindLabel(e, "style").Some?
    requires var v := LabelValue(FindLabel(e, "style").value);
      ItemText(v, 0) == Some(FormatInt(b)) && ItemText(v, 1) == Some(FormatInt(i))
      && ItemText(v, 2) == Some(FormatInt(u))
    ensures StyleOf(e) == Style(b, i, u)
  {
    AtoiFormatInt(b);
    AtoiFormatInt(i);
    AtoiFormatInt(u);
  }

  /** A `font` element: name (transcoded) defaulting to "Arial", color to
      "000000", size to 12. */
  function FontOf(e: Json, ucs4ToUtf8: string -> string): (f: Font)
    ensures SimpleValue(e, "name").None? ==> f.name == ucs4ToUtf8("Arial")
    ensures SimpleValue(e, "color").None? ==> f.color == "000000"
    ensures SimpleValue(e, "size").None? ==> f.size == 12
    ensures !HasLabel(e, "style") ==> f.style == Style(0, 0, 0)
  {
    AtoiDefaults();
    Font(
      ucs4ToUtf8(SimpleValue(e, "name").GetOr("Arial")),
      SimpleValue(e, "color").GetOr("000000"),
      Atoi(SimpleValue(e, "size").GetOr("12")),
      StyleOf(e))
  }

  /** The `server` text of a custom face split at its first colon into address
      and port; both stay empty when there is no server or no colon. */
  function SplitServer(server: Option<string>): (r: (string, string))
    ensures server.Some? && ':' in server.value ==>
      server.value == r.0 + ":" + r.1 && ':' !in r.0
  {
    match server
    case None => ("", "")
    case Some(s) =>
      match CharIndex(s, ':')
      case None => ("", "")
      case Some(k) =>
        assert s == s[..k] + ":" + s[k + 1..];
        (s[..k], s[k + 1..])
  }

  /** A `cface` element: the object form (it has a `name`) or the legacy form
      whose second item is the name and which leaves every other field unset. */
  function CFaceOf(e: Json): (c: Content)
    ensures c.CFace?
    ensures SimpleValue(e, "name").Some? ==>
      && c.name == SimpleValue(e, "name")
      && c.fileId == SimpleValue(e, "file_id")
      && c.key == SimpleValue(e, "key")
    ensures SimpleValue(e, "name").Some? && SimpleValue(e, "server").Some? && ':' in SimpleValue(e, "server").value ==>
      SimpleValue(e, "server").value == c.servIp + ":" + c.servPort && ':' !in c.servIp
    ensures SimpleValue(e, "name").None? ==> c == CFace(ItemText(e, 1), None, None, "", "")
  {
    var name := SimpleValue(e, "name");
    if name.Some? then
      var split := SplitServer(SimpleValue(e, "server"));
      CFace(name, SimpleValue(e, "file_id"), SimpleValue(e, "key"), split.0, split.1)
    else
      CFace(ItemText(e, 1), None, None, "", "")
  }

  /** An `offpic` element; the stored file and its size are only filled in by
      a media fetch. */
  function OffPicOf(e: Json): (r: Content)
    ensures r.OffPic? && r.filePath == SimpleValue(e, "file_path")
    ensures r.file.None? && r.size == 0
  {
    OffPic(Atoi(SimpleValue(e, "success").GetOr("")), SimpleValue(e, "file_path"), None, 0)
  }

  /** The part one content element adds, if any: a tagged array gives a face,
      offline picture or custom face, a string gives a text run (transcoded,
      then unescaped by `parse_escape`); a `font` element, an unknown tag and
      any other node give none. */
  function ElementPart(e: Json, ucs4ToUtf8: string -> string): (r: Option<Content>)
    ensures IsFont(e) ==> r.None?
    ensures e.kind != JArray && e.kind != JString ==> r.None?
    ensures e.kind == JString ==> r.Some? && r.value.Text?
    ensures e.kind == JArray ==>
      (r.Some? <==> Tag(e) == Some("face") || Tag(e) == Some("offpic") || Tag(e) == Some("cface"))
    ensures r.Some? && r.value.Face? ==> e.kind == JArray && Tag(e) == Some("face")
    ensures r.Some? && r.value.OffPic? ==> e.kind == JArray && Tag(e) == Some("offpic")
    ensures r.Some? && r.value.CFace? ==> e.kind == JArray && Tag(e) == Some("cface")
  {
    if e.kind == JArray then
      var tag := Tag(e);
      if tag == Some("face") then Some(Face(Atoi(ItemText(e, 1).GetOr(""))))
      else if tag == Some("offpic") then Some(OffPicOf(e))
      else if tag == Some("cface") then Some(CFaceOf(e))
      else None
    else if e.kind == JString then Some(Text(Escape(ucs4ToUtf8(e.text.GetOr("")))))
    else None
  }

  function SetFont(m: Message, f: Font): Message {
    m.(fName := Some(f.name), fColor := Some(f.color), fSize := f.size, fStyle := f.style)
  }

  /** One pass of the loop of `parse_content` over element `e`. */
  function Step(m: Message, e: Json, ucs4ToUtf8: string -> string): Message {
    if IsFont(e) then SetFont(m, FontOf(e, ucs4ToUtf8))
    else match ElementPart(e, ucs4ToUtf8)
      case Some(c) => m.(content := m.content + [c])
      case None => m
  }

  /** The message after the loop of `parse_content` has visited `es`. */
  function Fold(m: Message, es: seq<Json>, ucs4ToUtf8: string -> string): Message {
    if es == [] then m else Step(Fold(m, es[..|es| - 1], ucs4ToUtf8), es[|es| - 1], ucs4ToUtf8)
  }

  /** The parts the elements give, one per part-giving element, in order. */
  function Parts(es: seq<Json>, ucs4ToUtf8: string -> string): seq<Content> {
    if es == [] then []
    else
      (match ElementPart(es[0], ucs4ToUtf8) case Some(c) => [c] case None => [])
      + Parts(es[1..], ucs4ToUtf8)
  }

  /** The font of the last `font` element among `es`. */
  function LastFont(es: seq<Json>, ucs4ToUtf8: string -> string): Option<Font> {
    if es == [] then None
    else match LastFont(es[1..], ucs4ToUtf8)
      case Some(f) => Some(f)
      case None => if IsFont(es[0]) then Some(FontOf(es[0], ucs4ToUtf8)) else None
  }

  lemma {:induction false} PartsSnoc(es: seq<Json>, e: Json, ucs4ToUtf8: string -> string)
    ensures Parts(es + [e], ucs4ToUtf8) ==
      Parts(es, ucs4ToUtf8) + (match ElementPart(e, ucs4ToUtf8) case Some(c) => [c] case None => [])
  {
    if es == [] {
      assert [e][1..] == [];
    } else {
      assert (es + [e])[1..] == es[1..] + [e] && (es + [e])[0] == es[0];
      PartsSnoc(es[1..], e, ucs4ToUtf8);
      Assoc((match ElementPart(es[0], ucs4ToUtf8) case Some(c) => [c] case None => []),
        Parts(es[1..], ucs4ToUtf8), (match ElementPart(e, ucs4ToUtf8) case Some(c) => [c] case None => []));
    }
  }

  lemma {:induction false} LastFontSnoc(es: seq<Json>, e: Json, ucs4ToUtf8: string -> string)
    ensures LastFont(es + [e], ucs4ToUtf8) ==
      if IsFont(e) then Some(FontOf(e, ucs4ToUtf8)) else LastFont(es, ucs4ToUtf8)
  {
    if es == [] {
      assert [e][1..] == [];
    } else {
      assert (es + [e])[1..] == es[1..] + [e];
      LastFontSnoc(es[1..], e, ucs4ToUtf8);
    }
  }

  /** The font fields of `m` after the font `f`, if there is one. */
  function ApplyFont(m: Message, f: Option<Font>): Message {
    match f
    case Some(font) => SetFont(m, font)
    case None => m
  }

  lemma FontElementHasNoPart(e: Json, ucs4ToUtf8: string -> string)
    requires IsFont(e)
    ensures ElementPart(e, ucs4ToUtf8).None?
  {
    assert Tag(e) == Some("font");
    assert "font"[1] == 'o' && "face"[1] == 'a' && "offpic"[0] == 'o' && "cface"[0] == 'c';
  }

  /** What the loop of `parse_content` does, field by field: it appends exactly
      the parts of the elements, in order, to the content; the last `font`
      element, if any, decides every font field; nothing else changes. */
  lemma {:induction false} FoldSplits(m: Message, es: seq<Json>, ucs4ToUtf8: string -> string)
    ensures Fold(m, es, ucs4ToUtf8) ==
      ApplyFont(m, LastFont(es, ucs4ToUtf8)).(content := m.content + Parts(es, ucs4ToUtf8))
  {
    if es == [] {
      assert m.content + [] == m.content;
    } else {
      var init, e := es[..|es| - 1], es[|es| - 1];
      SplitLast(es);
      FoldSplits(m, init, ucs4ToUtf8);
      StepSplits(m, Fold(m, init, ucs4ToUtf8), init, e, ucs4ToUtf8);
    }
  }

  /** One more element keeps the split of `FoldSplits`. */
  lemma StepSplits(m: Message, x: Message, init: seq<Json>, e: Json, ucs4ToUtf8: string -> string)
    requires x == ApplyFont(m, LastFont(init, ucs4ToUtf8)).(content := m.content + Parts(init, ucs4ToUtf8))
    ensures Step(x, e, ucs4ToUtf8) ==
      ApplyFont(m, LastFont(init + [e], ucs4ToUtf8)).(content := m.content + Parts(init + [e], ucs4ToUtf8))
  {
    PartsSnoc(init, e, ucs4ToUtf8);
    LastFontSnoc(init, e, ucs4ToUtf8);
    if IsFont(e) {
      FontElementHasNoPart(e, ucs4ToUtf8);
      assert Parts(init + [e], ucs4ToUtf8) == Parts(init, ucs4ToUtf8) + [];
    } else {
      match ElementPart(e, ucs4ToUtf8)
      case Some(c) =>
        assert m.content + Parts(init + [e], ucs4ToUtf8) == (m.content + Parts(init, ucs4ToUtf8)) + [c];
      case None =>
        assert Parts(init + [e], ucs4ToUtf8) == Parts(init, ucs4ToUtf8) + [];
    }
  }

  /** The elements of the `content` member of an event, if it has one. */
  function ContentElements(event: Json): (r: Option<seq<Json>>)
    ensures r.Some? <==> HasLabel(event, "content")
  {
    match FindLabel(event, "content")
    case None => None
    case Some(l) => Some(LabelValue(l).children)
  }

  /** The return code of `parse_content` and the message it leaves: -1 when
      there is no `content`, when no font was ever set or when no part was
      added; otherwise 0, with the font size raised to at least 10. */
  function DecodeContent(event: Json, m: Message, ucs4ToUtf8: string -> string): (r: (int, Message))
    ensures r.0 == 0 || r.0 == -1
    ensures r.0 == 0 ==> r.1.fName.Some? && r.1.fColor.Some? && r.1.content != []
    ensures r.0 == 0 ==> r.1.fSize >= 10
    ensures r.1 == m.(fName := r.1.fName, fColor := r.1.fColor, fSize := r.1.fSize,
                      fStyle := r.1.fStyle, content := r.1.content)
  {
    match ContentElements(event)
    case None => (-1, m)
    case Some(es) =>
      FoldSplits(m, es, ucs4ToUtf8);
      var m1 := Fold(m, es, ucs4ToUtf8);
      if m1.fName.None? || m1.fColor.None? || m1.content == [] then (-1, m1)
      else (0, if m1.fSize < 10 then m1.(fSize := 10) else m1)
  }

  /** `parse_content` on a message that has no font and no part yet, as
      `lwqq_msg_new` makes it: it succeeds exactly when there is a `content`
      array holding a `font` element and at least one part; the parts are then
      those of the elements in order, the font is that of the last `font`
      element, a size below 10 becomes 10 and a size of 10 or more is kept,
      and no other field changes. */
  lemma ContentOutcome(event: Json, m: Message, ucs4ToUtf8: string -> string)
    requires m.fName.None? && m.fColor.None? && m.content == []
    ensures var r := DecodeContent(event, m, ucs4ToUtf8);
      var es := ContentElements(event);
      && (r.0 == 0 <==>
            es.Some? && LastFont(es.value, ucs4ToUtf8).Some? && Parts(es.value, ucs4ToUtf8) != [])
      && (r.0 == 0 ==>
            var f := LastFont(es.value, ucs4ToUtf8).value;
            && r.1.content == Parts(es.value, ucs4ToUtf8)
            && r.1.fName == Some(f.name) && r.1.fColor == Some(f.color) && r.1.fStyle == f.style
            && r.1.fSize == (if f.size < 10 then 10 else f.size)
            && r.1 == m.(fName := r.1.fName, fColor := r.1.fColor, fSize := r.1.fSize,
                         fStyle := r.1.fStyle, content := r.1.content))
  {
    match ContentElements(event)
    case None =>
    case Some(es) =>
      FoldSplits(m, es, ucs4ToUtf8);
      SplitOutcome(m, LastFont(es, ucs4ToUtf8), Parts(es, ucs4ToUtf8));
  }

  /** The message `FoldSplits` describes, when `m` had no font and no part. */
  lemma SplitOutcome(m: Message, f: Option<Font>, ps: seq<Content>)
    requires m.fName.None? && m.fColor.None? && m.content == []
    ensures var m1 := ApplyFont(m, f).(content := m.content + ps);
      && ((m1.fName.None? || m1.fColor.None? || m1.content == []) <==> (f.None? || ps == []))
      && m1.content == ps
      && (f.Some? ==>
            m1.fName == Some(f.value.name) && m1.fColor == Some(f.value.color)
            && m1.fStyle == f.value.style && m1.fSize == f.value.size)
  {
    assert m.content + ps == ps;
  }

  /** The body of the loop of `parse_content` for one element. */
  method ContentStep(msg: Message, ctent: Json, ucs4ToUtf8: string -> string) returns (r: Message)
    ensures r == Step(msg, ctent, ucs4ToUtf8)
  {
    r := msg;
    if ctent.kind == JArray {
      var buf := Tag(ctent);
      if buf == Some("font") {
        r := SetFont(r, FontOf(ctent, ucs4ToUtf8));
      } else if buf == Some("face") {
        r := r.(content := r.content + [Face(Atoi(ItemText(ctent, 1).GetOr("")))]);
      } else if buf == Some("offpic") {
        r := r.(content := r.content + [OffPicOf(ctent)]);
      } else if buf == Some("cface") {
        r := r.(content := r.content + [CFaceOf(ctent)]);
      }
    } else if ctent.kind == JString {
      var str := ucs4ToUtf8(ctent.text.GetOr(""));
      var a := new char[|str|](k requires 0 <= k < |str| => str[k]);
      assert a[..] == str;
      ParseEscape(a);
      r := r.(content := r.content + [Text(a[..])]);
    }
  }

  /** `parse_content`: walks the content array of `event` and fills in the
      font and the parts of `m`. */
  method ParseContent(event: Json, m: Message, ucs4ToUtf8: string -> string) returns (rc: int, msg: Message)
    ensures (rc, msg) == DecodeContent(event, m, ucs4ToUtf8)
  {
    msg := m;
    var content := FindLabel(event, "content");
    if content.None? {
      return -1, msg;
    }
    var es := LabelValue(content.value).children;
    var i := 0;
    while i < |es|
      invariant 0 <= i <= |es|
      invariant msg == Fold(m, es[..i], ucs4ToUtf8)
    {
      TakeLast(es, i);
      msg := ContentStep(msg, es[i], ucs4ToUtf8);
      i := i + 1;
    }
    assert es[..i] == es;
    if msg.fName.None? || msg.fColor.None? || msg.content == [] {
      return -1, msg;
    }
    if msg.fSize < 10 {
      msg := msg.(fSize := 10);
    }
    return 0, msg;
  }

  /** The fields `parse_new_msg` reads before the content: `from_uin`,
      `time` (default "0"), `to_uin`, `msg_id`, `send_uin` and `group_code`. */
  function WithHeader(event: Json, m: Message): (r: Message)
    ensures r.from == SimpleValue(event, "from_uin") && r.to == SimpleValue(event, "to_uin")
    ensures r.msgId == SimpleValue(event, "msg_id")
    ensures r.send == SimpleValue(event, "send_uin") && r.groupCode == SimpleValue(event, "group_code")
    ensures SimpleValue(event, "time").None? ==> r.time == 0
    ensures r.content == m.content && r.fName == m.fName && r.fColor == m.fColor
    ensures r.fSize == m.fSize && r.fStyle == m.fStyle
  {
    AtoiDefaults();
    m.(from := SimpleValue(event, "from_uin"),
       time := Atoi(SimpleValue(event, "time").GetOr("0")),
       to := SimpleValue(event, "to_uin"),
       msgId := SimpleValue(event, "msg_id"),
       send := SimpleValue(event, "send_uin"),
       groupCode := SimpleValue(event, "group_code"))
  }

  /** A `time` written as a decimal number reads back as that number. */
  lemma HeaderTimeWritten(event: Json, m: Message, t: int)
    requires SimpleValue(event, "time") == Some(FormatInt(t))
    ensures WithHeader(event, m).time == t
  {
    AtoiFormatInt(t);
  }

  /** A decoded buddy or group message: sender and receiver present, a font
      set, at least one part, a font size of at least 10. */
  predicate ValidMessage(m: Message) {
    m.from.Some? && m.to.Some? && m.fName.Some? && m.fColor.Some? && m.content != [] && m.fSize >= 10
  }

  /** `parse_new_msg`: the decoded message, or none when `from_uin` or
      `to_uin` is missing or the content does not decode; `send_uin` and
      `group_code` may be missing, and a missing `time` reads as 0. */
  function DecodeNewMsg(event: Json, m: Message, ucs4ToUtf8: string -> string): (r: Option<Message>)
    ensures r.Some? <==>
      && SimpleValue(event, "from_uin").Some? && SimpleValue(event, "to_uin").Some?
      && DecodeContent(event, WithHeader(event, m), ucs4ToUtf8).0 == 0
    ensures r.Some? ==> ValidMessage(r.value)
    ensures r.Some? ==>
      && r.value.from == SimpleValue(event, "from_uin") && r.value.to == SimpleValue(event, "to_uin")
      && r.value.send == SimpleValue(event, "send_uin") && r.value.groupCode == SimpleValue(event, "group_code")
      && r.value.msgId == SimpleValue(event, "msg_id")
    ensures r.Some? && SimpleValue(event, "time").None? ==> r.value.time == 0
  {
    AtoiDefaults();
    var h := WithHeader(event, m);
    if h.from.None? || h.to.None? then None
    else
      var c := DecodeContent(event, h, ucs4ToUtf8);
      if c.0 != 0 then None else Some(c.1)
  }

  /** `parse_new_msg`, as the dispatcher runs it. */
  method ParseNewMsg(event: Json, m: Message, ucs4ToUtf8: string -> string) returns (rc: int, msg: Message)
    ensures rc == 0 || rc == -1
    ensures rc == 0 <==> DecodeNewMsg(event, m, ucs4ToUtf8).Some?
    ensures rc == 0 ==> Some(msg) == DecodeNewMsg(event, m, ucs4ToUtf8)
  {
    msg := m.(from := SimpleValue(event, "from_uin"));
    if msg.from.None? {
      return -1, msg;
    }
    var time := SimpleValue(event, "time").GetOr("0");
    msg := msg.(time := Atoi(time));
    msg := msg.(to := SimpleValue(event, "to_uin"));
    msg := msg.(msgId := SimpleValue(event, "msg_id"));
    msg := msg.(send := SimpleValue(event, "send_uin"));
    msg := msg.(groupCode := SimpleValue(event, "group_code"));
    if msg.to.None? {
      return -1, msg;
    }
    assert msg == WithHeader(event, m);
    var c;
    c, msg := ParseContent(event, msg, ucs4ToUtf8);
    if c != 0 {
      return -1, msg;
    }
    return 0, msg;
  }

  /** `parse_status_change`: none when `uin` or `status` is missing; a missing
      `client_type` reads as 1. */
  function ParseStatusChange(event: Json, s: StatusChangeMsg): (r: Option<StatusChangeMsg>)
    ensures r.Some? <==> SimpleValue(event, "uin").Some? && SimpleValue(event, "status").Some?
    ensures r.Some? ==> r.value.who == SimpleValue(event, "uin") && r.value.status == SimpleValue(event, "status")
    ensures r.Some? && SimpleValue(event, "client_type").None? ==> r.value.clientType == 1
  {
    AtoiDefaults();
    var who := SimpleValue(event, "uin");
    if who.None? then None
    else
      var status := SimpleValue(event, "status");
      if status.None? then None
      else Some(s.(who := who, status := status, clientType := Atoi(SimpleValue(event, "client_type").GetOr("1"))))
  }

  /** A decoded event of any kind. */
  predicate ValidMsg(m: Msg) {
    match m
    case Buddy(b) => ValidMessage(b)
    case Group(g) => ValidMessage(g)
    case Status(s) => s.who.Some? && s.status.Some?
  }

  /** One element of `result` as the loop of `parse_recvmsg_from_json` handles
      it: classified, given a fresh body by `lwqq_msg_new`, then decoded; none
      when the kind is unknown or the decoder fails. */
  function DecodeElement(event: Json, ucs4ToUtf8: string -> string): (r: Option<Msg>)
    ensures RecvmsgType(event) == UnknownKind ==> r.None?
    ensures r.Some? ==> Kind(r.value) == RecvmsgType(event) && ValidMsg(r.value)
  {
    match MsgNew(RecvmsgType(event))
    case None => None
    case Some(Buddy(m)) =>
      (match DecodeNewMsg(event, m, ucs4ToUtf8) case Some(d) => Some(Buddy(d)) case None => None)
    case Some(Group(m)) =>
      (match DecodeNewMsg(event, m, ucs4ToUtf8) case Some(d) => Some(Group(d)) case None => None)
    case Some(Status(s)) =>
      (match ParseStatusChange(event, s) case Some(d) => Some(Status(d)) case None => None)
  }
}
