/** The send path: `lwqq_msg_send` builds the POST request for a buddy or
    group message, and `msg_send_back` reads the server's answer. The HTTP
    exchange itself (headers, cookies, the asynchronous request) is not part
    of this model; a request is its URL and its form body. */
module Send {
  import opened Optional
  import opened CText
  import opened Json
  import opened Messages
  import opened Encode
  import opened Decode

  datatype Request = Request(url: string, body: string)

  const Server: string := "http://d.web2.qq.com"

  /** The channel endpoint of each sendable kind. */
  function ApiName(m: Msg): (r: string)
    requires !m.Status?
    ensures r == "send_buddy_msg2" <==> m.Buddy?
    ensures r == "send_qun_msg2" <==> m.Group?
  {
    if m.Buddy? then "send_buddy_msg2" else "send_qun_msg2"
  }

  /** The name of the recipient field of each sendable kind. */
  function ToName(m: Msg): (r: string)
    requires !m.Status?
    ensures r == "to" <==> m.Buddy?
    ensures r == "group_uin" <==> m.Group?
  {
    if m.Buddy? then "to" else "group_uin"
  }

  /** The opening of the `r` object: the recipient field, its value unquoted. */
  function BodyHead(m: Msg): (r: string)
    requires !m.Status?
    ensures StartsWith(r, "r={\"") && r[|r| - 1] == ','
  {
    "r={\"" + ToName(m) + "\":" + CStr(m.message.to) + ","
  }

  /** The group face credentials, written only when the content has a group
      custom face. */
  function BodyCreds(lc: Client, m: Msg): (r: string)
    requires !m.Status?
    ensures r != "" <==> HasCface(m.message.content)
    ensures r != "" ==> StartsWith(r, GroupCodeKey)
  {
    if HasCface(m.message.content) then
      GroupCodeKey + (CStr(m.message.groupCode) + ","
        + "\"key\":\"" + CStr(lc.gfaceKey) + "\","
        + "\"sig\":\"" + CStr(lc.gfaceSig) + "\",")
    else ""
  }

  const GroupCodeKey: string := "\"group_code\":"

  const FaceField: string := "\"face\":0,"

  /** The rest of the body: the face field, the content, the sequence number
      and session closing the `r` object, then the session again as form
      fields. */
  function BodyTail(lc: Client, m: Msg): (r: string)
    requires !m.Status?
    ensures StartsWith(r, FaceField) && EndsWith(r, SessionFields(lc))
  {
    var content, session := ContentField(m.message), SessionFields(lc);
    StartsWithItself(FaceField, content, SessionObject(lc) + session);
    EndsWithItself(SessionObject(lc), session);
    EndsWithAfter(FaceField + content, SessionObject(lc) + session, session);
    FaceField + ContentField(m.message) + (SessionObject(lc) + SessionFields(lc))
  }

  /** The `content` field: the encoded content, unquoted, as its value. */
  function ContentField(m: Message): string {
    "\"content\":" + EncodeContent(m) + ","
  }

  function SessionObject(lc: Client): string {
    "\"msg_id\":" + FormatInt(lc.msgId) + ","
      + "\"clientid\":\"" + lc.clientId + "\","
      + "\"psessionid\":\"" + lc.psessionId + "\"}"
  }

  function SessionFields(lc: Client): string {
    "&clientid=" + lc.clientId + "&psessionid=" + lc.psessionId
  }

  /** The request a message is sent with; none for a status change, which
      cannot be sent. */
  function SendRequest(lc: Client, m: Msg): (r: Option<Request>)
    ensures r.None? <==> m.Status?
    ensures r.Some? ==> r.value.url == Server + "/channel/" + ApiName(m)
  {
    if m.Status? then None
    else Some(Request(Server + "/channel/" + ApiName(m), BodyHead(m) + BodyCreds(lc, m) + BodyTail(lc, m)))
  }

  /** `lwqq_msg_send`: refuses a missing message and any kind but buddy and
      group messages; otherwise encodes the content (the has-cface flag
      starts at 0) and assembles the request. */
  method MsgSend(lc: Client, msg: Option<Msg>) returns (req: Option<Request>)
    ensures req.None? <==> msg.None? || msg.value.Status?
    ensures req.Some? ==> req == SendRequest(lc, msg.value)
  {
    if msg.None? || msg.value.Status? {
      return None;
    }
    var m := msg.value;
    var tonam, apistr;
    if m.Buddy? {
      tonam, apistr := "to", "send_buddy_msg2";
    } else {
      tonam, apistr := "group_uin", "send_qun_msg2";
    }
    var mmsg := m.message;
    var content, hasCface := ContentParseString(mmsg, false);
    var data := "r={\"" + tonam + "\":" + CStr(mmsg.to) + ",";
    assert data == BodyHead(m);
    var creds := "";
    if hasCface {
      creds := "\"group_code\":" + (CStr(mmsg.groupCode) + ","
        + "\"key\":\"" + CStr(lc.gfaceKey) + "\","
        + "\"sig\":\"" + CStr(lc.gfaceSig) + "\",");
    }
    assert creds == BodyCreds(lc, m);
    data := data + creds;
    var session := "\"msg_id\":" + FormatInt(lc.msgId) + ","
      + "\"clientid\":\"" + lc.clientId + "\","
      + "\"psessionid\":\"" + lc.psessionId + "\"}";
    var form := "&clientid=" + lc.clientId + "&psessionid=" + lc.psessionId;
    var tail := "\"face\":0," + ("\"content\":" + content + ",") + (session + form);
    assert tail == BodyTail(lc, m);
    data := data + tail;
    req := Some(Request(Server + "/channel/" + apistr, data));
  }

  lemma OccursAtMiddle(a: string, b: string, c: string)
    ensures OccursAt(a + b + c, b, |a|)
  {
    assert (a + b + c)[|a|..|a| + |b|] == b;
  }

  lemma Regroup(h: string, cr: string, f: string, cf: string, rest: string)
    ensures h + cr + (f + cf + rest) == (h + cr + f) + cf + rest
  {
  }

  /** The body of a sent message opens with the recipient field of its kind. */
  lemma SendBodyHead(lc: Client, m: Msg)
    requires !m.Status?
    ensures StartsWith(SendRequest(lc, m).value.body, "r={\"" + ToName(m) + "\":" + CStr(m.message.to) + ",")
  {
    StartsWithItself(BodyHead(m), BodyCreds(lc, m), BodyTail(lc, m));
  }

  predicate StartsWith(s: string, prefix: string) {
    |s| >= |prefix| && s[..|prefix|] == prefix
  }

  lemma StartsWithItself(a: string, b: string, c: string)
    ensures StartsWith(a + b + c, a)
  {
    assert (a + b + c)[..|a|] == a;
  }

  predicate EndsWith(s: string, suffix: string) {
    |s| >= |suffix| && s[|s| - |suffix|..] == suffix
  }

  lemma EndsWithItself(a: string, b: string)
    ensures EndsWith(a + b, b)
  {
    assert (a + b)[|a + b| - |b|..] == b;
  }

  lemma EndsWithAfter(a: string, s: string, suffix: string)
    requires EndsWith(s, suffix)
    ensures EndsWith(a + s, suffix)
  {
    assert (a + s)[|a + s| - |suffix|..] == s[|s| - |suffix|..];
  }

  lemma KeyAt(head: string, values: string, tail: string)
    ensures OccursAt(head + (GroupCodeKey + values) + tail, GroupCodeKey, |head|)
  {
    assert head + (GroupCodeKey + values) + tail == head + GroupCodeKey + (values + tail);
    OccursAtMiddle(head, GroupCodeKey, values + tail);
  }

  lemma NoKeyAt(head: string, a: string, b: string)
    ensures !OccursAt(head + "" + (FaceField + a + b), GroupCodeKey, |head|)
  {
    var body := head + "" + (FaceField + a + b);
    assert body[|head| + 1] == FaceField[1];
  }

  /** The group face credentials follow the recipient field exactly when the
      content has a group custom face; otherwise the `face` field comes
      next. */
  lemma SendBodyCreds(lc: Client, m: Msg)
    requires !m.Status?
    ensures var body := SendRequest(lc, m).value.body;
      var head := "r={\"" + ToName(m) + "\":" + CStr(m.message.to) + ",";
      HasCface(m.message.content) <==> OccursAt(body, GroupCodeKey, |head|)
  {
    var head, tail := BodyHead(m), BodyTail(lc, m);
    if HasCface(m.message.content) {
      KeyAt(head, BodyCreds(lc, m)[|GroupCodeKey|..], tail);
    } else {
      NoKeyAt(head, ContentField(m.message), SessionObject(lc) + SessionFields(lc));
    }
  }

  /** The body closes with the session as form fields. */
  lemma SendBodySession(lc: Client, m: Msg)
    requires !m.Status?
    ensures EndsWith(SendRequest(lc, m).value.body, SessionFields(lc))
  {
    var session := SessionFields(lc);
    EndsWithItself(SessionObject(lc), session);
    EndsWithAfter(FaceField + ContentField(m.message), SessionObject(lc) + session, session);
    EndsWithAfter(BodyHead(m) + BodyCreds(lc, m), BodyTail(lc, m), session);
  }

  /** The content field carries exactly what `content_parse_string` gives for
      the message, right after the `face` field. */
  lemma SendBodyContent(lc: Client, m: Msg)
    requires !m.Status?
    ensures var body := SendRequest(lc, m).value.body;
      OccursAt(body, ContentField(m.message), |BodyHead(m) + BodyCreds(lc, m) + FaceField|)
  {
    var head, creds, cf, rest := BodyHead(m), BodyCreds(lc, m), ContentField(m.message), SessionObject(lc) + SessionFields(lc);
    Regroup(head, creds, FaceField, cf, rest);
    OccursAtMiddle(head + creds + FaceField, cf, rest);
  }

  /** `msg_send_back`: 1 when the server answered 200 with a body that parses
      and passes the `retcode`/`result` check, 0 otherwise. */
  function SendBack(httpCode: int, response: Option<Json>): (r: int)
    ensures r == 0 || r == 1
    ensures r == 1 <==>
      (httpCode == 200 && response.Some?
       && SimpleValue(response.value, "retcode") == Some("0") && HasLabel(response.value, "result"))
  {
    if httpCode != 200 then 0
    else if response.None? then 0
    else if ResultGate(response.value).None? then 0
    else 1
  }
}
