/** The message model of the library: `LwqqMsgType`, the content parts
    (`LwqqMsgContent`), the buddy/group message body (`LwqqMsgMessage`), the
    status-change body (`LwqqMsgStatusChange`) and the tagged `LwqqMsg`. A
    `char *` field that may be NULL is an `Option<string>`; a fixed `char[]`
    field of a zero-filled struct is a `string` that starts empty. */
module Messages {
  import opened Optional

  datatype MsgKind = BuddyMsg | GroupMsg | StatusChange | UnknownKind

  datatype Style = Style(b: int, i: int, u: int)

  /** One content part. The binary payloads of pictures, filled in later by a
      media fetch, are not part of this model. */
  datatype Content =
    | Face(face: int)
    | OffPic(success: int, filePath: Option<string>, file: Option<string>, size: int)
    | CFace(name: Option<string>, fileId: Option<string>, key: Option<string>, servIp: string, servPort: string)
    | Text(str: string)

  /** A buddy or group message. */
  datatype Message = Message(
    from: Option<string>,
    to: Option<string>,
    send: Option<string>,
    groupCode: Option<string>,
    msgId: Option<string>,
    time: int,
    fName: Option<string>,
    fColor: Option<string>,
    fSize: int,
    fStyle: Style,
    content: seq<Content>)

  datatype StatusChangeMsg = StatusChangeMsg(who: Option<string>, status: Option<string>, clientType: int)

  /** `LwqqMsg`: the kind tag and the body it selects, as one sum type. */
  datatype Msg = Buddy(message: Message) | Group(message: Message) | Status(change: StatusChangeMsg)

  function Kind(m: Msg): MsgKind {
    match m
    case Buddy(_) => BuddyMsg
    case Group(_) => GroupMsg
    case Status(_) => StatusChange
  }

  /** The session values a send needs from `LwqqClient`. */
  datatype Client = Client(
    clientId: string,
    psessionId: string,
    gfaceKey: Option<string>,
    gfaceSig: Option<string>,
    msgId: int)

  /** A zero-filled message body, as `s_malloc0` leaves it. */
  const EmptyMessage := Message(None, None, None, None, None, 0, None, None, 0, Style(0, 0, 0), [])

  const EmptyStatusChange := StatusChangeMsg(None, None, 0)

  /** `lwqq_msg_new`: a fresh message of the given kind with an empty body; there
      is none for an unknown kind. */
  function MsgNew(kind: MsgKind): (r: Option<Msg>)
    ensures r.None? <==> kind == UnknownKind
    ensures r.Some? ==> Kind(r.value) == kind
    ensures r.Some? && !r.value.Status? ==> r.value.message == EmptyMessage
    ensures r.Some? && r.value.Status? ==> r.value.change == EmptyStatusChange
  {
    match kind
    case BuddyMsg => Some(Buddy(EmptyMessage))
    case GroupMsg => Some(Group(EmptyMessage))
    case StatusChange => Some(Status(EmptyStatusChange))
    case UnknownKind => None
  }
}
