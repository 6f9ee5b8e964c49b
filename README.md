# lwqq message pipeline, modelled in Dafny

This project models the message pipeline of lwqq, the WebQQ client library behind
pidgin-lwqq (`src/liblwqq/msg.c`). It covers:

- **Receive side.** A long-poll response passes the `retcode`/`result` gate. Each
  event in `result` is classified by its `poll_type` and gets a fresh message from
  `lwqq_msg_new`. It is then decoded by `parse_new_msg` (header fields, then
  `parse_content` over the rich-text content array) or by `parse_status_change`.
  Every event that decodes is appended, in order, to the receive queue
  `LwqqRecvMsgList`.
- **Text transforms.** `parse_escape` rewrites received text in place.
  `parse_unescape` doubles the escaping of outgoing text.
- **Send side.** `content_parse_string` encodes a message's parts and font. `lwqq_msg_send`
  assembles the request for a buddy or group message, and `msg_send_back` judges the
  server's answer.
- **`get_host_of_url`.** It copies the host of a URL into a caller's buffer.

How the model is built:

| Module | File | What it holds |
|---|---|---|
| `Optional` | `optional.dfy` | The `Option` type. |
| `Seqs` | `seqs.dfy` | Facts about sequence concatenation and slicing, each stated once and shared by the proofs. |
| `CText` | `ctext.dfy` | The C library behaviour the code relies on: `atoi`, `%d`, `strstr`, `strchr`, and `printf("%s", NULL)`. |
| `Json` | `json.dfy` | The parsed JSON tree in the tokenizer's own shape: a node has a type, an optional text and ordered children; an object member is a label node whose one child is the value. It also has the lookups `json_find_first_label_all` and `json_parse_simple_value`. |
| `Messages` | `types.dfy` | The message types and `lwqq_msg_new`. |
| `TextEscape` | `escape.dfy` | `parse_escape` as a method that rewrites a character `array` in place, and `parse_unescape` as a loop that appends to the output. Each is proved equal to a specification function. |
| `Decode` | `decode.dfy` | The gate, the classifier and the decoders. `parse_content` is a loop over the content array, proved equal to a fold. Lemmas split that fold into "the parts, in order" and "the last font". |
| `RecvQueue` | `queue.dfy` | `LwqqRecvMsgList` as a class whose `msgs` sequence `parse_recvmsg_from_json` extends at the tail, and `lwqq_recvmsg_free`. |
| `Encode` | `encode.dfy` | `content_parse_string` as a loop over the parts, proved equal to the encoding function. |
| `Send` | `send.dfy` | `lwqq_msg_send`, the request it builds, and `msg_send_back`. |
| `Url` | `url.dfy` | `get_host_of_url` as a method that writes a character `array`. |

Three behaviours of `src/liblwqq/msg.c` are easy to misread. The model follows the code:

- `poll_type` is matched by prefix (`strncmp` with the length of each name), not by equality.
- `parse_escape` and `parse_unescape` are not inverse to each other. `parse_escape` leaves a space where the escaped letter was, and undoes one level of escaping where `parse_unescape` adds two. `EscapeDoesNotUndoUnescape` shows an input where the round trip fails.
- `lwqq_msg_send` does not fetch the group face credentials before writing them. It writes whatever the client holds, and a missing value prints as `(null)`.

## Model

| member | source | states |
|---|---|---|
| Decode.ResultGate | src/liblwqq/msg.c:194-220 | A response passes exactly when its `retcode` is the text "0" and it has a `result` member; what it yields is that member. |
| Decode.RecvmsgType | src/liblwqq/msg.c:222-238 | An event is a buddy message iff its `poll_type` starts with "message"; a group message iff it starts with "group_message"; a status change iff it starts with "buddies_status_change". Otherwise, or without a `poll_type`, it is unknown. |
| Messages.MsgNew | src/liblwqq/msg.c:81-109 | An unknown kind gives no message. Any other kind gives a message of that kind whose body is zero-filled. |
| TextEscape.ParseEscape | src/liblwqq/msg.c:239-264 | The buffer afterwards holds `Escape` of what it held before. |
| TextEscape.EscapeLength | src/liblwqq/msg.c:239-264 | The rewrite never changes the length of the text. |
| TextEscape.EscapePair | src/liblwqq/msg.c:244-261 | Text before the first backslash is kept. The backslash becomes the mapped character and the character after it becomes a space. The scan resumes after that pair, so a written backslash is never looked at again. |
| TextEscape.FindChar | src/liblwqq/msg.c:244 | `strchr` over the buffer: -1 when no character at or after the start is the one sought, otherwise the index of the first one. |
| TextEscape.EscapeTable | src/liblwqq/msg.c:246-259 | `\n` gives a newline, `\t` a tab, `\r` a space, and `\\` a backslash; each is followed by a space. Any other escaped character keeps its backslash. |
| TextEscape.EscapeTrailingBackslash | src/liblwqq/msg.c:244-261 | A backslash that ends the text is left as it is. |
| TextEscape.ParseUnescape | src/liblwqq/msg.c:742-764 | The output is `Unescape` of the source. |
| TextEscape.SpanPlain | src/liblwqq/msg.c:747 | `strcspn`: the run from the start up to the index holds no newline, tab or backslash, and the index is the end of the text or one of those characters. |
| TextEscape.UnescapeReadBack | src/liblwqq/msg.c:742-764 | Nothing is lost: reading the doubled escapes back gives the original text. |
| TextEscape.UnescapePlain | src/liblwqq/msg.c:746-752 | Text without a newline, a tab or a backslash is copied unchanged and in order. |
| TextEscape.UnescapeNoRawControl | src/liblwqq/msg.c:754-758 | The output holds no raw newline and no raw tab. |
| TextEscape.UnescapeAppend | src/liblwqq/msg.c:742-764 | The doubling works character by character: the output for a concatenation is the concatenation of the outputs. |
| TextEscape.EscapeDoesNotUndoUnescape | src/liblwqq/msg.c:239-264 | `parse_escape` applied to what `parse_unescape` makes of a newline gives a backslash, a space and `n`, not the newline. |
| Decode.FontOf | src/liblwqq/msg.c:281-318 | When a `font` element lacks a field, the defaults apply: name "Arial" (transcoded), colour "000000", size 12, style (0,0,0). |
| Decode.StyleOf | src/liblwqq/msg.c:299-318 | Without a `style` member the style is (0,0,0). |
| Decode.StyleOfWritten | src/liblwqq/msg.c:300-310 | A `style` holding three numbers in decimal reads back as exactly those numbers. |
| Decode.SplitServer | src/liblwqq/msg.c:343-345 | The server text is the address, a colon and the port, and the address holds no colon. |
| Decode.CFaceOf | src/liblwqq/msg.c:334-350 | With a `name`, the element takes `name`, `file_id` and `key`, and splits `server` at its first colon. Without one (the legacy form), the second item becomes the name and every other field stays unset. |
| Decode.OffPicOf | src/liblwqq/msg.c:327-333 | An `offpic` element gives an offline picture with the element's `file_path`. The stored file is unset and the size is 0 until a media fetch fills them in. |
| Decode.ElementPart | src/liblwqq/msg.c:276-358 | A `font` element gives no part. An array tagged `face`, `offpic` or `cface` gives a part of that kind and any other tag gives none. A string gives a text part, and any other node gives nothing. |
| Decode.FoldSplits | src/liblwqq/msg.c:273-359 | The loop appends exactly the parts of the elements, in element order, and ignores unknown tags. The last `font` element decides every font field, and nothing else changes. |
| Decode.StepSplits | src/liblwqq/msg.c:275-359 | One more element keeps the split form: the parts so far followed by that element's parts, and the font of the last `font` element so far or of this one. |
| Decode.DecodeContent | src/liblwqq/msg.c:265-370 | The result code is 0 or -1. On success a font is set, there is at least one part and the size is at least 10. Only the font fields and the parts change. |
| Decode.ContentElements | src/liblwqq/msg.c:270-275 | The event has content elements iff it has a `content` member. |
| Decode.ContentOutcome | src/liblwqq/msg.c:265-370 | On a fresh message, the decode succeeds iff there is a `content` array with a `font` element and at least one part. On success: the parts are the elements' parts in order, the font is the last `font` element's, and a size below 10 becomes 10 while a larger one is kept. |
| Decode.ParseContent | src/liblwqq/msg.c:265-370 | The loop over the content array returns the result code and message of `DecodeContent`. |
| Decode.ContentStep | src/liblwqq/msg.c:276-358 | One pass of the loop body dispatches on the element's tag and changes the message as `Step` says. |
| Decode.DecodeNewMsg | src/liblwqq/msg.c:383-413 | The decode succeeds iff `from_uin` and `to_uin` are present and the content decodes. The result carries the event's `from_uin`, `to_uin`, `send_uin`, `group_code` and `msg_id` (the last three may be absent), and its time is 0 when `time` is absent. |
| Decode.WithHeader | src/liblwqq/msg.c:388-402 | The header takes `from_uin`, `to_uin`, `msg_id`, `send_uin` and `group_code` as found. A missing `time` reads as 0. The font and the parts are left as they were. |
| Decode.HeaderTimeWritten | src/liblwqq/msg.c:393-395 | A `time` written in decimal reads back as that number. |
| Decode.ParseNewMsg | src/liblwqq/msg.c:383-413 | The code is 0 or -1; it is 0 exactly when `DecodeNewMsg` gives a message, and that message is returned. |
| Decode.ParseStatusChange | src/liblwqq/msg.c:424-442 | The decode succeeds iff `uin` and `status` are present. It carries both, and `client_type` defaults to 1. |
| Decode.DecodeElement | src/liblwqq/msg.c:641-661 | An unknown kind gives nothing. A decoded event has the kind its `poll_type` names and is well formed. |
| RecvQueue.BatchElements | src/liblwqq/msg.c:617-634 | A response that did not parse, whose `retcode` is not "0", or that has no `result` contributes no elements. |
| RecvQueue.DecodeBatch | src/liblwqq/msg.c:612-678 | Each of those gate failures adds nothing to the queue. |
| RecvQueue.DecodeAllAppend | src/liblwqq/msg.c:636-672 | The messages of two runs of elements are those of the first run followed by those of the second. |
| RecvQueue.QueueStep | src/liblwqq/msg.c:636-672 | Taking one more element adds that element's message at the end when it decodes, and nothing when it does not. |
| RecvQueue.MalformedElementDropped | src/liblwqq/msg.c:662-671 | An element that does not decode is dropped alone: the elements before and after it decode as if it were absent. |
| RecvQueue.DecodeAllSelection | src/liblwqq/msg.c:636-672 | The queued messages are one per element that decodes, in strictly increasing element order, and no decodable element is left out. |
| RecvQueue.ParseEvent | src/liblwqq/msg.c:641-661 | The loop body reports success exactly when the element decodes, and then returns its message. |
| RecvQueue.RecvMsgList.constructor | src/liblwqq/msg.c:44-55 | A new queue is bound to its client and empty. |
| RecvQueue.RecvMsgList.ParseRecvmsgFromJson | src/liblwqq/msg.c:612-678 | The queue afterwards is the old queue followed by the batch's decoded messages: earlier entries are untouched and appends are at the tail, in array order. |
| RecvQueue.RecvMsgList.QueueAll | src/liblwqq/msg.c:636-672 | The loop over the `result` array appends the decoded messages of all elements, in array order, after what the queue held. |
| RecvQueue.RecvMsgList.QueueOne | src/liblwqq/msg.c:641-671 | One element adds its message at the tail when it decodes, and leaves the queue as it was otherwise. |
| RecvQueue.RecvmsgFree | src/liblwqq/msg.c:62-79 | A null list is left alone. Otherwise every queued message is released in queue order and the queue ends empty. |
| Encode.PartToken | src/liblwqq/msg.c:778-800 | Every part token ends with a comma. A text token opens with an escaped quote; every other token opens with `[`. |
| Encode.Tokens | src/liblwqq/msg.c:777-801 | The part tokens are empty iff there are no parts; otherwise they end with a comma. |
| Encode.FontToken | src/liblwqq/msg.c:802-811 | The font token closes with `]`. |
| CText.AtoiFormatInt | src/liblwqq/msg.c:780-786 | A number the encoder writes in decimal (`%d`, `%ld`), `atoi` reads back unchanged. |
| Encode.EncodeContent | src/liblwqq/msg.c:769-813 | The content opens with `"[` and closes with `]]"`. |
| Encode.TokensAppend | src/liblwqq/msg.c:776-801 | The tokens of two part lists are the tokens of the first list followed by those of the second: one token per part, in list order. |
| Encode.PlainTextVerbatim | src/liblwqq/msg.c:794-799 | A text without newline, tab or backslash is sent as it is, between escaped quotes. |
| Encode.EncodeContentNoControl | src/liblwqq/msg.c:769-813 | No raw newline or tab reaches the request, unless a field copied verbatim (font name, colour, picture path or name) already held one. |
| Encode.ContentParseString | src/liblwqq/msg.c:769-813 | The buffer is `EncodeContent` of the message. The has-cface flag ends set iff it was set before or some part is a group custom face. |
| Encode.PartTokenOf | src/liblwqq/msg.c:777-800 | The token written for a part is `PartToken` of it, and the part sets the has-cface flag iff it is a group custom face. |
| Send.SendRequest | src/liblwqq/msg.c:981-1046 | Only a status change has no request. A buddy message posts to `http://d.web2.qq.com/channel/send_buddy_msg2`; a group message posts to `.../send_qun_msg2`. |
| Send.ApiName | src/liblwqq/msg.c:996-1002 | The endpoint is `send_buddy_msg2` iff the message is a buddy message, and `send_qun_msg2` iff it is a group message. |
| Send.ToName | src/liblwqq/msg.c:996-1002 | The recipient field is `to` iff the message is a buddy message, and `group_uin` iff it is a group message. |
| Send.BodyHead | src/liblwqq/msg.c:1005-1007 | The body opens with `r={"` and the recipient field ends with a comma. |
| Send.BodyCreds | src/liblwqq/msg.c:1008-1014 | The credentials are written iff the content has a group custom face, and they open with `"group_code":`. |
| Send.BodyTail | src/liblwqq/msg.c:1015-1022 | The rest of the body opens with `"face":0,` and ends with the client id and session id as form fields. |
| Send.MsgSend | src/liblwqq/msg.c:981-1046 | There is no request iff the message is missing or is not a buddy or group message. Otherwise the request is `SendRequest`'s. |
| Send.SendBodyHead | src/liblwqq/msg.c:1005-1007 | The body opens with `r={` and the recipient field of the kind: `"to"` for a buddy, `"group_uin"` for a group. This follows from the body's layout in `SendRequest`; the layout itself is `BodyHead`, `BodyCreds` and `BodyTail` as read against the source. |
| Send.SendBodyCreds | src/liblwqq/msg.c:1008-1014 | `group_code`, `key` and `sig` follow the recipient field iff the content has a group custom face. |
| Send.SendBodyContent | src/liblwqq/msg.c:1015-1021 | The `content` field carries the encoded content, right after the `face` field. This follows from the body's layout in `SendRequest`. |
| Send.SendBodySession | src/liblwqq/msg.c:1022 | The body ends with the client id and session id as form fields. This follows from the body's layout in `SendRequest`. |
| Send.SendBack | src/liblwqq/msg.c:1047-1070 | The result is 1 iff the HTTP code is 200, the body parses and it passes the result gate; otherwise it is 0. |
| Url.HostOfUrl | src/liblwqq/msg.c:443-456 | There is no host iff the URL has no "://". The host is the text right after the first "://"; it holds no `/`, and it ends the URL or is followed by `/`. |
| Url.GetHostOfUrl | src/liblwqq/msg.c:443-456 | Without "://", it reports failure and leaves the buffer alone. Otherwise the buffer becomes `AfterCopy`: the host over its first characters, and a terminator only when the URL has no path. |
| Url.Strcpy | src/liblwqq/msg.c:451-452 | `strcpy` writes the host and then a terminator; the rest of the buffer is unchanged. |
| Url.Strncpy | src/liblwqq/msg.c:453-454 | `strncpy` of exactly the host's length writes the host and no terminator; the rest of the buffer is unchanged. |
| Url.HostWithoutPath | src/liblwqq/msg.c:451-452 | Without a path, the buffer's string is the host. |
| Url.HostWithPathUnterminated | src/liblwqq/msg.c:453-454 | With a path, and no NUL already in the buffer right after the host, the buffer's string is not the host. |
| Url.HostCopyExample | src/liblwqq/msg.c:443-456 | "http://h/p" into a buffer holding "abc" leaves the string "hbc", though the host is "h". |
| Url.ExampleHost | src/liblwqq/msg.c:447-454 | In "http://h/p" the "://" is at 4, the host is "h" and a path follows it. |
| Url.AfterCopyTerminated | src/liblwqq/msg.c:443-456 | With a terminator after the host, the buffer's string is the host for every URL. |

## Left out

- **Network.** The poller thread (`start_poll_msg`, `lwqq_recvmsg_poll_msg`), the HTTP requests, headers and cookies, and the asynchronous send are not modelled. So are the media fetches (`request_msg_offpic`, `request_content_offpic`, `request_content_cface`, `request_content_cface2`), the uploads (`lwqq_msg_upload_offline_pic`, `lwqq_msg_upload_cface`) and `query_gface_sig`. A request is its URL and body, and a response is its HTTP code and parsed body.
- **Concurrency.** The queue's mutex is not modelled: the queue is a plain sequence with one writer.
- **Libraries.** The JSON tokenizer and `ucs4toutf8` are foreign code. `json_parse_document` is an `Option<Json>` input, and `ucs4toutf8` is the function parameter `ucs4ToUtf8`. The tree lookups follow the tokenizer's node shape, but the tokenizer's source is not part of this model.
- **Memory management and logging.** Freeing messages and parts, `lwqq_msg_free`, logging and `puts` are not modelled. `lwqq_msg_send_simple` is a synchronous wrapper and is not modelled either.
- **Integer widths.** Integers are unbounded: `int`, `long` and `time_t` overflow, and `atoi`'s undefined behaviour on overflow, are not modelled. `strtol`/`strtoll` in base 10 read like `atoi`.
- **Fixed buffers.** `content_parse_string`'s static 2048-byte buffer, `lwqq_msg_send`'s 1024-byte body and `snprintf` truncation are not modelled; strings are unbounded. The static buffer also makes `content_parse_string` non-reentrant, which the model does not capture.
- **Null dereferences in `parse_content`.** The source crashes on these inputs; the model gives them a defined result instead:
  - an array element without a first item, or whose tag has no text, is ignored;
  - a missing `style` item, a missing face number or a missing `success` reads as 0;
  - a custom face whose `server` is missing or has no colon gets an empty address and port.
- **Text of literal nodes.** The text the tokenizer gives `true`, `false` and `null` nodes is whatever the input `Json` holds; the model does not fix it.
- **Error codes.** `lwqq_msg_new`'s log message and `parse_recvmsg_from_json`'s `default` branch (unreachable because `lwqq_msg_new` refuses unknown kinds) are not modelled.
- **Dequeue.** The source has no dequeue. Consumers read the queue directly, so the model has only append and drain.
- **Round trip.** Decoding the encoded content would need the JSON tokenizer, which is not modelled, so `decode(encode(m)) == m` is not stated. The encoder's partners are instead the part-order, framing, flag and no-raw-control lemmas.
- TextEscape.ParseEscape / TextEscape.ParseUnescape: the text is a sequence of characters, not the UTF-8 bytes of a NUL-terminated buffer. The model does not capture escaping a multi-byte character: in C, the space written after the backslash overwrites only that character's first byte and leaves its other bytes behind. Nor does it capture an embedded NUL: the C loops stop there, while `Escape` and `Unescape` carry on over it.
- TextEscape.ParseEscape: a trailing lone backslash is kept as it is. The C loop would write a space over the string's terminator there; the model uses sequence semantics instead.
- TextEscape.ParseUnescape: the model writes the intended mapping. The source's `strncpy` followed by `strcat` leaves no terminator in between, so the C output depends on what the buffer held before.
- Decode.FontOf: the style values go through `atoi` semantics rather than `strtol`'s. The two agree on base-10 text.
- Send.MsgSend: the model returns the request instead of issuing it. The returned handle and the later callback become `SendBack`.

## Findings

| source | as written | input that shows it | evidently intended | confidence | as-written member | corrected member |
|---|---|---|---|---|---|---|
| src/liblwqq/msg.c:453-454 | When the URL has a path, the host is copied with `strncpy` of exactly its length, which writes no terminator. The buffer's string then runs on into what the buffer held before. | "http://h/p" into a buffer holding "abc" leaves "hbc" | A NUL after the host in both cases, so that the buffer's string is the host | not executed | Url.HostCopyExample | Url.AfterCopyTerminated |
