/** The receive side: `parse_recvmsg_from_json` over one poll response and the
    receive queue `LwqqRecvMsgList` it appends to. The mutex around the queue
    and the poller thread that feeds it are not part of this model. */
module RecvQueue {
  import opened Seqs
  import opened Optional
  import opened Json
  import opened Messages
  import opened Decode

  /** The elements of `result` of a response, or none at all when the response
      did not parse, its `retcode` is not "0" or it has no `result`. */
  function BatchElements(doc: Option<Json>): (es: seq<Json>)
    ensures doc.None? ==> es == []
    ensures doc.Some? && SimpleValue(doc.value, "retcode") != Some("0") ==> es == []
    ensures doc.Some? && !HasLabel(doc.value, "result") ==> es == []
  {
    if doc.None? then []
    else match ResultGate(doc.value)
      case None => []
      case Some(result) => LabelValue(result).children
  }

  /** `f` applied to each of `xs` in order, keeping the values it gives. */
  function FilterMap<T, U>(f: T -> Option<U>, xs: seq<T>): seq<U> {
    if xs == [] then []
    else (match f(xs[0]) case Some(y) => [y] case None => []) + FilterMap(f, xs[1..])
  }

  lemma {:induction false} FilterMapAppend<T, U>(f: T -> Option<U>, a: seq<T>, b: seq<T>)
    ensures FilterMap(f, a + b) == FilterMap(f, a) + FilterMap(f, b)
  {
    if a == [] {
      assert a + b == b;
    } else {
      assert (a + b)[0] == a[0] && (a + b)[1..] == a[1..] + b;
      FilterMapAppend(f, a[1..], b);
    }
  }

  /** Appending one element appends what `f` gives for it. */
  lemma FilterMapSnoc<T, U>(f: T -> Option<U>, xs: seq<T>, x: T)
    ensures FilterMap(f, xs + [x]) == FilterMap(f, xs) + (match f(x) case Some(y) => [y] case None => [])
  {
    FilterMapAppend(f, xs, [x]);
    assert [x][1..] == [];
  }

  /** An element `f` gives nothing for can be cut out. */
  lemma FilterMapDrop<T, U>(f: T -> Option<U>, xs: seq<T>, i: nat)
    requires i < |xs| && f(xs[i]).None?
    ensures FilterMap(f, xs) == FilterMap(f, xs[..i]) + FilterMap(f, xs[i + 1..])
  {
    SplitAround(xs, i);
    FilterMapAppend(f, xs[..i], [xs[i]] + xs[i + 1..]);
    FilterMapCons(f, xs[i], xs[i + 1..]);
  }

  lemma FilterMapCons<T, U>(f: T -> Option<U>, x: T, rest: seq<T>)
    ensures FilterMap(f, [x] + rest) == (match f(x) case Some(y) => [y] case None => []) + FilterMap(f, rest)
  {
    assert ([x] + rest)[1..] == rest;
  }

  /** `idx` picks, position by position, elements of `xs` that `f` maps to
      the values `ys`. */
  ghost predicate SelectsValues<T, U>(f: T -> Option<U>, xs: seq<T>, ys: seq<U>, idx: seq<nat>) {
    && |idx| == |ys|
    && forall k :: 0 <= k < |idx| ==> idx[k] < |xs| && f(xs[idx[k]]) == Some(ys[k])
  }

  ghost predicate Increasing(idx: seq<nat>) {
    forall k, l :: 0 <= k < l < |idx| ==> idx[k] < idx[l]
  }

  /** Every element of `xs` that `f` maps to a value is picked. */
  ghost predicate Covers<T, U>(f: T -> Option<U>, xs: seq<T>, idx: seq<nat>) {
    forall i :: 0 <= i < |xs| && f(xs[i]).Some? ==> i in idx
  }

  /** An ordered selection of the elements of `xs` that `f` maps to a value. */
  ghost predicate IsSelection<T, U>(f: T -> Option<U>, xs: seq<T>, ys: seq<U>, idx: seq<nat>) {
    SelectsValues(f, xs, ys, idx) && Increasing(idx) && Covers(f, xs, idx)
  }

  /** Indices into `xs[1..]` as indices into `xs`. */
  function Shift(rest: seq<nat>): (r: seq<nat>)
    ensures |r| == |rest| && forall k :: 0 <= k < |rest| ==> r[k] == rest[k] + 1
  {
    seq(|rest|, k requires 0 <= k < |rest| => rest[k] + 1)
  }

  lemma ShiftValues<T, U>(f: T -> Option<U>, xs: seq<T>, ys: seq<U>, rest: seq<nat>)
    requires |xs| > 0 && SelectsValues(f, xs[1..], ys, rest)
    ensures SelectsValues(f, xs, ys, Shift(rest))
  {
    var sh := Shift(rest);
    forall k | 0 <= k < |sh| ensures sh[k] < |xs| && f(xs[sh[k]]) == Some(ys[k]) {
      assert xs[1..][rest[k]] == xs[sh[k]];
    }
  }

  lemma ConsValues<T, U>(f: T -> Option<U>, xs: seq<T>, y: U, ys: seq<U>, sh: seq<nat>)
    requires |xs| > 0 && f(xs[0]) == Some(y) && SelectsValues(f, xs, ys, sh)
    ensures SelectsValues(f, xs, [y] + ys, [0] + sh)
  {
    var idx := [0] + sh;
    forall k | 0 <= k < |idx| ensures idx[k] < |xs| && f(xs[idx[k]]) == Some(([y] + ys)[k]) {
      if k > 0 {
        assert idx[k] == sh[k - 1] && ([y] + ys)[k] == ys[k - 1];
      }
    }
  }

  lemma ShiftIncreasing(rest: seq<nat>)
    requires Increasing(rest)
    ensures Increasing(Shift(rest)) && Increasing([0] + Shift(rest))
  {
    var sh := Shift(rest);
    var idx := [0] + sh;
    forall k, l | 0 <= k < l < |idx| ensures idx[k] < idx[l] {
      assert idx[l] == sh[l - 1];
      if k > 0 {
        assert idx[k] == sh[k - 1];
      }
    }
    forall k, l | 0 <= k < l < |sh| ensures sh[k] < sh[l] {
      assert idx[k + 1] == sh[k] && idx[l + 1] == sh[l];
    }
  }

  lemma ShiftCovers<T, U>(f: T -> Option<U>, xs: seq<T>, rest: seq<nat>)
    requires |xs| > 0 && Covers(f, xs[1..], rest)
    ensures forall i :: 1 <= i < |xs| && f(xs[i]).Some? ==> i in Shift(rest)
  {
    var sh := Shift(rest);
    forall i | 1 <= i < |xs| && f(xs[i]).Some? ensures i in sh {
      assert xs[1..][i - 1] == xs[i];
      var k :| 0 <= k < |rest| && rest[k] == i - 1;
      assert sh[k] == i;
    }
  }

  /** A selection of `xs[1..]`, shifted by one, is a selection of `xs` when
      `f` gives nothing for `xs[0]`. */
  lemma SelectionSkip<T, U>(f: T -> Option<U>, xs: seq<T>, ys: seq<U>, rest: seq<nat>)
    requires |xs| > 0 && f(xs[0]).None? && IsSelection(f, xs[1..], ys, rest)
    ensures IsSelection(f, xs, ys, Shift(rest))
  {
    ShiftValues(f, xs, ys, rest);
    ShiftIncreasing(rest);
    ShiftCovers(f, xs, rest);
  }

  /** A selection of `xs[1..]`, shifted by one and headed by 0, is a selection
      of `xs` when `f` gives `y` for `xs[0]`. */
  lemma SelectionTake<T, U>(f: T -> Option<U>, xs: seq<T>, y: U, ys: seq<U>, rest: seq<nat>)
    requires |xs| > 0 && f(xs[0]) == Some(y) && IsSelection(f, xs[1..], ys, rest)
    ensures IsSelection(f, xs, [y] + ys, [0] + Shift(rest))
  {
    var sh := Shift(rest);
    ShiftValues(f, xs, ys, rest);
    ConsValues(f, xs, y, ys, sh);
    ShiftIncreasing(rest);
    ShiftCovers(f, xs, rest);
    forall i | 0 <= i < |xs| && f(xs[i]).Some? ensures i in [0] + sh {
      if i > 0 {
        assert i in sh;
      }
    }
  }

  lemma {:induction false} FilterMapSelection<T, U>(f: T -> Option<U>, xs: seq<T>) returns (idx: seq<nat>)
    ensures IsSelection(f, xs, FilterMap(f, xs), idx)
  {
    if xs == [] {
      idx := [];
    } else {
      var rest := FilterMapSelection(f, xs[1..]);
      var shifted := Shift(rest);
      var tail := FilterMap(f, xs[1..]);
      match f(xs[0])
      case Some(y) =>
        SelectionTake(f, xs, y, tail, rest);
        idx := [0] + shifted;
        assert FilterMap(f, xs) == [y] + tail;
      case None =>
        SelectionSkip(f, xs, tail, rest);
        idx := shifted;
        assert FilterMap(f, xs) == [] + tail;
    }
  }

  /** The messages decoded from `es`, element by element, in order; an element
      that does not decode is skipped. */
  function DecodeAll(es: seq<Json>, ucs4ToUtf8: string -> string): seq<Msg> {
    FilterMap(e => DecodeElement(e, ucs4ToUtf8), es)
  }

  /** The messages one poll response adds to the queue. */
  function DecodeBatch(doc: Option<Json>, ucs4ToUtf8: string -> string): (r: seq<Msg>)
    ensures doc.None? ==> r == []
    ensures doc.Some? && SimpleValue(doc.value, "retcode") != Some("0") ==> r == []
    ensures doc.Some? && !HasLabel(doc.value, "result") ==> r == []
  {
    DecodeAll(BatchElements(doc), ucs4ToUtf8)
  }

  /** Decoding splits over the elements: what one element gives never depends
      on its neighbours. */
  lemma DecodeAllAppend(a: seq<Json>, b: seq<Json>, ucs4ToUtf8: string -> string)
    ensures DecodeAll(a + b, ucs4ToUtf8) == DecodeAll(a, ucs4ToUtf8) + DecodeAll(b, ucs4ToUtf8)
  {
    FilterMapAppend(e => DecodeElement(e, ucs4ToUtf8), a, b);
  }

  /** Decoding one more element appends its message, if it has one. */
  lemma DecodeAllSnoc(es: seq<Json>, e: Json, ucs4ToUtf8: string -> string)
    ensures DecodeAll(es + [e], ucs4ToUtf8) ==
      DecodeAll(es, ucs4ToUtf8) + (match DecodeElement(e, ucs4ToUtf8) case Some(m) => [m] case None => [])
  {
    FilterMapSnoc(e => DecodeElement(e, ucs4ToUtf8), es, e);
  }

  /** The loop step of `parse_recvmsg_from_json`: the element at `i` adds its
      message, if it has one, and nothing else. */
  lemma QueueStep(es: seq<Json>, i: nat, ucs4ToUtf8: string -> string)
    requires i < |es|
    ensures DecodeAll(es[..i + 1], ucs4ToUtf8) ==
      DecodeAll(es[..i], ucs4ToUtf8) + (match DecodeElement(es[i], ucs4ToUtf8) case Some(m) => [m] case None => [])
  {
    TakeSnoc(es, i);
    DecodeAllSnoc(es[..i], es[i], ucs4ToUtf8);
  }

  /** A malformed element is dropped alone: the elements before and after it
      are decoded as if it were not there. */
  lemma MalformedElementDropped(es: seq<Json>, i: nat, ucs4ToUtf8: string -> string)
    requires i < |es| && DecodeElement(es[i], ucs4ToUtf8).None?
    ensures DecodeAll(es, ucs4ToUtf8) == DecodeAll(es[..i], ucs4ToUtf8) + DecodeAll(es[i + 1..], ucs4ToUtf8)
  {
    var f := e => DecodeElement(e, ucs4ToUtf8);
    assert f(es[i]).None?;
    FilterMapDrop(f, es, i);
  }

  /** The decoded messages are exactly the messages of the elements that
      decode, one each, in array order: `idx` lists those elements, strictly
      increasing, and leaves none of them out. */
  lemma DecodeAllSelection(es: seq<Json>, ucs4ToUtf8: string -> string) returns (idx: seq<nat>)
    ensures |idx| == |DecodeAll(es, ucs4ToUtf8)|
    ensures forall k :: 0 <= k < |idx| ==>
      idx[k] < |es| && DecodeElement(es[idx[k]], ucs4ToUtf8) == Some(DecodeAll(es, ucs4ToUtf8)[k])
    ensures forall k, l :: 0 <= k < l < |idx| ==> idx[k] < idx[l]
    ensures forall i :: 0 <= i < |es| && DecodeElement(es[i], ucs4ToUtf8).Some? ==> i in idx
  {
    var f := e => DecodeElement(e, ucs4ToUtf8);
    idx := FilterMapSelection(f, es);
    assert forall k :: 0 <= k < |idx| ==> f(es[idx[k]]) == DecodeElement(es[idx[k]], ucs4ToUtf8);
  }

  /** One element of `result`, as the loop of `parse_recvmsg_from_json`
      handles it: a fresh message of the element's kind, filled in by the
      decoder of that kind; `ret` is 0 when the message is to be queued. */
  method ParseEvent(cur: Json, ucs4ToUtf8: string -> string) returns (ret: int, decoded: Msg)
    ensures ret == 0 <==> DecodeElement(cur, ucs4ToUtf8).Some?
    ensures ret == 0 ==> DecodeElement(cur, ucs4ToUtf8) == Some(decoded)
  {
    ret := -1;
    var msg := MsgNew(RecvmsgType(cur));
    if msg.None? {
      return ret, Status(EmptyStatusChange);
    }
    decoded := msg.value;
    match msg.value {
      case Buddy(m) =>
        var rc, d := ParseNewMsg(cur, m, ucs4ToUtf8);
        ret, decoded := rc, Buddy(d);
      case Group(m) =>
        var rc, d := ParseNewMsg(cur, m, ucs4ToUtf8);
        ret, decoded := rc, Group(d);
      case Status(s) =>
        var d := ParseStatusChange(cur, s);
        if d.Some? {
          ret, decoded := 0, Status(d.value);
        }
    }
  }

  /** `LwqqRecvMsgList`: the queue of received messages, oldest first. */
  class RecvMsgList {
    const lc: Client
    var msgs: seq<Msg>

    /** `lwqq_recvmsg_new`: an empty queue bound to a client. */
    constructor (client: Client)
      ensures lc == client && msgs == []
    {
      lc := client;
      msgs := [];
    }

    /** `parse_recvmsg_from_json`: decodes one poll response (`None` when the
        body did not parse) and appends what decodes at the tail, in order;
        the messages already queued stay as they are. */
    method ParseRecvmsgFromJson(doc: Option<Json>, ucs4ToUtf8: string -> string)
      modifies this
      ensures msgs == old(msgs) + DecodeBatch(doc, ucs4ToUtf8)
    {
      if doc.None? {
        return;
      }
      var result := ResultGate(doc.value);
      if result.None? {
        return;
      }
      var es := LabelValue(result.value).children;
      assert es == BatchElements(doc);
      if es == [] {
        return;
      }
      QueueAll(es, ucs4ToUtf8);
    }

    /** The loop of `parse_recvmsg_from_json` over the elements of `result`:
        each element that decodes is appended at the tail, in order. */
    method QueueAll(es: seq<Json>, ucs4ToUtf8: string -> string)
      modifies this
      ensures msgs == old(msgs) + DecodeAll(es, ucs4ToUtf8)
    {
      var i := 0;
      while i < |es|
        invariant 0 <= i <= |es|
        invariant msgs == old(msgs) + DecodeAll(es[..i], ucs4ToUtf8)
      {
        QueueStep(es, i, ucs4ToUtf8);
        ghost var before := msgs;
        QueueOne(es[i], ucs4ToUtf8);
        Assoc(old(msgs), DecodeAll(es[..i], ucs4ToUtf8), msgs[|before|..]);
        i := i + 1;
      }
      assert es[..i] == es;
    }

    /** One pass of that loop: the element is decoded and, when the decoder
        reports success, its message is appended. */
    method QueueOne(cur: Json, ucs4ToUtf8: string -> string)
      modifies this
      ensures msgs == old(msgs) + (match DecodeElement(cur, ucs4ToUtf8) case Some(m) => [m] case None => [])
    {
      var ret, decoded := ParseEvent(cur, ucs4ToUtf8);
      if ret == 0 {
        msgs := msgs + [decoded];
      }
    }
  }

  /** `lwqq_recvmsg_free`: drains the queue from the head; `freed` lists the
      messages released, in queue order. */
  method RecvmsgFree(list: RecvMsgList?) returns (freed: seq<Msg>)
    modifies list
    ensures list == null ==> freed == []
    ensures list != null ==> freed == old(list.msgs) && list.msgs == []
  {
    freed := [];
    if list == null {
      return;
    }
    while list.msgs != []
      invariant freed + list.msgs == old(list.msgs)
      decreases |list.msgs|
    {
      var first := list.msgs[0];
      list.msgs := list.msgs[1..];
      freed := freed + [first];
    }
  }
}
