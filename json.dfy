/** The parsed JSON document as the tokenizer the message code links against
    hands it over: every node has a type, an optional text and an ordered list
    of children. Array elements are the children of an array node; an object
    member is a string node (its label) whose single child is the member's
    value, and the labels are the children of the object node. The tokenizer
    itself, `json_parse_document`, is not part of this model: a document that
    failed to parse is `None` where it is an input. */
module Json {
  import opened Optional

  datatype JsonType = JString | JNumber | JObject | JArray | JTrue | JFalse | JNull

  datatype Json = Json(kind: JsonType, text: Option<string>, children: seq<Json>)

  /** `j` is an object member labelled `key`. */
  predicate IsLabel(j: Json, key: string) {
    j.kind == JString && j.text == Some(key) && |j.children| > 0
  }

  /** `key` labels some member anywhere in `j`. */
  predicate HasLabel(j: Json, key: string)
    decreases j, 1
  {
    IsLabel(j, key) || HasLabelIn(j.children, key)
  }

  predicate HasLabelIn(cs: seq<Json>, key: string)
    decreases cs, 0
  {
    cs != [] && (HasLabel(cs[0], key) || HasLabelIn(cs[1..], key))
  }

  /** `json_find_first_label_all`: the first member labelled `key` met in a
      depth-first, pre-order walk of `j` (a node before its children, children
      in order). */
  function FindLabel(j: Json, key: string): (r: Option<Json>)
    ensures r.Some? ==> IsLabel(r.value, key)
    ensures r.Some? <==> HasLabel(j, key)
    decreases j, 1
  {
    if IsLabel(j, key) then Some(j) else FindLabelIn(j.children, key)
  }

  function FindLabelIn(cs: seq<Json>, key: string): (r: Option<Json>)
    ensures r.Some? ==> IsLabel(r.value, key)
    ensures r.Some? <==> HasLabelIn(cs, key)
    decreases cs, 0
  {
    if cs == [] then None
    else match FindLabel(cs[0], key)
      case Some(l) => Some(l)
      case None => FindLabelIn(cs[1..], key)
  }

  /** The value of the member a label node stands for. */
  function LabelValue(l: Json): Json
    requires |l.children| > 0
  {
    l.children[0]
  }

  /** `json_parse_simple_value`: the text of the value of the first member
      labelled `key`; absent when there is no such member or when its value has
      no text (an array or an object). */
  function SimpleValue(j: Json, key: string): (r: Option<string>)
    ensures r.Some? ==> HasLabel(j, key)
  {
    match FindLabel(j, key)
    case Some(l) => LabelValue(l).text
    case None => None
  }

  /** The text of the `i`-th child of `j` (`j->child->next...->text`), if there
      is such a child and it has a text. */
  function ItemText(j: Json, i: nat): Option<string> {
    if i < |j.children| then j.children[i].text else None
  }
}
