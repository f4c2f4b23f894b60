/** Element trees as values: what the text of an element tree says, without object identity. */
module Elements {
  import opened Basics

  /** A tag is a name, "{uri}local" or "local", or the Comment marker. */
  datatype Tag = Name(name: string) | Comment

  /** One element with everything below it. */
  datatype Node = Node(
    tag: Tag,
    attrib: map<string, string>,
    text: Option<string>,
    children: seq<Node>,
    tail: Option<string>)

  /** The elements of a tree in document order, the element itself first. */
  function Iter(t: Node): seq<Node>
    decreases t, 1
  {
    [t] + IterAll(t.children)
  }

  function IterAll(ts: seq<Node>): seq<Node>
    decreases ts, 0
  {
    if ts == [] then [] else Iter(ts[0]) + IterAll(ts[1..])
  }

  /** The calls a parser makes on a tree builder. */
  datatype Call =
    | Start(tag: Tag, attrib: map<string, string>)
    | Data(text: string)
    | End(tag: Tag)

  function TextCalls(text: Option<string>): seq<Call> {
    if text.None? then [] else [Data(text.value)]
  }

  /** The document-order calls for one element, its tail left out. */
  function Calls(t: Node): seq<Call>
    decreases t, 1
  {
    [Start(t.tag, t.attrib)] + TextCalls(t.text) + CallsAll(t.children) + [End(t.tag)]
  }

  /** The calls for a run of siblings, each followed by its tail. */
  function CallsAll(ts: seq<Node>): seq<Call>
    decreases ts, 0
  {
    if ts == [] then [] else Calls(ts[0]) + TextCalls(ts[0].tail) + CallsAll(ts[1..])
  }
}
