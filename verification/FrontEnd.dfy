/** The parser front end: from parser events to calls on the tree builder, and what parsing a document yields. */
module FrontEnd {
  import opened Basics
  import opened Sorting
  import opened Elements
  import opened Namespaces
  import opened Serializer
  import opened Reader
  import opened Scoping
  import opened RoundTrip

  // ---------------------------------------------------------------------------
  // Handlers
  // ---------------------------------------------------------------------------

  /** _fixname: a delivered name gets its opening brace back. */
  function FixName(key: string): string {
    if '}' in key then "{" + key else key
  }

  /** The dictionary filled from a list of names and values. */
  function AttribMap(attribs: seq<(string, string)>): map<string, string> {
    if attribs == [] then map[]
    else
      var n := |attribs| - 1;
      AttribMap(attribs[..n])[FixName(attribs[n].0) := attribs[n].1]
  }

  /** The calls that one event makes on the builder; a comment becomes an element of its own. */
  function EventCalls(e: Event): seq<Call> {
    match e
    case StartEvent(name, attribs) => [Start(Name(FixName(name)), AttribMap(attribs))]
    case EndEvent(name) => [End(Name(FixName(name)))]
    case DataEvent(text) => [Data(text)]
    case CommentEvent(text) => [Start(Comment, map[]), Data(text), End(Comment)]
  }

  function AllCalls(es: seq<Event>): seq<Call> {
    if es == [] then [] else EventCalls(es[0]) + AllCalls(es[1..])
  }

  lemma {:induction false} AllCallsAppend(a: seq<Event>, b: seq<Event>)
    ensures AllCalls(a + b) == AllCalls(a) + AllCalls(b)
  {
    if a == [] {
      assert a + b == b;
    } else {
      assert (a + b)[1..] == a[1..] + b;
      AllCallsAppend(a[1..], b);
      Assoc(EventCalls(a[0]), AllCalls(a[1..]), AllCalls(b));
    }
  }

  lemma AllCallsOne(e: Event)
    ensures AllCalls([e]) == EventCalls(e)
  {
    assert [e][1..] == [];
  }

  // ---------------------------------------------------------------------------
  // The calls for the events of a tree
  // ---------------------------------------------------------------------------

  function NormalText(text: Option<string>): Option<string> {
    if TextOf(text) == [] then None else text
  }

  /** The tree with empty text and no text identified; a comment keeps its text. */
  function Normal(t: Node): Node
    decreases t, 1
  {
    Node(t.tag, t.attrib, if t.tag.Comment? then t.text else NormalText(t.text),
         NormalAll(t.children), NormalText(t.tail))
  }

  function NormalAll(ts: seq<Node>): seq<Node>
    decreases ts, 0
  {
    if ts == [] then [] else [Normal(ts[0])] + NormalAll(ts[1..])
  }

  lemma FixDelivered(q: string)
    requires NameLegal(q)
    ensures FixName(Delivered(q)) == q
  {
    if IsQualified(q) {
      NameUriLegal(q);
      assert q == "{" + q[1..];
      assert '}' in Delivered(q);
    } else {
      assert '}' !in q;
    }
  }

  lemma {:induction false} AttribMapOf(attribs: seq<(string, string)>, items: seq<(string, string)>)
    requires |attribs| == |items| && DistinctNames(items)
    requires forall i :: 0 <= i < |items| ==> FixName(attribs[i].0) == items[i].0 && attribs[i].1 == items[i].1
    ensures forall i :: 0 <= i < |items| ==>
      items[i].0 in AttribMap(attribs) && AttribMap(attribs)[items[i].0] == items[i].1
    ensures forall k <- AttribMap(attribs) :: exists i :: 0 <= i < |items| && items[i].0 == k
  {
    if attribs != [] {
      var n := |attribs| - 1;
      AttribMapOf(attribs[..n], items[..n]);
      forall k <- AttribMap(attribs)
        ensures exists i :: 0 <= i < |items| && items[i].0 == k
      {
        if k in AttribMap(attribs[..n]) {
          var i :| 0 <= i < |items[..n]| && items[..n][i].0 == k;
          assert items[i].0 == k;
        } else {
          assert items[n].0 == k;
        }
      }
      forall i | 0 <= i < |items|
        ensures items[i].0 in AttribMap(attribs) && AttribMap(attribs)[items[i].0] == items[i].1
      {
        if i < n {
          assert items[..n][i] == items[i];
        }
      }
    }
  }

  lemma SameMap(attrib: map<string, string>, other: map<string, string>, items: seq<(string, string)>)
    requires forall i :: 0 <= i < |items| ==> items[i].0 in attrib && attrib[items[i].0] == items[i].1
    requires forall k <- attrib :: (k, attrib[k]) in items
    requires forall i :: 0 <= i < |items| ==> items[i].0 in other && other[items[i].0] == items[i].1
    requires forall k <- other :: exists i :: 0 <= i < |items| && items[i].0 == k
    ensures other == attrib
  {
    forall k <- attrib
      ensures k in other && other[k] == attrib[k]
    {
      var i :| 0 <= i < |items| && items[i] == (k, attrib[k]);
      assert items[i].0 in other;
    }
  }

  /** The delivered attributes fill a dictionary equal to the one they came from. */
  lemma DeliveredFill(attrib: map<string, string>)
    requires AttribLegal(attrib)
    ensures AttribMap(DeliveredAttribs(attrib)) == attrib
  {
    var items := Sorted(Items(attrib));
    AttribItems(attrib);
    hide Sorted;
    hide Items;
    hide AttribMap;
    var delivered := DeliveredAttribs(attrib);
    forall i | 0 <= i < |items|
      ensures FixName(delivered[i].0) == items[i].0 && delivered[i].1 == items[i].1
    {
      FixDelivered(items[i].0);
    }
    assert |delivered| == |items|;
    hide *;
    AttribMapOf(delivered, items);
    SameMap(attrib, AttribMap(delivered), items);
  }

  lemma DataCalls(text: Option<string>)
    ensures AllCalls(DataEvents(text)) == TextCalls(NormalText(text))
  {
    if TextOf(text) != [] {
      AllCallsOne(DataEvent(text.value));
    }
  }

  lemma {:induction false} TreeCalls(t: Node, enc: Escaping.Encoding)
    requires TreeLegal(t, enc)
    ensures AllCalls(ParserEvents(t)) == Calls(Normal(t)) + TextCalls(NormalText(t.tail))
    decreases t, 1
  {
    DataCalls(t.tail);
    match t.tag
    case Comment =>
      AllCallsAppend([CommentEvent(TextOf(t.text))], DataEvents(t.tail));
      AllCallsOne(CommentEvent(TextOf(t.text)));
      assert NormalAll(t.children) == [];
      assert Calls(Normal(t)) == [Start(Comment, map[]), Data(t.text.value), End(Comment)];
    case Name(name) =>
      OwnAttribLegal(t, enc);
      FixDelivered(name);
      DeliveredFill(t.attrib);
      DataCalls(t.text);
      TreesCalls(t.children, enc);
      hide OwnLegal;
      hide AttribLegal;
      hide NameLegal;
      hide FixName;
      hide AttribMap;
      hide DeliveredAttribs;
      hide Delivered;
      hide TextCalls;
      hide DataEvents;
      var start, end := StartEvent(Delivered(name), DeliveredAttribs(t.attrib)), EndEvent(Delivered(name));
      AllCallsOne(start);
      AllCallsOne(end);
      var inner := ParserEventsAll(t.children);
      AllCallsAppend([start] + DataEvents(t.text) + inner + [end], DataEvents(t.tail));
      AllCallsAppend([start] + DataEvents(t.text) + inner, [end]);
      AllCallsAppend([start] + DataEvents(t.text), inner);
      AllCallsAppend([start], DataEvents(t.text));
  }

  lemma {:induction false} TreesCalls(ts: seq<Node>, enc: Escaping.Encoding)
    requires TreesLegal(ts, enc)
    ensures AllCalls(ParserEventsAll(ts)) == CallsAll(NormalAll(ts))
    decreases ts, 0
  {
    if ts != [] {
      TreeCalls(ts[0], enc);
      TreesCalls(ts[1..], enc);
      hide TreeLegal;
      AllCallsAppend(ParserEvents(ts[0]), ParserEventsAll(ts[1..]));
      assert NormalAll(ts)[1..] == NormalAll(ts[1..]);
    }
  }
}
