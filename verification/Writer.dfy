/** Writing a document: the pass that collects names, and NoisyElementTree.write. */
module Writer {
  import opened Basics
  import opened Escaping
  import opened Elements
  import opened Namespaces
  import opened Serializer

  // ---------------------------------------------------------------------------
  // The pass over the tree that fills the table of names
  // ---------------------------------------------------------------------------

  function TagName(n: Node): seq<string> {
    if n.tag.Name? then [n.tag.name] else []
  }

  /** ks lists the elements of s, each once, in some order. */
  ghost predicate Enumerates(ks: seq<string>, s: set<string>) {
    NoDuplicates(ks) && |ks| == |s| && forall k :: k in ks <==> k in s
  }

  /** The names met at one element: its tag and then the keys of its attributes, which a dictionary yields
      in any order. */
  ghost predicate VisitsNode(n: Node, names: seq<string>) {
    && |TagName(n)| <= |names|
    && names[..|TagName(n)|] == TagName(n)
    && Enumerates(names[|TagName(n)|..], n.attrib.Keys)
  }

  /** The names met at each of some elements. */
  ghost predicate Visits(nodes: seq<Node>, names: seq<seq<string>>) {
    |names| == |nodes| && forall i :: 0 <= i < |nodes| ==> VisitsNode(nodes[i], names[i])
  }

  lemma NodeMeetsItsOwn(n: Node, names: seq<string>, q: string)
    requires VisitsNode(n, names)
    ensures q in names <==> n.tag == Name(q) || q in n.attrib
  {
    assert names == names[..|TagName(n)|] + names[|TagName(n)|..];
  }

  /** The names met are exactly the tags and the attribute keys of the elements. */
  lemma VisitMeetsAll(nodes: seq<Node>, names: seq<seq<string>>, q: string)
    requires Visits(nodes, names)
    ensures q in Flatten(names) <==> exists n <- nodes :: n.tag == Name(q) || q in n.attrib
  {
    FlattenHas(names, q);
    forall i | 0 <= i < |nodes|
      ensures q in names[i] <==> nodes[i].tag == Name(q) || q in nodes[i].attrib
    {
      NodeMeetsItsOwn(nodes[i], names[i], q);
    }
  }

  /** One round of the loop: a name that is not in the table yet is added. */
  function Meet(r: Result<Table, WriteError>, q: string, reg: map<string, string>, enc: Encoding)
      : Result<Table, WriteError>
  {
    if r.Failure? || q in r.value.qnames then r else AddName(r.value, q, reg, enc)
  }

  lemma {:induction false} MeetOneMore(t: Table, names: seq<string>, q: string, reg: map<string, string>, enc: Encoding)
    ensures AddNames(t, names + [q], reg, enc) == Meet(AddNames(t, names, reg, enc), q, reg, enc)
    decreases names
  {
    if names == [] {
      assert ([] + [q])[1..] == [];
    } else {
      assert (names + [q])[1..] == names[1..] + [q];
      var t1 := if names[0] in t.qnames then Success(t) else AddName(t, names[0], reg, enc);
      if t1.Success? {
        MeetOneMore(t1.value, names[1..], q, reg, enc);
      }
    }
  }

  /** The attribute keys of one element are added. */
  method MeetKeys(n: Node, t: Result<Table, WriteError>, reg: map<string, string>, enc: Encoding,
                  ghost before: seq<string>)
      returns (r: Result<Table, WriteError>, ghost ks: seq<string>)
    requires t == AddNames(EMPTY_TABLE, before, reg, enc)
    ensures Enumerates(ks, n.attrib.Keys)
    ensures r == AddNames(EMPTY_TABLE, before + ks, reg, enc)
  {
    hide AddNames;
    hide Meet;
    r, ks := t, [];
    assert before + ks == before;
    var keys := n.attrib.Keys;
    while keys != {}
      invariant keys <= n.attrib.Keys
      invariant Enumerates(ks, n.attrib.Keys - keys)
      invariant r == AddNames(EMPTY_TABLE, before + ks, reg, enc)
      decreases keys
    {
      var k :| k in keys;
      MeetOneMore(EMPTY_TABLE, before + ks, k, reg, enc);
      Assoc(before, ks, [k]);
      r := Meet(r, k, reg, enc);
      EnumeratesOneMore(ks, n.attrib.Keys - keys, k);
      ks := ks + [k];
      assert n.attrib.Keys - (keys - {k}) == (n.attrib.Keys - keys) + {k};
      keys := keys - {k};
    }
    assert n.attrib.Keys - {} == n.attrib.Keys;
  }

  /** The names met at one element are added. */
  method MeetNode(n: Node, t: Result<Table, WriteError>, reg: map<string, string>, enc: Encoding,
                  ghost before: seq<string>)
      returns (r: Result<Table, WriteError>, ghost names: seq<string>)
    requires t == AddNames(EMPTY_TABLE, before, reg, enc)
    ensures VisitsNode(n, names)
    ensures r == AddNames(EMPTY_TABLE, before + names, reg, enc)
  {
    hide AddNames;
    hide Meet;
    ghost var ks;
    if n.tag.Name? {
      MeetOneMore(EMPTY_TABLE, before, n.tag.name, reg, enc);
      r, ks := MeetKeys(n, Meet(t, n.tag.name, reg, enc), reg, enc, before + [n.tag.name]);
    } else {
      r, ks := MeetKeys(n, t, reg, enc, before);
    }
    names := TagName(n) + ks;
    Cut(TagName(n), ks);
    Assoc(before, TagName(n), ks);
    assert before + [] == before;
  }

  lemma EnumeratesOneMore(ks: seq<string>, s: set<string>, k: string)
    requires Enumerates(ks, s) && k !in s
    ensures Enumerates(ks + [k], s + {k})
  {
  }

  lemma VisitsOneMore(nodes: seq<Node>, names: seq<seq<string>>, met: seq<string>)
    requires |names| < |nodes| && Visits(nodes[..|names|], names) && VisitsNode(nodes[|names|], met)
    ensures Visits(nodes[..|names| + 1], names + [met])
  {
    hide VisitsNode;
  }

  /** _namespaces. Once a name has failed the table is not touched again, as after the exception. */
  method CollectNames(t: Node, reg: map<string, string>, enc: Encoding)
      returns (r: Result<Table, WriteError>)
    ensures exists names :: Visits(Iter(t), names) && r == AddNames(EMPTY_TABLE, Flatten(names), reg, enc)
  {
    var nodes := Iter(t);
    ghost var names: seq<seq<string>> := [];
    r := Success(EMPTY_TABLE);
    assert r == AddNames(EMPTY_TABLE, Flatten(names), reg, enc);
    hide AddNames;
    hide VisitsNode;
    for i := 0 to |nodes|
      invariant |names| == i && Visits(nodes[..i], names)
      invariant r == AddNames(EMPTY_TABLE, Flatten(names), reg, enc)
    {
      ghost var met;
      r, met := MeetNode(nodes[i], r, reg, enc, Flatten(names));
      FlattenOneMore(names, met);
      VisitsOneMore(nodes, names, met);
      names := names + [met];
    }
    assert nodes[..|nodes|] == nodes;
  }

  // ---------------------------------------------------------------------------
  // Every lookup of the serializer succeeds
  // ---------------------------------------------------------------------------

  ghost predicate NodeCovered(n: Node, qnames: map<string, string>) {
    match n.tag
    case Comment => n.text.Some?
    case Name(name) => name in qnames && n.attrib.Keys <= qnames.Keys
  }

  lemma {:induction false} CoveredFromIter(t: Node, qnames: map<string, string>)
    requires forall n <- Iter(t) :: NodeCovered(n, qnames)
    ensures Covered(t, qnames)
    decreases t, 1
  {
    assert t in Iter(t);
    assert forall n <- IterAll(t.children) :: n in Iter(t);
    CoveredAllFromIter(t.children, qnames);
  }

  lemma {:induction false} CoveredAllFromIter(ts: seq<Node>, qnames: map<string, string>)
    requires forall n <- IterAll(ts) :: NodeCovered(n, qnames)
    ensures CoveredAll(ts, qnames)
    decreases ts, 0
  {
    if ts != [] {
      assert forall n <- Iter(ts[0]) :: n in IterAll(ts);
      assert forall n <- IterAll(ts[1..]) :: n in IterAll(ts);
      CoveredFromIter(ts[0], qnames);
      CoveredAllFromIter(ts[1..], qnames);
    }
  }

  /** Whatever is registered, the recursive serializer looks up only names that the pass over iter has put into the
      table. */
  lemma LookupsSucceed(t: Node, names: seq<seq<string>>, reg: map<string, string>, enc: Encoding)
    requires Visits(Iter(t), names) && AddNames(EMPTY_TABLE, Flatten(names), reg, enc).Success?
    requires forall n <- Iter(t) :: n.tag.Comment? ==> n.text.Some?
    ensures Covered(t, AddNames(EMPTY_TABLE, Flatten(names), reg, enc).value.qnames)
  {
    AddNamesSucceeds(EMPTY_TABLE, Flatten(names), reg, enc);
    var qnames := AddNames(EMPTY_TABLE, Flatten(names), reg, enc).value.qnames;
    forall n <- Iter(t)
      ensures NodeCovered(n, qnames)
    {
      if n.tag.Name? {
        VisitMeetsAll(Iter(t), names, n.tag.name);
        forall k <- n.attrib
          ensures k in qnames
        {
          VisitMeetsAll(Iter(t), names, k);
        }
      }
    }
    CoveredFromIter(t, qnames);
  }

  // ---------------------------------------------------------------------------
  // NoisyElementTree.write
  // ---------------------------------------------------------------------------

  datatype Output = Xml | Text

  function EncodingName(enc: Encoding): string {
    if enc.Utf8? then "utf-8" else "us-ascii"
  }

  /** The XML declaration; without an encoding argument none is written, whatever was asked for. */
  function WriteDeclaration(encoding: Option<Encoding>, declare: Option<bool>, output: Output): string {
    if encoding.Some? && declare == Some(true) && output.Xml? then
      "<?xml version='1.0' encoding='" + EncodingName(encoding.value) + "'?>\n"
    else []
  }

  /** The comments kept from before the root, one on each line. */
  function WriteComments(comments: seq<Option<string>>, enc: Encoding): Result<string, WriteError> {
    if comments == [] then Success([])
    else if comments[0].None? then Failure(MissingText)
    else
      var rest :- WriteComments(comments[1..], enc);
      Success("<!--" + Encode(comments[0].value, enc) + "-->" + "\n" + rest)
  }

  lemma CommentWritten(enc: Encoding)
    ensures WriteComments([Some("c")], enc) == Success("<!--c-->\n")
  {
    assert [Some("c")][1..] == [];
    assert "c"[1..] == [] && Encode("c", enc) == "c" + [] == "c";
    assert WriteComments([], enc) == Success([]);
    assert "<!--" + "c" + "-->" + "\n" + [] == "<!--c-->\n";
  }

  /** NoisyElementTree.write for the methods xml and text; names is the order in which names are met. */
  function Write(comments: seq<Option<string>>, root: Node, names: seq<seq<string>>, reg: map<string, string>,
                 encoding: Option<Encoding>, declare: Option<bool>, output: Output): Result<string, WriteError>
  {
    var enc := if encoding.Some? then encoding.value else Ascii;
    var prologue :- WriteComments(comments, enc);
    var body :-
      match output {
        case Text => SerializeText(root, enc)
        case Xml =>
          var table :- AddNames(EMPTY_TABLE, Flatten(names), reg, enc);
          SerializeXml(root, enc, table.qnames, table.uris)
      };
    Success(WriteDeclaration(encoding, declare, output) + (prologue + body))
  }
}
