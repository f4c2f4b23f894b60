/** The round trip of a whole document: write, read, build, set the comments aside. */
module WholeTrip {
  import opened Basics
  import opened Escaping
  import opened Elements
  import opened Namespaces
  import opened Reader
  import opened Writer
  import opened RoundTrip
  import opened FrontEnd
  import opened Builder
  import opened Chunks
  import opened Parsing

  lemma {:induction false} CommentEventCalls(comments: seq<string>)
    ensures AllCalls(CommentEvents(comments)) == CommentCalls(comments)
  {
    if comments != [] {
      CommentEventCalls(comments[1..]);
      assert CommentEvents(comments) == [CommentEvent(comments[0])] + CommentEvents(comments[1..]);
      AllCallsAppend([CommentEvent(comments[0])], CommentEvents(comments[1..]));
      AllCallsOne(CommentEvent(comments[0]));
      CommentNodeCalls(comments[0]);
    }
  }

  lemma DocumentEventCalls(comments: seq<string>, root: Node, enc: Encoding)
    requires RootLegal(root, enc)
    ensures AllCalls(CommentEvents(comments) + ParserEvents(root)) == CommentCalls(comments) + Calls(Normal(root))
  {
    AllCallsAppend(CommentEvents(comments), ParserEvents(root));
    CommentEventCalls(comments);
    TreeCalls(root, enc);
    assert TextCalls(NormalText(root.tail)) == [];
    assert Calls(Normal(root)) + [] == Calls(Normal(root));
  }

  /** What the parser makes of a document, however it cuts the character data. */
  ghost predicate ParsesTo(es: seq<Event>, comments: seq<string>, t: Node) {
    forall calls :: Coalesce(calls) == Coalesce(AllCalls(es)) ==>
      var r := Parse(calls);
      && r.Success? && Ordered(r.value.store) && |comments| < |r.value.store|
      && r.value.root == |comments| && TreeAt(r.value.store, r.value.root) == t
      && r.value.prior == Range(0, |comments|)
      && r.value.store[..|comments|] == CommentRecs(comments)
  }

  lemma EventsParse(comments: seq<string>, root: Node, enc: Encoding)
    requires RootLegal(root, enc)
    ensures ParsesTo(CommentEvents(comments) + ParserEvents(root), comments, Normal(root))
  {
    DocumentEventCalls(comments, root, enc);
    var doc := CommentCalls(comments) + Calls(Normal(root));
    ParseDocument(comments, Normal(root));
    assert Normal(root).(tail := None) == Normal(root);
    hide Parse;
    forall calls | Coalesce(calls) == Coalesce(doc)
      ensures Parse(calls) == Parse(doc)
    {
      ParseIgnoresCuts(calls, doc);
    }
  }

  /** The full round trip. A legal document can be written; reading the characters back and building a tree from
      them gives the same root, up to empty text, and sets aside the same comments in the same order. */
  lemma WriteThenParse(comments: seq<string>, root: Node, names: seq<seq<string>>, reg: map<string, string>,
                       encoding: Option<Encoding>, declare: Option<bool>)
    requires RegistryInv(reg) && Declarable(reg) && Visits(Iter(root), names)
    requires var enc := if encoding.Some? then encoding.value else Ascii;
      RegistryEncodable(reg, enc) && RootLegal(root, enc) && CommentsLegal(comments, enc)
    ensures var out := Write(Present(comments), root, names, reg, encoding, declare, Xml);
      && out.Success?
      && ReadDocument(out.value).Some?
      && ParsesTo(ReadDocument(out.value).value, comments, Normal(root))
  {
    WriteReadsBack(comments, root, names, reg, encoding, declare);
    EventsParse(comments, root, if encoding.Some? then encoding.value else Ascii);
    hide *;
  }
}
