/** Writing an element tree as XML and as plain text. */
module Serializer {
  import opened Basics
  import opened Escaping
  import opened Sorting
  import opened Elements
  import opened Namespaces

  // ---------------------------------------------------------------------------
  // The serializers
  // ---------------------------------------------------------------------------

  /** None and the empty string are written alike. */
  function TextOf(text: Option<string>): string {
    if text.None? then [] else text.value
  }

  function WriteAttrib(name: string, value: string, enc: Encoding): string {
    " " + (name + ("=\"" + Escape(Attrib, value, enc) + "\""))
  }

  /** The namespace declarations; the items are pairs of prefix and URI. */
  function WriteDecls(items: seq<(string, string)>, enc: Encoding): string {
    if items == [] then []
    else
      WriteAttrib("xmlns" + (if items[0].0 != [] then ":" + items[0].0 else []), items[0].1, enc)
      + WriteDecls(items[1..], enc)
  }

  function WriteAttribs(items: seq<(string, string)>, qnames: map<string, string>, enc: Encoding)
      : Result<string, WriteError>
  {
    if items == [] then Success([])
    else if items[0].0 !in qnames then Failure(UnknownName)
    else
      var rest :- WriteAttribs(items[1..], qnames, enc);
      Success(WriteAttrib(qnames[items[0].0], items[0].1, enc) + rest)
  }

  /** The entries of the namespace table, as pairs of prefix and URI. */
  function DeclPairs(uris: map<string, string>): (r: set<(string, string)>)
    ensures forall p <- r :: p.1 in uris && p.0 == uris[p.1]
  {
    set u <- uris :: (uris[u], u)
  }

  /** The items of the namespace table, sorted on the prefix. */
  function DeclItems(uris: map<string, string>): seq<(string, string)> {
    Sorted(DeclPairs(uris))
  }

  /** _serialize_xml; only the root is given namespaces to declare. */
  function SerializeXml(t: Node, enc: Encoding, qnames: map<string, string>, uris: map<string, string>)
      : Result<string, WriteError>
    decreases t, 1
  {
    var body :-
      match t.tag {
        case Comment =>
          if t.text.None? then Failure(MissingText)
          else Success("<!--" + Encode(t.text.value, enc) + "-->")
        case Name(name) =>
          if name !in qnames then Failure(UnknownName)
          else
            var tag := qnames[name];
            var attribs :- WriteAttribs(Sorted(Items(t.attrib)), qnames, enc);
            var open := "<" + tag + (WriteDecls(DeclItems(uris), enc) + attribs);
            if TextOf(t.text) != [] || t.children != [] then
              var inner :- SerializeXmlAll(t.children, enc, qnames);
              Success(open + ">" + Escape(Cdata, TextOf(t.text), enc) + inner + ("</" + tag + ">"))
            else Success(open + " />")
      };
    Success(body + Escape(Cdata, TextOf(t.tail), enc))
  }

  function SerializeXmlAll(ts: seq<Node>, enc: Encoding, qnames: map<string, string>): Result<string, WriteError>
    decreases ts, 0
  {
    if ts == [] then Success([])
    else
      var first :- SerializeXml(ts[0], enc, qnames, map[]);
      var rest :- SerializeXmlAll(ts[1..], enc, qnames);
      Success(first + rest)
  }

  /** Element.itertext: all inner text that is not empty, comments left out. */
  function IterText(t: Node): seq<string>
    decreases t, 1
  {
    if t.tag.Comment? then []
    else (if TextOf(t.text) != [] then [t.text.value] else []) + IterTextAll(t.children)
  }

  function IterTextAll(ts: seq<Node>): seq<string>
    decreases ts, 0
  {
    if ts == [] then []
    else
      IterText(ts[0]) + (if TextOf(ts[0].tail) != [] then [ts[0].tail.value] else []) + IterTextAll(ts[1..])
  }

  /** _serialize_text. */
  function SerializeText(t: Node, enc: Encoding): Result<string, WriteError> {
    EncodeStrict(Join(IterText(t)) + TextOf(t.tail), enc)
  }

  // ---------------------------------------------------------------------------
  // The markup that is written
  // ---------------------------------------------------------------------------

  datatype Token =
    | StartTag(name: string, attribs: seq<(string, string)>, empty: bool)
    | EndTag(name: string)
    | Chars(text: string)
    | CommentToken(text: string)

  function RenderAttribs(attribs: seq<(string, string)>, enc: Encoding): string {
    if attribs == [] then []
    else WriteAttrib(attribs[0].0, attribs[0].1, enc) + RenderAttribs(attribs[1..], enc)
  }

  function RenderToken(k: Token, enc: Encoding): string {
    match k
    case StartTag(name, attribs, empty) =>
      "<" + name + RenderAttribs(attribs, enc) + (if empty then " />" else ">")
    case EndTag(name) => "</" + name + ">"
    case Chars(text) => Escape(Cdata, text, enc)
    case CommentToken(text) => "<!--" + Encode(text, enc) + "-->"
  }

  function Render(ks: seq<Token>, enc: Encoding): string {
    if ks == [] then [] else RenderToken(ks[0], enc) + Render(ks[1..], enc)
  }

  /** Every name that will be looked up is in the table, and every comment has a text. */
  predicate Covered(t: Node, qnames: map<string, string>)
    decreases t, 1
  {
    match t.tag
    case Comment => t.text.Some?
    case Name(name) => name in qnames && t.attrib.Keys <= qnames.Keys && CoveredAll(t.children, qnames)
  }

  predicate CoveredAll(ts: seq<Node>, qnames: map<string, string>)
    decreases ts, 0
  {
    ts == [] || (Covered(ts[0], qnames) && CoveredAll(ts[1..], qnames))
  }

  /** The attributes declared for a namespace table. */
  function DeclAttribs(uris: map<string, string>): seq<(string, string)> {
    var items := DeclItems(uris);
    seq(|items|, i requires 0 <= i < |items| =>
      ("xmlns" + (if items[i].0 != [] then ":" + items[i].0 else []), items[i].1))
  }

  /** The attributes of an element under their printed names, in lexical order of the original names. */
  function PrintedAttribs(attrib: map<string, string>, qnames: map<string, string>): seq<(string, string)>
    requires attrib.Keys <= qnames.Keys
  {
    var items := Sorted(Items(attrib));
    seq(|items|, i requires 0 <= i < |items| => assert items[i] in items; (qnames[items[i].0], items[i].1))
  }

  function CharTokens(text: Option<string>): seq<Token> {
    if TextOf(text) == [] then [] else [Chars(text.value)]
  }

  function Tokens(t: Node, qnames: map<string, string>, uris: map<string, string>): seq<Token>
    requires Covered(t, qnames)
    decreases t, 1
  {
    (match t.tag
     case Comment => [CommentToken(t.text.value)]
     case Name(name) =>
       var attribs := DeclAttribs(uris) + PrintedAttribs(t.attrib, qnames);
       if TextOf(t.text) != [] || t.children != [] then
         [StartTag(qnames[name], attribs, false)] + CharTokens(t.text) + TokensAll(t.children, qnames)
         + [EndTag(qnames[name])]
       else [StartTag(qnames[name], attribs, true)])
    + CharTokens(t.tail)
  }

  function TokensAll(ts: seq<Node>, qnames: map<string, string>): seq<Token>
    requires CoveredAll(ts, qnames)
    decreases ts, 0
  {
    if ts == [] then [] else Tokens(ts[0], qnames, map[]) + TokensAll(ts[1..], qnames)
  }

  lemma {:induction false} RenderAppend(a: seq<Token>, b: seq<Token>, enc: Encoding)
    ensures Render(a + b, enc) == Render(a, enc) + Render(b, enc)
  {
    if a == [] {
      assert a + b == b;
    } else {
      assert (a + b)[1..] == a[1..] + b;
      RenderAppend(a[1..], b, enc);
    }
  }

  lemma RenderFive(a: seq<Token>, b: seq<Token>, c: seq<Token>, d: seq<Token>, e: seq<Token>, enc: Encoding)
    ensures Render(a + b + c + d + e, enc)
            == Render(a, enc) + Render(b, enc) + Render(c, enc) + Render(d, enc) + Render(e, enc)
  {
    RenderAppend(a + b + c + d, e, enc);
    RenderAppend(a + b + c, d, enc);
    RenderAppend(a + b, c, enc);
    RenderAppend(a, b, enc);
  }

  lemma {:induction false} RenderAttribsAppend(a: seq<(string, string)>, b: seq<(string, string)>, enc: Encoding)
    ensures RenderAttribs(a + b, enc) == RenderAttribs(a, enc) + RenderAttribs(b, enc)
  {
    if a == [] {
      assert a + b == b;
    } else {
      assert (a + b)[1..] == a[1..] + b;
      RenderAttribsAppend(a[1..], b, enc);
    }
  }

  lemma {:induction false} DeclsAreAttribs(items: seq<(string, string)>, attribs: seq<(string, string)>, enc: Encoding)
    requires |attribs| == |items|
    requires forall i :: 0 <= i < |items| ==>
      attribs[i] == ("xmlns" + (if items[i].0 != [] then ":" + items[i].0 else []), items[i].1)
    ensures WriteDecls(items, enc) == RenderAttribs(attribs, enc)
  {
    if items != [] {
      DeclsAreAttribs(items[1..], attribs[1..], enc);
    }
  }

  lemma {:induction false} AttribsAreAttribs(
      items: seq<(string, string)>, attribs: seq<(string, string)>, qnames: map<string, string>, enc: Encoding)
    requires |attribs| == |items|
    requires forall i :: 0 <= i < |items| ==> items[i].0 in qnames && attribs[i] == (qnames[items[i].0], items[i].1)
    ensures WriteAttribs(items, qnames, enc) == Success(RenderAttribs(attribs, enc))
  {
    if items != [] {
      AttribsAreAttribs(items[1..], attribs[1..], qnames, enc);
    }
  }

  lemma {:induction false} UnknownAttrib(
      items: seq<(string, string)>, i: nat, qnames: map<string, string>, enc: Encoding)
    requires i < |items| && items[i].0 !in qnames
    ensures WriteAttribs(items, qnames, enc).Failure?
  {
    if i > 0 {
      UnknownAttrib(items[1..], i - 1, qnames, enc);
    }
  }

  lemma RenderChars(text: Option<string>, enc: Encoding)
    ensures Render(CharTokens(text), enc) == Escape(Cdata, TextOf(text), enc)
  {
    if TextOf(text) != [] {
      assert CharTokens(text)[1..] == [];
    } else {
      EscapeIsOnePass(Cdata, [], enc);
    }
  }

  lemma TagAttribs(attrib: map<string, string>, enc: Encoding, qnames: map<string, string>)
    requires attrib.Keys <= qnames.Keys
    ensures WriteAttribs(Sorted(Items(attrib)), qnames, enc)
            == Success(RenderAttribs(PrintedAttribs(attrib, qnames), enc))
  {
    var items := Sorted(Items(attrib));
    var attribs := PrintedAttribs(attrib, qnames);
    forall i | 0 <= i < |items|
      ensures items[i].0 in qnames && attribs[i] == (qnames[items[i].0], items[i].1)
    {
      assert items[i] in items;
    }
    hide PrintedAttribs;
    AttribsAreAttribs(items, attribs, qnames, enc);
  }

  lemma MissingAttrib(attrib: map<string, string>, enc: Encoding, qnames: map<string, string>)
    requires !(attrib.Keys <= qnames.Keys)
    ensures WriteAttribs(Sorted(Items(attrib)), qnames, enc).Failure?
  {
    var items := Sorted(Items(attrib));
    var k :| k in attrib && k !in qnames;
    assert (k, attrib[k]) in items;
    var i :| 0 <= i < |items| && items[i] == (k, attrib[k]);
    UnknownAttrib(items, i, qnames, enc);
  }

  lemma TagDecls(uris: map<string, string>, enc: Encoding)
    ensures WriteDecls(DeclItems(uris), enc) == RenderAttribs(DeclAttribs(uris), enc)
  {
    var items := DeclItems(uris);
    var attribs := DeclAttribs(uris);
    hide DeclItems;
    DeclsAreAttribs(items, attribs, enc);
  }

  /** Writing the inner part of an element: its text, its children and its end tag. */
  lemma RenderElement(t: Node, enc: Encoding, qnames: map<string, string>, uris: map<string, string>, inner: seq<Token>)
    requires t.tag.Name? && t.tag.name in qnames && t.attrib.Keys <= qnames.Keys
    ensures var tag := qnames[t.tag.name];
      var attribs := DeclAttribs(uris) + PrintedAttribs(t.attrib, qnames);
      Render([StartTag(tag, attribs, false)] + CharTokens(t.text) + inner + [EndTag(tag)] + CharTokens(t.tail), enc)
      == "<" + tag + (WriteDecls(DeclItems(uris), enc) + RenderAttribs(PrintedAttribs(t.attrib, qnames), enc))
         + ">" + Escape(Cdata, TextOf(t.text), enc) + Render(inner, enc) + ("</" + tag + ">")
         + Escape(Cdata, TextOf(t.tail), enc)
  {
    var tag := qnames[t.tag.name];
    var decls, attribs := DeclAttribs(uris), PrintedAttribs(t.attrib, qnames);
    TagDecls(uris, enc);
    RenderAttribsAppend(decls, attribs, enc);
    var open, close := StartTag(tag, decls + attribs, false), EndTag(tag);
    RenderFive([open], CharTokens(t.text), inner, [close], CharTokens(t.tail), enc);
    RenderChars(t.text, enc);
    RenderChars(t.tail, enc);
    RenderOne(open, enc);
    RenderOne(close, enc);
  }

  lemma RenderOne(k: Token, enc: Encoding)
    ensures Render([k], enc) == RenderToken(k, enc)
  {
    assert [k][1..] == [];
  }

  /** Writing an element without content. */
  lemma RenderEmpty(t: Node, enc: Encoding, qnames: map<string, string>, uris: map<string, string>)
    requires t.tag.Name? && t.tag.name in qnames && t.attrib.Keys <= qnames.Keys
    ensures var tag := qnames[t.tag.name];
      var attribs := DeclAttribs(uris) + PrintedAttribs(t.attrib, qnames);
      Render([StartTag(tag, attribs, true)] + CharTokens(t.tail), enc)
      == "<" + tag + (WriteDecls(DeclItems(uris), enc) + RenderAttribs(PrintedAttribs(t.attrib, qnames), enc)) + " />"
         + Escape(Cdata, TextOf(t.tail), enc)
  {
    var tag := qnames[t.tag.name];
    var decls, attribs := DeclAttribs(uris), PrintedAttribs(t.attrib, qnames);
    TagDecls(uris, enc);
    hide DeclAttribs;
    hide PrintedAttribs;
    hide DeclItems;
    RenderAttribsAppend(decls, attribs, enc);
    RenderChars(t.tail, enc);
    RenderAppend([StartTag(tag, decls + attribs, true)], CharTokens(t.tail), enc);
    RenderOne(StartTag(tag, decls + attribs, true), enc);
  }

  lemma SerializeComment(t: Node, enc: Encoding, qnames: map<string, string>, uris: map<string, string>)
    requires t.tag.Comment? && t.text.Some?
    ensures SerializeXml(t, enc, qnames, uris) == Success(Render(Tokens(t, qnames, uris), enc))
  {
    var k := CommentToken(t.text.value);
    RenderAppend([k], CharTokens(t.tail), enc);
    RenderOne(k, enc);
    RenderChars(t.tail, enc);
  }

  lemma SerializeElement(t: Node, enc: Encoding, qnames: map<string, string>, uris: map<string, string>)
    requires t.tag.Name? && Covered(t, qnames)
    requires SerializeXmlAll(t.children, enc, qnames) == Success(Render(TokensAll(t.children, qnames), enc))
    ensures SerializeXml(t, enc, qnames, uris) == Success(Render(Tokens(t, qnames, uris), enc))
  {
    TagAttribs(t.attrib, enc, qnames);
    hide DeclAttribs;
    hide DeclItems;
    hide PrintedAttribs;
    hide Escape;
    hide Render;
    hide Items;
    hide Sorted;
    hide CharTokens;
    if TextOf(t.text) != [] || t.children != [] {
      RenderElement(t, enc, qnames, uris, TokensAll(t.children, qnames));
    } else {
      RenderEmpty(t, enc, qnames, uris);
    }
  }

  /** Writing succeeds exactly when every name is in the table and every comment has a text, and then
      the characters are those of the element's tokens. */
  lemma {:induction false} SerializeIsRender(
      t: Node, enc: Encoding, qnames: map<string, string>, uris: map<string, string>)
    ensures SerializeXml(t, enc, qnames, uris).Success? <==> Covered(t, qnames)
    ensures Covered(t, qnames) ==>
      SerializeXml(t, enc, qnames, uris) == Success(Render(Tokens(t, qnames, uris), enc))
    decreases t, 1
  {
    if t.tag.Comment? {
      if t.text.Some? {
        SerializeComment(t, enc, qnames, uris);
      }
    } else {
      SerializeAllIsRender(t.children, enc, qnames);
      if Covered(t, qnames) {
        SerializeElement(t, enc, qnames, uris);
      } else if t.tag.name in qnames && !(t.attrib.Keys <= qnames.Keys) {
        MissingAttrib(t.attrib, enc, qnames);
      } else if t.tag.name in qnames {
        assert t.children != [];
      }
    }
  }

  lemma {:induction false} SerializeAllIsRender(ts: seq<Node>, enc: Encoding, qnames: map<string, string>)
    ensures SerializeXmlAll(ts, enc, qnames).Success? <==> CoveredAll(ts, qnames)
    ensures CoveredAll(ts, qnames) ==> SerializeXmlAll(ts, enc, qnames) == Success(Render(TokensAll(ts, qnames), enc))
    decreases ts, 0
  {
    if ts != [] {
      SerializeIsRender(ts[0], enc, qnames, map[]);
      SerializeAllIsRender(ts[1..], enc, qnames);
      if CoveredAll(ts, qnames) {
        RenderAppend(Tokens(ts[0], qnames, map[]), TokensAll(ts[1..], qnames), enc);
      }
    }
  }

  // ---------------------------------------------------------------------------
  // What is written, in literals
  // ---------------------------------------------------------------------------

  /** Characters that are written as they are. */
  predicate IsOrdinary(s: string) {
    forall i :: 0 <= i < |s| ==> s[i] !in {'&', '<', '>', '"', '\n'} && s[i] as int < 128
  }

  lemma {:induction false} OrdinaryEscapes(ctx: Context, s: string, enc: Encoding)
    requires IsOrdinary(s)
    ensures Escape(ctx, s, enc) == s
  {
    EscapeIsOnePass(ctx, s, enc);
    if s != [] {
      OrdinaryEscapes(ctx, s[1..], enc);
      EscapeIsOnePass(ctx, s[1..], enc);
      hide Escape;
      assert s == [s[0]] + s[1..];
      assert Piece(ctx, s[0], enc) == [s[0]];
    }
  }

  /** An element with two attributes: the one whose name comes first is written first. */
  lemma TwoAttribs(tag: string, k: string, v: string, l: string, w: string, enc: Encoding)
    requires k != l && PairLeq((k, v), (l, w)) && IsOrdinary(v) && IsOrdinary(w)
    ensures SerializeXml(Node(Name(tag), map[l := w, k := v], None, [], None), enc,
                         map[tag := tag, l := l, k := k], map[])
            == Success("<" + tag + ((" " + (k + ("=\"" + v + "\""))) + (" " + (l + ("=\"" + w + "\"")))) + " />")
  {
    var attrib, qnames := map[l := w, k := v], map[tag := tag, l := l, k := k];
    assert Items(attrib) == {(k, v), (l, w)};
    SortedTwo((k, v), (l, w));
    OrdinaryEscapes(Attrib, v, enc);
    OrdinaryEscapes(Attrib, w, enc);
    TwoWritten(k, v, l, w, qnames, enc);
    hide *;
    EmptyWritten(tag, attrib, qnames, WriteAttrib(k, v, enc) + WriteAttrib(l, w, enc), enc);
  }

  /** An element without text, children, tail and namespaces to declare. */
  lemma EmptyWritten(tag: string, attrib: map<string, string>, qnames: map<string, string>, attribs: string,
                     enc: Encoding)
    requires tag in qnames && qnames[tag] == tag && WriteAttribs(Sorted(Items(attrib)), qnames, enc) == Success(attribs)
    ensures SerializeXml(Node(Name(tag), attrib, None, [], None), enc, qnames, map[])
            == Success("<" + tag + attribs + " />")
  {
    NoDeclItems();
    OrdinaryEscapes(Cdata, [], enc);
    EmptyParts(tag, attrib, qnames, attribs, enc);
    hide *;
    assert [] + attribs == attribs;
    assert "<" + tag + attribs + " />" + [] == "<" + tag + attribs + " />";
  }

  lemma EmptyParts(tag: string, attrib: map<string, string>, qnames: map<string, string>, attribs: string,
                   enc: Encoding)
    requires tag in qnames && qnames[tag] == tag && WriteAttribs(Sorted(Items(attrib)), qnames, enc) == Success(attribs)
    requires DeclItems(map[]) == [] && Escape(Cdata, [], enc) == []
    ensures SerializeXml(Node(Name(tag), attrib, None, [], None), enc, qnames, map[])
            == Success("<" + tag + ([] + attribs) + " />" + [])
  {
    hide Sorted;
    hide Items;
    hide DeclItems;
    hide Escape;
    hide WriteAttribs;
    assert WriteDecls([], enc) == [];
    hide WriteDecls;
  }

  lemma TwoWritten(k: string, v: string, l: string, w: string, qnames: map<string, string>, enc: Encoding)
    requires k in qnames && qnames[k] == k && l in qnames && qnames[l] == l
    requires Escape(Attrib, v, enc) == v && Escape(Attrib, w, enc) == w
    ensures WriteAttribs([(k, v), (l, w)], qnames, enc) == Success(WriteAttrib(k, v, enc) + WriteAttrib(l, w, enc))
    ensures WriteAttrib(k, v, enc) == " " + (k + ("=\"" + v + "\""))
    ensures WriteAttrib(l, w, enc) == " " + (l + ("=\"" + w + "\""))
  {
    hide Escape;
    var two := [(k, v), (l, w)];
    assert two[1..] == [(l, w)] && [(l, w)][1..] == [];
    assert WriteAttribs([], qnames, enc) == Success([]);
    assert WriteAttribs([(l, w)], qnames, enc) == Success(WriteAttrib(l, w, enc) + []);
    hide WriteAttrib;
    assert WriteAttrib(l, w, enc) + [] == WriteAttrib(l, w, enc);
  }

  lemma NoDeclItems()
    ensures DeclItems(map[]) == []
  {
    assert DeclPairs(map[]) == {};
  }

  /** A connector of server.xml. */
  lemma ConnectorWritten()
    ensures SerializeXml(Node(Name("Connector"), map["protocol" := "HTTP/1.1", "port" := "8080"], None, [], None), Utf8,
                         map["Connector" := "Connector", "protocol" := "protocol", "port" := "port"], map[])
            == Success("<Connector port=\"8080\" protocol=\"HTTP/1.1\" />")
  {
    ConnectorOrder();
    hide *;
    TwoAttribs("Connector", "port", "8080", "protocol", "HTTP/1.1", Utf8);
    ConnectorPieces();
  }

  lemma ConnectorOrder()
    ensures PairLeq(("port", "8080"), ("protocol", "HTTP/1.1")) && "port" != "protocol"
    ensures IsOrdinary("8080") && IsOrdinary("HTTP/1.1")
  {
    assert |"port"| != |"protocol"|;
    assert "port"[..1] == "protocol"[..1] && "port"[1] == 'o' && "protocol"[1] == 'r';
    assert LessAt("port", "protocol", 1);
    PairLeqIff(("port", "8080"), ("protocol", "HTTP/1.1"));
  }

  lemma ConnectorPieces()
    ensures "<" + "Connector"
            + ((" " + ("port" + ("=\"" + "8080" + "\""))) + (" " + ("protocol" + ("=\"" + "HTTP/1.1" + "\"")))) + " />"
            == "<Connector port=\"8080\" protocol=\"HTTP/1.1\" />"
  {
    assert " " + ("port" + ("=\"" + "8080" + "\"")) == " port=\"8080\"";
    assert " " + ("protocol" + ("=\"" + "HTTP/1.1" + "\"")) == " protocol=\"HTTP/1.1\"";
    assert "<" + "Connector" == "<Connector";
    assert " port=\"8080\"" + " protocol=\"HTTP/1.1\"" == " port=\"8080\" protocol=\"HTTP/1.1\"";
    ConnectorText();
  }

  lemma ConnectorText()
    ensures "<Connector" + " port=\"8080\" protocol=\"HTTP/1.1\"" + " />"
            == "<Connector port=\"8080\" protocol=\"HTTP/1.1\" />"
  {
  }

  /** An element with a namespace to declare, a text, a comment and the comment's tail. */
  lemma RootWritten(tag: string, text: string, comment: string, tail: string, uri: string, enc: Encoding)
    requires IsOrdinary(text) && IsOrdinary(comment) && IsOrdinary(tail) && IsOrdinary(uri) && text != []
    ensures SerializeXml(
        Node(Name(tag), map[], Some(text), [Node(Comment, map[], Some(comment), [], Some(tail))], None), enc,
        map[tag := tag], map[uri := "ns0"])
      == Success("<" + tag + " xmlns:ns0=\"" + uri + "\">" + text + "<!--" + comment + "-->" + tail + "</" + tag + ">")
  {
    var child := Node(Comment, map[], Some(comment), [], Some(tail));
    OneDecl(uri, enc);
    NoAttribs(map[tag := tag], enc);
    OrdinaryEscapes(Cdata, text, enc);
    OrdinaryEscapes(Cdata, tail, enc);
    OrdinaryEscapes(Cdata, [], enc);
    OrdinaryEncodes(comment, enc);
    hide Escape;
    hide Encode;
    hide Sorted;
    hide DeclItems;
    hide WriteDecls;
    hide WriteAttribs;
    var inner := "<!--" + comment + "-->" + tail;
    assert SerializeXml(child, enc, map[tag := tag], map[]) == Success(inner);
    assert [child][1..] == [] && inner + [] == inner;
    assert SerializeXmlAll([child], enc, map[tag := tag]) == Success(inner);
    RootPieces(tag, text, inner, uri);
    hide SerializeXmlAll;
    Assoc("<" + tag + " xmlns:ns0=\"" + uri + "\">" + text, "<!--" + comment + "-->", tail);
    Assoc("<" + tag + " xmlns:ns0=\"" + uri + "\">" + text, "<!--" + comment, "-->");
    Assoc("<" + tag + " xmlns:ns0=\"" + uri + "\">" + text, "<!--", comment);
  }

  lemma RootPieces(tag: string, text: string, inner: string, uri: string)
    ensures ("<" + tag + ((" xmlns:ns0=\"" + uri + "\"") + [])) + ">" + text + inner + ("</" + tag + ">") + []
            == "<" + tag + " xmlns:ns0=\"" + uri + "\">" + text + inner + "</" + tag + ">"
  {
    assert "\">" == "\"" + ">";
    Assoc("<" + tag, " xmlns:ns0=\"", uri);
    Assoc("<" + tag, " xmlns:ns0=\"" + uri, "\"");
    Assoc("<" + tag + " xmlns:ns0=\"" + uri, "\"", ">");
    assert (" xmlns:ns0=\"" + uri + "\"") + [] == " xmlns:ns0=\"" + uri + "\"";
    var all := "<" + tag + " xmlns:ns0=\"" + uri + "\">" + text + inner;
    Assoc(all, "</", tag);
    Assoc(all, "</" + tag, ">");
  }

  lemma {:induction false} OrdinaryEncodes(s: string, enc: Encoding)
    requires IsOrdinary(s)
    ensures Encode(s, enc) == s
  {
    if s != [] {
      OrdinaryEncodes(s[1..], enc);
      assert s == [s[0]] + s[1..];
    }
  }

  lemma OneDecl(uri: string, enc: Encoding)
    requires IsOrdinary(uri)
    ensures WriteDecls(DeclItems(map[uri := "ns0"]), enc) == " xmlns:ns0=\"" + uri + "\""
  {
    var uris := map[uri := "ns0"];
    assert (uris[uri], uri) in DeclPairs(uris);
    assert DeclPairs(uris) == {("ns0", uri)};
    SortedOne(("ns0", uri));
    hide Sorted;
    var items := [("ns0", uri)];
    OrdinaryEscapes(Attrib, uri, enc);
    hide Escape;
    assert items[1..] == [] && WriteDecls([], enc) == [];
    DeclPieces(uri);
    assert items[0].0 == "ns0" != [] && ":" + "ns0" == ":ns0";
    hide WriteAttrib;
    assert WriteDecls(items, enc) == WriteAttrib("xmlns" + ":ns0", uri, enc) + [];
  }

  lemma DeclPieces(uri: string)
    ensures " " + (("xmlns" + ":ns0") + ("=\"" + uri + "\"")) + [] == " xmlns:ns0=\"" + uri + "\""
  {
    assert " xmlns:ns0=\"" == " " + ("xmlns" + ":ns0") + "=\"";
  }

  lemma NoAttribs(qnames: map<string, string>, enc: Encoding)
    ensures WriteAttribs(Sorted(Items(map[])), qnames, enc) == Success([])
  {
    assert Items(map[]) == {};
  }

  // ---------------------------------------------------------------------------
  // Everything that is written can be encoded
  // ---------------------------------------------------------------------------

  ghost predicate NamesHeld(attribs: seq<(string, string)>, enc: Encoding) {
    forall a <- attribs :: Held(a.0, enc)
  }

  ghost predicate TokenHeld(k: Token, enc: Encoding) {
    match k
    case StartTag(name, attribs, _) => Held(name, enc) && NamesHeld(attribs, enc)
    case EndTag(name) => Held(name, enc)
    case Chars(_) => true
    case CommentToken(_) => true
  }

  lemma {:induction false} AttribsHeld(attribs: seq<(string, string)>, enc: Encoding)
    requires NamesHeld(attribs, enc)
    ensures Held(RenderAttribs(attribs, enc), enc)
  {
    if attribs != [] {
      var (name, value) := attribs[0];
      assert attribs[0] in attribs && forall a <- attribs[1..] :: a in attribs;
      AttribsHeld(attribs[1..], enc);
      EscapeIsHeld(Attrib, value, enc);
      assert Held(" ", enc) && Held("=\"", enc) && Held("\"", enc);
      hide Held;
      hide Escape;
      var v := Escape(Attrib, value, enc);
      HeldAppend("=\"", v, enc);
      HeldAppend("=\"" + v, "\"", enc);
      HeldAppend(name, "=\"" + v + "\"", enc);
      HeldAppend(" ", name + ("=\"" + v + "\""), enc);
      HeldAppend(WriteAttrib(name, value, enc), RenderAttribs(attribs[1..], enc), enc);
    }
  }

  lemma RenderTokenHeld(k: Token, enc: Encoding)
    requires TokenHeld(k, enc)
    ensures Held(RenderToken(k, enc), enc)
  {
    assert Held("<", enc) && Held("</", enc) && Held(">", enc) && Held(" />", enc);
    assert Held("<!--", enc) && Held("-->", enc);
    hide Held;
    match k {
      case StartTag(name, attribs, empty) =>
        AttribsHeld(attribs, enc);
        hide RenderAttribs;
        HeldAppend("<", name, enc);
        HeldAppend("<" + name, RenderAttribs(attribs, enc), enc);
        HeldAppend("<" + name + RenderAttribs(attribs, enc), if empty then " />" else ">", enc);
      case EndTag(name) =>
        HeldAppend("</", name, enc);
        HeldAppend("</" + name, ">", enc);
      case Chars(text) =>
        EscapeIsHeld(Cdata, text, enc);
      case CommentToken(text) =>
        EncodeIsHeld(text, enc);
        HeldAppend("<!--", Encode(text, enc), enc);
        HeldAppend("<!--" + Encode(text, enc), "-->", enc);
    }
  }

  lemma {:induction false} RenderHeld(ks: seq<Token>, enc: Encoding)
    requires forall k <- ks :: TokenHeld(k, enc)
    ensures Held(Render(ks, enc), enc)
  {
    if ks != [] {
      assert ks[0] in ks && forall k <- ks[1..] :: k in ks;
      RenderTokenHeld(ks[0], enc);
      RenderHeld(ks[1..], enc);
      hide Held;
      hide RenderToken;
      hide TokenHeld;
      HeldAppend(RenderToken(ks[0], enc), Render(ks[1..], enc), enc);
    }
  }

  ghost predicate AllHeld(m: map<string, string>, enc: Encoding) {
    forall k <- m :: Held(m[k], enc)
  }

  lemma DeclNamesHeld(uris: map<string, string>, enc: Encoding)
    requires AllHeld(uris, enc)
    ensures NamesHeld(DeclAttribs(uris), enc)
  {
    var items, attribs := DeclItems(uris), DeclAttribs(uris);
    forall a <- attribs
      ensures Held(a.0, enc)
    {
      var i :| 0 <= i < |attribs| && attribs[i] == a;
      assert items[i] in items && items[i] in DeclPairs(uris);
      hide DeclItems;
      hide Held;
      HeldAppend(":", items[i].0, enc);
      HeldAppend("xmlns", if items[i].0 != [] then ":" + items[i].0 else [], enc);
      SeparatorsHeld(enc);
    }
  }

  lemma SeparatorsHeld(enc: Encoding)
    ensures Held("", enc) && Held(":", enc) && Held("xmlns", enc)
  {
  }

  lemma PrintedNamesHeld(attrib: map<string, string>, qnames: map<string, string>, enc: Encoding)
    requires attrib.Keys <= qnames.Keys && AllHeld(qnames, enc)
    ensures NamesHeld(PrintedAttribs(attrib, qnames), enc)
  {
    var items, attribs := Sorted(Items(attrib)), PrintedAttribs(attrib, qnames);
    forall a <- attribs
      ensures Held(a.0, enc)
    {
      var i :| 0 <= i < |attribs| && attribs[i] == a;
      assert items[i] in items && items[i] in Items(attrib);
    }
  }

  lemma {:induction false} TokensHeld(t: Node, qnames: map<string, string>, uris: map<string, string>, enc: Encoding)
    requires Covered(t, qnames) && AllHeld(qnames, enc) && AllHeld(uris, enc)
    ensures forall k <- Tokens(t, qnames, uris) :: TokenHeld(k, enc)
    decreases t, 1
  {
    hide Held;
    if t.tag.Name? {
      DeclNamesHeld(uris, enc);
      PrintedNamesHeld(t.attrib, qnames, enc);
      TokensAllHeld(t.children, qnames, enc);
      hide DeclAttribs;
      hide PrintedAttribs;
      assert Held(qnames[t.tag.name], enc);
    }
  }

  lemma {:induction false} TokensAllHeld(ts: seq<Node>, qnames: map<string, string>, enc: Encoding)
    requires CoveredAll(ts, qnames) && AllHeld(qnames, enc)
    ensures forall k <- TokensAll(ts, qnames) :: TokenHeld(k, enc)
    decreases ts, 0
  {
    if ts != [] {
      TokensHeld(ts[0], qnames, map[], enc);
      TokensAllHeld(ts[1..], qnames, enc);
      hide TokenHeld;
    }
  }

  // ---------------------------------------------------------------------------
  // The two serializers agree
  // ---------------------------------------------------------------------------

  /** The character data among the tokens. */
  function CharData(ks: seq<Token>): string {
    if ks == [] then [] else (if ks[0].Chars? then ks[0].text else []) + CharData(ks[1..])
  }

  lemma {:induction false} CharDataAppend(a: seq<Token>, b: seq<Token>)
    ensures CharData(a + b) == CharData(a) + CharData(b)
  {
    if a == [] {
      assert a + b == b;
    } else {
      assert (a + b)[1..] == a[1..] + b;
      CharDataAppend(a[1..], b);
    }
  }

  lemma CharDataFive(a: seq<Token>, b: seq<Token>, c: seq<Token>, d: seq<Token>, e: seq<Token>)
    ensures CharData(a + b + c + d + e) == CharData(a) + CharData(b) + CharData(c) + CharData(d) + CharData(e)
  {
    CharDataAppend(a + b + c + d, e);
    CharDataAppend(a + b + c, d);
    CharDataAppend(a + b, c);
    CharDataAppend(a, b);
  }

  lemma CharDataOne(k: Token)
    ensures CharData([k]) == if k.Chars? then k.text else []
  {
    assert [k][1..] == [];
  }

  lemma CharDataChars(text: Option<string>)
    ensures CharData(CharTokens(text)) == TextOf(text)
  {
    if TextOf(text) != [] {
      CharDataOne(Chars(text.value));
    }
  }

  lemma CharDataElement(t: Node, open: Token, inner: seq<Token>, close: Token)
    requires open.StartTag? && close.EndTag?
    ensures CharData([open] + CharTokens(t.text) + inner + [close] + CharTokens(t.tail))
            == TextOf(t.text) + CharData(inner) + TextOf(t.tail)
    ensures CharData([open] + CharTokens(t.tail)) == TextOf(t.tail)
  {
    CharDataFive([open], CharTokens(t.text), inner, [close], CharTokens(t.tail));
    CharDataAppend([open], CharTokens(t.tail));
    CharDataChars(t.text);
    CharDataChars(t.tail);
    CharDataOne(open);
    CharDataOne(close);
    hide CharData;
    hide CharTokens;
    hide TextOf;
  }

  /** What the text serializer writes is the character data of the markup: for every tree, removing the tags
      and comments from the XML leaves exactly the plain text. */
  lemma {:induction false} SerializersAgree(t: Node, qnames: map<string, string>, uris: map<string, string>)
    requires Covered(t, qnames)
    ensures CharData(Tokens(t, qnames, uris)) == Join(IterText(t)) + TextOf(t.tail)
    decreases t, 1
  {
    hide CharData;
    hide CharTokens;
    match t.tag
    case Comment =>
      CharDataAppend([CommentToken(t.text.value)], CharTokens(t.tail));
      CharDataOne(CommentToken(t.text.value));
      CharDataChars(t.tail);
    case Name(name) =>
      AllAgree(t.children, qnames);
      var attribs := DeclAttribs(uris) + PrintedAttribs(t.attrib, qnames);
      hide DeclAttribs;
      hide PrintedAttribs;
      var own := if TextOf(t.text) != [] then [t.text.value] else [];
      JoinAppend(own, IterTextAll(t.children));
      JoinOwn(t.text);
      CharDataElement(t, StartTag(qnames[name], attribs, false), TokensAll(t.children, qnames), EndTag(qnames[name]));
      CharDataElement(t, StartTag(qnames[name], attribs, true), TokensAll(t.children, qnames), EndTag(qnames[name]));
  }

  lemma JoinOwn(text: Option<string>)
    ensures Join(if TextOf(text) != [] then [text.value] else []) == TextOf(text)
  {
    if TextOf(text) != [] {
      assert [text.value][1..] == [];
    }
  }

  lemma {:induction false} AllAgree(ts: seq<Node>, qnames: map<string, string>)
    requires CoveredAll(ts, qnames)
    ensures CharData(TokensAll(ts, qnames)) == Join(IterTextAll(ts))
    decreases ts, 0
  {
    if ts != [] {
      var t := ts[0];
      SerializersAgree(t, qnames, map[]);
      AllAgree(ts[1..], qnames);
      CharDataAppend(Tokens(t, qnames, map[]), TokensAll(ts[1..], qnames));
      var own := if TextOf(t.tail) != [] then [t.tail.value] else [];
      JoinOwn(t.tail);
      JoinAppend(IterText(t), own);
      JoinAppend(IterText(t) + own, IterTextAll(ts[1..]));
    }
  }
}
