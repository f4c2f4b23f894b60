/** What is written is read back: from a tree to characters to parser events. */
module RoundTrip {
  import opened Basics
  import opened XmlChars
  import opened Escaping
  import opened Elements
  import opened Namespaces
  import opened Serializer
  import opened Lexer
  import opened Reader
  import opened Writer
  import opened Scoping

  // ---------------------------------------------------------------------------
  // Trees that survive
  // ---------------------------------------------------------------------------

  predicate TextLegal(text: Option<string>) {
    AllChars(TextOf(text)) && '\r' !in TextOf(text)
  }

  /** Comment text that can be written as it is. */
  predicate CommentLegal(text: string, enc: Encoding) {
    IsCommentText(text) && '\r' !in text && forall i :: 0 <= i < |text| ==> Encodable(text[i], enc)
  }

  lemma {:induction false} EncodeGrows(s: string, enc: Encoding)
    ensures |Encode(s, enc)| >= |s|
    ensures |Encode(s, enc)| == |s| ==> forall i :: 0 <= i < |s| ==> Encodable(s[i], enc)
    ensures '\r' !in s ==> '\r' !in Encode(s, enc)
  {
    if s != [] {
      EncodeGrows(s[1..], enc);
      DecParses(s[0] as int);
      hide Dec;
      assert s == [s[0]] + s[1..];
    }
  }

  lemma {:induction false} FirstDashes(s: string)
    ensures FindDashes(s).Some? ==>
      forall j :: 0 <= j < FindDashes(s).value && j + 1 < |s| ==> !(s[j] == '-' && s[j + 1] == '-')
  {
    if |s| >= 2 && !(s[0] == '-' && s[1] == '-') {
      FirstDashes(s[1..]);
      assert forall j :: 0 < j < |s| ==> s[j] == s[1..][j - 1];
    }
  }

  lemma LexNothing(s: string)
    requires Lex(s) == Some([])
    ensures s == []
  {
  }

  /** Lexing from the start of a comment. */
  lemma LexCommentIs(w: string)
    requires |w| >= 4 && w[0] == '<' && w[1] == '!' && w[2] == '-' && w[3] == '-'
    ensures var i := FindDashes(w[4..]);
      Lex(w) ==
        if i.None? || i.value + 6 >= |w| || w[i.value + 6] != '>' || !AllChars(w[4..i.value + 4]) then None
        else Cons(CommentToken(w[4..i.value + 4]), Lex(w[i.value + 7..]))
  {
    hide FindDashes;
    hide AllChars;
    hide Cons;
    hide ScanAttribs;
    hide NameLength;
    hide Decode;
  }

  /** What lexing to one comment says of the characters. */
  lemma OneCommentLexed(w: string, text: string)
    requires |w| >= 4 && w[0] == '<' && w[1] == '!' && w[2] == '-' && w[3] == '-'
    requires Lex(w) == Some([CommentToken(text)])
    ensures FindDashes(w[4..]) == Some(|text|) && |w| == |text| + 7 && text == w[4..|text| + 4] && AllChars(text)
  {
    LexCommentIs(w);
    hide Lex;
    hide FindDashes;
    hide AllChars;
    var i := FindDashes(w[4..]).value;
    var k, rest := CommentToken(w[4..i + 4]), Lex(w[i + 7..]);
    assert rest.Some? && [k] + rest.value == [CommentToken(text)];
    assert ([k] + rest.value)[0] == k && |[k] + rest.value| == 1;
    assert rest == Some([]);
    LexNothing(w[i + 7..]);
  }

  /** A written comment reads back as itself exactly if it is legal. */
  lemma CommentReadsBackIff(text: string, enc: Encoding)
    ensures Lex(NormalizeLines("<!--" + Encode(text, enc) + "-->")) == Some([CommentToken(text)])
            <==> CommentLegal(text, enc)
  {
    if CommentLegal(text, enc) {
      LegalCommentReadsBack(text, enc);
    }
    if Lex(NormalizeLines("<!--" + Encode(text, enc) + "-->")) == Some([CommentToken(text)]) {
      CommentIsLegal(text, enc);
    }
    hide *;
  }

  lemma LegalCommentReadsBack(text: string, enc: Encoding)
    requires CommentLegal(text, enc)
    ensures Lex(NormalizeLines("<!--" + Encode(text, enc) + "-->")) == Some([CommentToken(text)])
  {
    var k := CommentToken(text);
    assert TokenLegal(k, enc);
    hide *;
    var w := RenderToken(k, enc);
    LexComment(text, enc, []);
    TokenHasNoCr(k, enc);
    NormalizeKeepsChars(w);
    assert w + [] == w;
    CommentAlone(text, enc);
  }

  lemma CommentAlone(text: string, enc: Encoding)
    ensures RenderToken(CommentToken(text), enc) == "<!--" + Encode(text, enc) + "-->"
    ensures Cons(CommentToken(text), Lex([])) == Some([CommentToken(text)])
  {
    assert [CommentToken(text)] + [] == [CommentToken(text)];
  }

  lemma CommentIsLegal(text: string, enc: Encoding)
    requires Lex(NormalizeLines("<!--" + Encode(text, enc) + "-->")) == Some([CommentToken(text)])
    ensures CommentLegal(text, enc)
  {
    hide Lex;
    var e := Encode(text, enc);
    var w := "<!--" + e + "-->";
    var s := NormalizeLines(w);
    Assoc("<!--", e, "-->");
    NormalizeNoCr("<!--", e + "-->");
    NormalizeKeepsChars(w);
    assert s[0] == '<' && s[1] == '!' && s[2] == '-' && s[3] == '-';
    hide NormalizeLines;
    OneCommentLexed(s, text);
    EncodeGrows(text, enc);
    ReadIsWritten(text, enc, s);
    WrittenIsLegal(text, enc);
  }

  /** A comment that is read back has no carriage return, so the file has none either. */
  lemma ReadIsWritten(text: string, enc: Encoding, s: string)
    requires '\r' !in s && |text| + 4 <= |s| && text == s[4..|text| + 4]
    requires var w := "<!--" + Encode(text, enc) + "-->";
      NormalizeLines(w) == s && ('\r' !in w ==> s == w) && |s| == |text| + 7
    ensures s == "<!--" + Encode(text, enc) + "-->" && |Encode(text, enc)| == |text|
  {
    assert '\r' !in text;
    EncodeGrows(text, enc);
  }

  lemma WrittenIsLegal(text: string, enc: Encoding)
    requires |Encode(text, enc)| == |text| && AllChars(text) && '\r' !in text
    requires FindDashes(("<!--" + Encode(text, enc) + "-->")[4..]) == Some(|text|)
    ensures CommentLegal(text, enc)
  {
    EncodeGrows(text, enc);
    EncodeEncodable(text, enc);
    hide Encode;
    hide AllChars;
    var r := text + "-->";
    Assoc("<!--", text, "-->");
    Cut("<!--", r);
    FirstDashes(r);
    hide FindDashes;
    assert forall j :: 0 <= j < |text| ==> r[j] == text[j];
    assert r[|text|] == '-';
  }

  predicate OwnLegal(t: Node, enc: Encoding) {
    && TextLegal(t.tail)
    && match t.tag
       case Comment => t.attrib == map[] && t.children == [] && t.text.Some? && CommentLegal(t.text.value, enc)
       case Name(name) =>
         && NameLegal(name) && Printable(name, enc) && TextLegal(t.text)
         && forall k <- t.attrib ::
              && NameLegal(k) && k != "xmlns" && Printable(k, enc)
              && AllChars(t.attrib[k]) && NoTabOrCr(t.attrib[k])
  }

  predicate TreeLegal(t: Node, enc: Encoding)
    decreases t, 1
  {
    OwnLegal(t, enc) && TreesLegal(t.children, enc)
  }

  predicate TreesLegal(ts: seq<Node>, enc: Encoding)
    decreases ts, 0
  {
    ts == [] || (TreeLegal(ts[0], enc) && TreesLegal(ts[1..], enc))
  }

  lemma {:induction false} TreeLegalIter(t: Node, enc: Encoding)
    requires TreeLegal(t, enc)
    ensures forall n <- Iter(t) :: OwnLegal(n, enc)
    decreases t, 1
  {
    hide OwnLegal;
    TreesLegalIter(t.children, enc);
  }

  lemma {:induction false} TreesLegalIter(ts: seq<Node>, enc: Encoding)
    requires TreesLegal(ts, enc)
    ensures forall n <- IterAll(ts) :: OwnLegal(n, enc)
    decreases ts, 0
  {
    hide OwnLegal;
    if ts != [] {
      TreeLegalIter(ts[0], enc);
      TreesLegalIter(ts[1..], enc);
    }
  }

  // ---------------------------------------------------------------------------
  // The events of a tree
  // ---------------------------------------------------------------------------

  function DataEvents(text: Option<string>): seq<Event> {
    if TextOf(text) == [] then [] else [DataEvent(text.value)]
  }

  /** What a parser reports for a tree; text that is empty is not reported. */
  function ParserEvents(t: Node): seq<Event>
    decreases t, 1
  {
    (match t.tag
     case Comment => [CommentEvent(TextOf(t.text))]
     case Name(name) =>
       [StartEvent(Delivered(name), DeliveredAttribs(t.attrib))] + DataEvents(t.text) + ParserEventsAll(t.children)
       + [EndEvent(Delivered(name))])
    + DataEvents(t.tail)
  }

  function ParserEventsAll(ts: seq<Node>): seq<Event>
    decreases ts, 0
  {
    if ts == [] then [] else ParserEvents(ts[0]) + ParserEventsAll(ts[1..])
  }

  // ---------------------------------------------------------------------------
  // The tokens of a legal tree are legal and read as its events
  // ---------------------------------------------------------------------------

  /** A position inside the root of a document written with table t. */
  ghost predicate Inside(p: Position, t: Table) {
    p.stack != [] && p.seenRoot && ScopeFor(ScopeAt(p), t.uris)
  }

  lemma ReadChars(p: Position, text: Option<string>)
    requires p.stack != []
    ensures ReadTokens(p, CharTokens(text)) == Some((p, DataEvents(text)))
  {
    if TextOf(text) != [] {
      ReadOne(p, Chars(text.value));
    }
  }

  lemma CharsLegal(text: Option<string>, enc: Encoding)
    requires TextLegal(text)
    ensures Legal(CharTokens(text), enc)
  {
  }

  /** An element with content: its start tag, its text, its children, its end tag. */
  lemma ReadContent(p: Position, q: Position, start: Token, e: Event, text: Option<string>, inner: seq<Token>,
                    events: seq<Event>, tag: string, name: string)
    requires StepToken(p, start) == Some((q, [e]))
    requires q.stack == p.stack + [Open(tag, ScopeAt(q))]
    requires ReadTokens(q, inner) == Some((q, events))
    requires Expand(tag, ScopeAt(q), false) == Some(name)
    ensures ReadTokens(p, [start] + CharTokens(text) + inner + [EndTag(tag)])
            == Some((Position(p.stack, q.seenRoot), [e] + DataEvents(text) + events + [EndEvent(name)]))
  {
    ReadOne(p, start);
    ReadChars(q, text);
    assert q.stack[..|q.stack| - 1] == p.stack;
    ReadOne(q, EndTag(tag));
    assert StepToken(q, EndTag(tag)) == Some((Position(p.stack, q.seenRoot), [EndEvent(name)]));
    hide StepToken;
    hide ReadTokens;
    hide Expand;
    ReadAppend(p, [start], CharTokens(text));
    ReadAppend(p, [start] + CharTokens(text), inner);
    ReadAppend(p, [start] + CharTokens(text) + inner, [EndTag(tag)]);
  }

  lemma ContentLegal(start: Token, text: Option<string>, inner: seq<Token>, end: Token, enc: Encoding)
    requires start.StartTag? && end.EndTag? && TokenLegal(start, enc) && TokenLegal(end, enc)
    requires TextLegal(text) && Legal(inner, enc)
    requires inner == [] || !inner[0].Chars?
    ensures Legal([start] + CharTokens(text) + inner + [end], enc)
  {
    CharsLegal(text, enc);
    assert Legal([start], enc) && Legal([end], enc);
    hide TokenLegal;
    LegalAppend([start], CharTokens(text), enc);
    LegalAppend([start] + CharTokens(text), inner, enc);
    LegalAppend([start] + CharTokens(text) + inner, [end], enc);
  }

  /** The tokens ks read as the events es at p and leave the position as it was, apart from seenRoot. */
  ghost predicate ReadsAs(p: Position, ks: seq<Token>, es: seq<Event>, enc: Encoding) {
    && Legal(ks, enc) && ks != [] && !ks[0].Chars?
    && ReadTokens(p, ks) == Some((p.(seenRoot := true), es))
  }

  /** A body that ends in markup, followed by the tail. */
  lemma WithTail(p: Position, ks: seq<Token>, es: seq<Event>, tail: Option<string>, enc: Encoding)
    requires p.stack != [] && p.seenRoot
    requires ReadsAs(p, ks, es, enc) && !ks[|ks| - 1].Chars? && TextLegal(tail)
    ensures ReadsAs(p, ks + CharTokens(tail), es + DataEvents(tail), enc)
  {
    CharsLegal(tail, enc);
    LegalAppend(ks, CharTokens(tail), enc);
    ReadAppend(p, ks, CharTokens(tail));
    ReadChars(p, tail);
    hide Legal;
    hide ReadTokens;
    hide CharTokens;
    hide DataEvents;
  }

  lemma OwnAttribLegal(t: Node, enc: Encoding)
    requires OwnLegal(t, enc) && t.tag.Name?
    ensures AttribLegal(t.attrib) && NameLegal(t.tag.name) && TextLegal(t.text) && TextLegal(t.tail)
  {
  }

  /** The element without its tail: with content, or as an empty-element tag. */
  function BodyTokens(t: Node, attribs: seq<(string, string)>, qnames: map<string, string>): seq<Token>
    requires t.tag.Name? && Covered(t, qnames)
  {
    var tag := qnames[t.tag.name];
    if TextOf(t.text) != [] || t.children != [] then
      [StartTag(tag, attribs, false)] + CharTokens(t.text) + TokensAll(t.children, qnames) + [EndTag(tag)]
    else [StartTag(tag, attribs, true)]
  }

  function BodyEvents(t: Node): seq<Event>
    requires t.tag.Name?
  {
    [StartEvent(Delivered(t.tag.name), DeliveredAttribs(t.attrib))] + DataEvents(t.text)
    + ParserEventsAll(t.children) + [EndEvent(Delivered(t.tag.name))]
  }

  /** The body of an element, given what its start tag and its children do. */
  lemma ReadBody(p: Position, scope: Scope, t: Node, attribs: seq<(string, string)>, table: Table,
                 reg: map<string, string>, enc: Encoding)
    requires Sound(table, reg) && OwnLegal(t, enc) && t.tag.Name? && Covered(t, table.qnames)
    requires ScopeFor(scope, table.uris) && AttribsLegal(attribs)
    requires var start := StartEvent(Delivered(t.tag.name), DeliveredAttribs(t.attrib));
      && StepStart(p, table.qnames[t.tag.name], attribs, true)
         == Some((p.(seenRoot := true), [start, EndEvent(Delivered(t.tag.name))]))
      && StepStart(p, table.qnames[t.tag.name], attribs, false)
         == Some((Position(p.stack + [Open(table.qnames[t.tag.name], scope)], true), [start]))
    requires var q := Position(p.stack + [Open(table.qnames[t.tag.name], scope)], true);
      && ReadTokens(q, TokensAll(t.children, table.qnames)) == Some((q, ParserEventsAll(t.children)))
      && Legal(TokensAll(t.children, table.qnames), enc)
      && (t.children != [] ==>
            TokensAll(t.children, table.qnames) != [] && !TokensAll(t.children, table.qnames)[0].Chars?)
    ensures ReadsAs(p, BodyTokens(t, attribs, table.qnames), BodyEvents(t), enc)
    ensures !BodyTokens(t, attribs, table.qnames)[|BodyTokens(t, attribs, table.qnames)| - 1].Chars?
  {
    var tag, name := table.qnames[t.tag.name], Delivered(t.tag.name);
    BodyTags(t, scope, attribs, table, reg, enc);
    hide Sound;
    hide OwnLegal;
    hide Expand;
    hide TokenLegal;
    hide StepStart;
    hide DeliveredAttribs;
    hide AttribsLegal;
    hide Covered;
    hide ScopeFor;
    hide IsName;
    hide TextLegal;
    var q := Position(p.stack + [Open(tag, scope)], true);
    assert ScopeAt(q) == scope;
    var inner := TokensAll(t.children, table.qnames);
    var start := StartEvent(name, DeliveredAttribs(t.attrib));
    assert StepToken(p, StartTag(tag, attribs, false)) == Some((q, [start]));
    if TextOf(t.text) == [] && t.children == [] {
      EmptyBody(p, StartTag(tag, attribs, true), [start, EndEvent(name)], enc);
      assert ParserEventsAll(t.children) == [] && DataEvents(t.text) == [];
      assert BodyEvents(t) == [start, EndEvent(name)];
    } else {
      FullBody(p, q, StartTag(tag, attribs, false), start, t.text, inner, ParserEventsAll(t.children), tag, name, enc);
    }
    hide ReadsAs;
  }

  lemma EmptyBody(p: Position, k: Token, es: seq<Event>, enc: Encoding)
    requires StepToken(p, k) == Some((p.(seenRoot := true), es)) && TokenLegal(k, enc) && !k.Chars?
    ensures ReadsAs(p, [k], es, enc)
  {
    hide StepToken;
    hide TokenLegal;
    ReadOne(p, k);
  }

  lemma FullBody(p: Position, q: Position, start: Token, e: Event, text: Option<string>, inner: seq<Token>,
                 events: seq<Event>, tag: string, name: string, enc: Encoding)
    requires start.StartTag? && TokenLegal(start, enc) && TokenLegal(EndTag(tag), enc)
    requires TextLegal(text) && Legal(inner, enc) && (inner == [] || !inner[0].Chars?)
    requires StepToken(p, start) == Some((q, [e]))
    requires q == Position(p.stack + [Open(tag, ScopeAt(q))], true)
    requires ReadTokens(q, inner) == Some((q, events))
    requires Expand(tag, ScopeAt(q), false) == Some(name)
    ensures ReadsAs(p, [start] + CharTokens(text) + inner + [EndTag(tag)],
                    [e] + DataEvents(text) + events + [EndEvent(name)], enc)
  {
    hide StepToken;
    hide TokenLegal;
    hide ReadTokens;
    hide Expand;
    hide Legal;
    hide TextLegal;
    ReadContent(p, q, start, e, text, inner, events, tag, name);
    ContentLegal(start, text, inner, EndTag(tag), enc);
    assert Position(p.stack, q.seenRoot) == p.(seenRoot := true);
  }

  lemma BodyTags(t: Node, scope: Scope, attribs: seq<(string, string)>, table: Table, reg: map<string, string>,
                 enc: Encoding)
    requires Sound(table, reg) && OwnLegal(t, enc) && t.tag.Name? && Covered(t, table.qnames)
    requires ScopeFor(scope, table.uris) && AttribsLegal(attribs)
    ensures var tag := table.qnames[t.tag.name];
      && TokenLegal(StartTag(tag, attribs, false), enc) && TokenLegal(StartTag(tag, attribs, true), enc)
      && TokenLegal(EndTag(tag), enc) && Expand(tag, scope, false) == Some(Delivered(t.tag.name))
    ensures TextLegal(t.text)
  {
    hide NameLegal;
    hide Printable;
    hide Expand;
    hide AttribsLegal;
    OwnAttribLegal(t, enc);
    PrintedResolves(t.tag.name, table, reg, scope, false);
  }

  lemma ReadComment(p: Position, t: Node, enc: Encoding)
    requires OwnLegal(t, enc) && t.tag.Comment? && p.seenRoot
    ensures ReadsAs(p, [CommentToken(t.text.value)], [CommentEvent(t.text.value)], enc)
  {
    ReadOne(p, CommentToken(t.text.value));
  }

  lemma EmptyAttribs(t: Node, qnames: map<string, string>)
    requires t.tag.Name? && Covered(t, qnames)
    ensures Tokens(t, qnames, map[])
            == BodyTokens(t, DeclAttribs(map[]) + PrintedAttribs(t.attrib, qnames), qnames) + CharTokens(t.tail)
    ensures ParserEvents(t) == BodyEvents(t) + DataEvents(t.tail)
  {
    hide DeclAttribs;
    hide PrintedAttribs;
  }

  lemma ReadCommentNode(p: Position, t: Node, qnames: map<string, string>, enc: Encoding)
    requires TreeLegal(t, enc) && t.tag.Comment? && p.stack != [] && p.seenRoot && Covered(t, qnames)
    ensures ReadsAs(p, Tokens(t, qnames, map[]), ParserEvents(t), enc)
  {
    ReadComment(p, t, enc);
    hide ReadsAs;
    WithTail(p, [CommentToken(t.text.value)], [CommentEvent(t.text.value)], t.tail, enc);
  }

  /** What the children of an element must do for the element to be read back. */
  ghost predicate ChildrenRead(q: Position, ts: seq<Node>, qnames: map<string, string>, enc: Encoding) {
    && CoveredAll(ts, qnames)
    && var inner := TokensAll(ts, qnames);
    && ReadTokens(q, inner) == Some((q, ParserEventsAll(ts)))
    && Legal(inner, enc)
    && (ts != [] ==> inner != [] && !inner[0].Chars?)
  }

  lemma ReadInner(p: Position, t: Node, table: Table, reg: map<string, string>, enc: Encoding)
    requires Sound(table, reg) && OwnLegal(t, enc) && t.tag.Name? && Covered(t, table.qnames) && Inside(p, table)
    requires ChildrenRead(Position(p.stack + [Open(table.qnames[t.tag.name], ScopeAt(p))], true),
                          t.children, table.qnames, enc)
    ensures ReadsAs(p, Tokens(t, table.qnames, map[]), ParserEvents(t), enc)
  {
    hide Sound;
    hide AttribLegal;
    hide NameLegal;
    hide ScopeFor;
    hide StepStart;
    hide DeclAttribs;
    hide PrintedAttribs;
    hide ReadsAs;
    hide Legal;
    hide Tokens;
    hide ParserEvents;
    OwnAttribLegal(t, enc);
    hide OwnLegal;
    var attribs := DeclAttribs(map[]) + PrintedAttribs(t.attrib, table.qnames);
    InnerSteps(p, t.tag.name, t.attrib, true, table, reg);
    InnerSteps(p, t.tag.name, t.attrib, false, table, reg);
    assert p.(seenRoot := true) == p;
    ReadBody(p, ScopeAt(p), t, attribs, table, reg, enc);
    WithTail(p, BodyTokens(t, attribs, table.qnames), BodyEvents(t), t.tail, enc);
    EmptyAttribs(t, table.qnames);
  }

  /** Every element inside the root is read back as the events of its tree. */
  lemma {:induction false} ReadTree(p: Position, t: Node, table: Table, reg: map<string, string>, enc: Encoding)
    requires Sound(table, reg) && TreeLegal(t, enc) && Covered(t, table.qnames) && Inside(p, table)
    ensures ReadsAs(p, Tokens(t, table.qnames, map[]), ParserEvents(t), enc)
    decreases t, 1
  {
    hide Sound;
    hide OwnLegal;
    hide ReadsAs;
    hide Tokens;
    hide ParserEvents;
    if t.tag.Comment? {
      ReadCommentNode(p, t, table.qnames, enc);
    } else {
      var q := Position(p.stack + [Open(table.qnames[t.tag.name], ScopeAt(p))], true);
      ReadTrees(q, t.children, table, reg, enc);
      ReadInner(p, t, table, reg, enc);
    }
  }

  lemma {:induction false} ReadTrees(p: Position, ts: seq<Node>, table: Table, reg: map<string, string>, enc: Encoding)
    requires Sound(table, reg) && TreesLegal(ts, enc) && CoveredAll(ts, table.qnames) && Inside(p, table)
    ensures ReadTokens(p, TokensAll(ts, table.qnames)) == Some((p, ParserEventsAll(ts)))
    ensures Legal(TokensAll(ts, table.qnames), enc)
    ensures ts != [] ==> TokensAll(ts, table.qnames) != [] && !TokensAll(ts, table.qnames)[0].Chars?
    decreases ts, 0
  {
    if ts != [] {
      ReadTree(p, ts[0], table, reg, enc);
      ReadTrees(p, ts[1..], table, reg, enc);
      hide Sound;
      hide TreeLegal;
      hide Tokens;
      hide ParserEvents;
      var a, b := Tokens(ts[0], table.qnames, map[]), TokensAll(ts[1..], table.qnames);
      ReadAppend(p, a, b);
      LegalAppend(a, b, enc);
    }
  }

  // ---------------------------------------------------------------------------
  // The root and the document
  // ---------------------------------------------------------------------------

  /** A root that a document can have: an element that is not a comment, without tail. */
  predicate RootLegal(t: Node, enc: Encoding) {
    TreeLegal(t, enc) && t.tag.Name? && TextOf(t.tail) == []
  }

  lemma RootTokens(t: Node, table: Table)
    requires t.tag.Name? && Covered(t, table.qnames) && TextOf(t.tail) == []
    ensures Tokens(t, table.qnames, table.uris)
            == BodyTokens(t, DeclAttribs(table.uris) + PrintedAttribs(t.attrib, table.qnames), table.qnames)
    ensures ParserEvents(t) == BodyEvents(t)
  {
    hide DeclAttribs;
    hide PrintedAttribs;
    assert CharTokens(t.tail) == [] && DataEvents(t.tail) == [];
  }

  /** The whole document element is read back as the events of its tree. */
  lemma ReadRoot(t: Node, table: Table, reg: map<string, string>, enc: Encoding)
    requires Sound(table, reg) && RootLegal(t, enc) && Covered(t, table.qnames)
    ensures ReadsAs(OUTSIDE, Tokens(t, table.qnames, table.uris), ParserEvents(t), enc)
  {
    hide Sound;
    hide ReadsAs;
    hide StepStart;
    hide AttribLegal;
    hide NameLegal;
    hide DeclAttribs;
    hide PrintedAttribs;
    hide Bind;
    hide DeclItems;
    hide Legal;
    OwnAttribLegal(t, enc);
    hide OwnLegal;
    var scope := Bind(TOP_SCOPE, DeclItems(table.uris));
    var attribs := DeclAttribs(table.uris) + PrintedAttribs(t.attrib, table.qnames);
    var q := Position([Open(table.qnames[t.tag.name], scope)], true);
    RootScope(table, reg);
    RootSteps(t.tag.name, t.attrib, true, table, reg);
    RootSteps(t.tag.name, t.attrib, false, table, reg);
    assert ScopeAt(q) == scope;
    ReadTrees(q, t.children, table, reg, enc);
    assert OUTSIDE.stack + [Open(table.qnames[t.tag.name], scope)] == [Open(table.qnames[t.tag.name], scope)];
    ReadBody(OUTSIDE, scope, t, attribs, table, reg, enc);
    RootTokens(t, table);
  }

  function CommentEvents(comments: seq<string>): seq<Event> {
    seq(|comments|, i requires 0 <= i < |comments| => CommentEvent(comments[i]))
  }

  /** Texts that are all present. */
  function Present(xs: seq<string>): seq<Option<string>> {
    seq(|xs|, i requires 0 <= i < |xs| => Some(xs[i]))
  }

  /** The comments before the root, each on a line of its own. */
  function PrologueTokens(comments: seq<string>): seq<Token> {
    if comments == [] then [] else [CommentToken(comments[0]), Chars("\n")] + PrologueTokens(comments[1..])
  }

  ghost predicate CommentsLegal(comments: seq<string>, enc: Encoding) {
    forall i :: 0 <= i < |comments| ==> CommentLegal(comments[i], enc)
  }

  lemma NewlineIsItself(enc: Encoding)
    ensures Escape(Cdata, "\n", enc) == "\n"
  {
    EscapeOne(Cdata, '\n', enc);
  }

  lemma {:induction false} PrologueIsRendered(comments: seq<string>, enc: Encoding)
    ensures WriteComments(Present(comments), enc) == Success(Render(PrologueTokens(comments), enc))
  {
    if comments != [] {
      PrologueIsRendered(comments[1..], enc);
      assert Present(comments)[1..] == Present(comments[1..]);
      var two := [CommentToken(comments[0]), Chars("\n")];
      RenderAppend(two, PrologueTokens(comments[1..]), enc);
      NewlineIsItself(enc);
      assert two == [two[0]] + [two[1]];
      RenderAppend([two[0]], [two[1]], enc);
      RenderOne(two[0], enc);
      RenderOne(two[1], enc);
    }
  }

  /** One comment before the root and its newline. */
  lemma ReadPrologueOne(comment: string, enc: Encoding)
    requires CommentLegal(comment, enc)
    ensures var two := [CommentToken(comment), Chars("\n")];
      ReadTokens(OUTSIDE, two) == Some((OUTSIDE, [CommentEvent(comment)])) && Legal(two, enc)
  {
    var two := [CommentToken(comment), Chars("\n")];
    assert two[1..] == [two[1]];
    ReadOne(OUTSIDE, two[1]);
    assert [CommentEvent(comment)] + [] == [CommentEvent(comment)];
  }

  lemma {:induction false} ReadPrologue(comments: seq<string>, enc: Encoding)
    requires CommentsLegal(comments, enc)
    ensures ReadTokens(OUTSIDE, PrologueTokens(comments)) == Some((OUTSIDE, CommentEvents(comments)))
    ensures Legal(PrologueTokens(comments), enc)
    ensures comments != [] ==> PrologueTokens(comments) != [] && !PrologueTokens(comments)[0].Chars?
  {
    if comments != [] {
      var two := [CommentToken(comments[0]), Chars("\n")];
      ReadPrologue(comments[1..], enc);
      assert CommentLegal(comments[0], enc);
      hide CommentLegal;
      ReadPrologueOne(comments[0], enc);
      ReadAppend(OUTSIDE, two, PrologueTokens(comments[1..]));
      PrologueStart(comments[1..]);
      hide Legal;
      hide ReadTokens;
      LegalAfter(two, PrologueTokens(comments[1..]), enc);
      assert CommentEvents(comments) == [CommentEvent(comments[0])] + CommentEvents(comments[1..]);
    } else {
      assert CommentEvents(comments) == [];
    }
  }

  lemma LegalAfter(a: seq<Token>, b: seq<Token>, enc: Encoding)
    requires Legal(a, enc) && Legal(b, enc) && (b != [] ==> !b[0].Chars?)
    ensures Legal(a + b, enc)
  {
    LegalAppend(a, b, enc);
  }

  /** The markup of a document after the XML declaration. */
  function DocumentTokens(comments: seq<string>, root: Node, table: Table, declared: bool): seq<Token>
    requires Covered(root, table.qnames)
  {
    (if declared then [Chars("\n")] else []) + (PrologueTokens(comments) + Tokens(root, table.qnames, table.uris))
  }

  /** Two stretches of markup outside the root or around it, one after the other. */
  lemma ReadBoth(a: seq<Token>, es: seq<Event>, b: seq<Token>, fs: seq<Event>, p: Position, enc: Encoding)
    requires ReadTokens(OUTSIDE, a) == Some((OUTSIDE, es)) && ReadTokens(OUTSIDE, b) == Some((p, fs))
    requires Legal(a, enc) && Legal(b, enc) && b != [] && !b[0].Chars?
    ensures ReadTokens(OUTSIDE, a + b) == Some((p, es + fs))
    ensures Legal(a + b, enc)
  {
    hide TokenLegal;
    ReadAppend(OUTSIDE, a, b);
    LegalAppend(a, b, enc);
  }

  lemma FirstNewline(enc: Encoding)
    ensures ReadTokens(OUTSIDE, [Chars("\n")]) == Some((OUTSIDE, [])) && Legal([Chars("\n")], enc)
  {
    ReadOne(OUTSIDE, Chars("\n"));
  }

  lemma ReadDocumentTokens(comments: seq<string>, root: Node, table: Table, reg: map<string, string>, enc: Encoding,
                           declared: bool)
    requires Sound(table, reg) && RootLegal(root, enc) && Covered(root, table.qnames) && CommentsLegal(comments, enc)
    ensures Legal(DocumentTokens(comments, root, table, declared), enc)
    ensures ReadTokens(OUTSIDE, DocumentTokens(comments, root, table, declared))
            == Some((OUTSIDE.(seenRoot := true), CommentEvents(comments) + ParserEvents(root)))
    ensures !declared ==> !DocumentTokens(comments, root, table, declared)[0].Chars?
  {
    hide Sound;
    hide RootLegal;
    hide CommentsLegal;
    hide Covered;
    hide Legal;
    hide ReadTokens;
    hide PrologueTokens;
    hide Tokens;
    hide ParserEvents;
    hide CommentEvents;
    ReadRoot(root, table, reg, enc);
    ReadPrologue(comments, enc);
    var prologue, body := PrologueTokens(comments), Tokens(root, table.qnames, table.uris);
    var es := CommentEvents(comments) + ParserEvents(root);
    ReadBoth(prologue, CommentEvents(comments), body, ParserEvents(root), OUTSIDE.(seenRoot := true), enc);
    if declared {
      FirstNewline(enc);
      assert (prologue + body)[0] == if prologue == [] then body[0] else prologue[0];
      assert !(prologue + body)[0].Chars? by {
        PrologueStart(comments);
      }
      ReadBoth([Chars("\n")], [], prologue + body, es, OUTSIDE.(seenRoot := true), enc);
      assert [] + es == es;
    } else {
      assert [] + (prologue + body) == prologue + body;
      PrologueStart(comments);
    }
  }

  lemma PrologueStart(comments: seq<string>)
    ensures PrologueTokens(comments) != [] ==> !PrologueTokens(comments)[0].Chars?
  {
  }

  /** Letters, digits and a few other characters that stand for themselves. */
  predicate IsPlain(value: string) {
    forall i :: 0 <= i < |value| ==> IsNameChar(value[i]) && value[i] as int < 0x80
  }

  lemma {:induction false} PlainDecodes(value: string)
    requires IsPlain(value)
    ensures Decode(Attrib, value) == Some(value) && '\'' !in value && '>' !in value
  {
    if value != [] {
      PlainDecodes(value[1..]);
      assert value == [value[0]] + value[1..];
    }
  }

  /** A name and a value in single quotes, as in a declaration. */
  function Said(name: string, value: string): string {
    " " + (name + ("='" + (value + "'")))
  }

  lemma SaidScans(name: string, value: string, rest: string)
    requires IsName(name) && IsPlain(value)
    ensures ScanAttribs(Said(name, value) + rest) ==
      if ScanAttribs(rest).None? then None
      else Some(([(name, value)] + ScanAttribs(rest).value.0, ScanAttribs(rest).value.1))
  {
    hide ScanAttribs;
    hide ScanValue;
    hide IsName;
    hide Decode;
    var v := "='" + (value + ("'" + rest));
    PlainDecodes(value);
    hide IsPlain;
    SingleQuoted(value, rest);
    AttribSteps(name, v);
    Assoc(value, "'", rest);
    Assoc("='", value + "'", rest);
    Assoc(name, "='" + (value + "'"), rest);
    Assoc(" ", name + ("='" + (value + "'")), rest);
  }

  lemma SingleQuoted(raw: string, rest: string)
    requires '\'' !in raw && Decode(Attrib, raw) == Some(raw)
    ensures ScanValue("='" + (raw + ("'" + rest))) == Some((raw, rest))
  {
    hide Decode;
    var r := raw + (['\''] + rest);
    var r2, s := "'" + r, "='" + r;
    assert s[1..] == r2 && r2[1..] == r && SkipSpace(s) == s && SkipSpace(r2) == r2;
    FindIn(raw, '\'', rest);
    hide Find;
    hide SkipSpace;
  }

  lemma NothingScans()
    ensures ScanAttribs(">") == Some(([], ">"))
  {
  }

  /** The declaration without its last character. */
  function DeclarationOf(encoding: string): string {
    "<?xml" + (Said("version", "1.0") + Said("encoding", encoding)) + "?"
  }

  lemma WrittenDeclaration(enc: Encoding)
    ensures "<?xml version='1.0' encoding='" + EncodingName(enc) + "'?>" == DeclarationOf(EncodingName(enc)) + ">"
    ensures IsPlain(EncodingName(enc))
  {
    var n := EncodingName(enc);
    assert IsPlain(n);
    hide EncodingName;
    hide IsPlain;
    SaidVersion();
    SaidEncoding(n);
    hide Said;
    DeclarationStart();
    Pieces("<?xml", " version='1.0'", " encoding='", n, "'", "?", ">");
    hide *;
  }

  lemma DeclarationStart()
    ensures "<?xml version='1.0' encoding='" == "<?xml" + " version='1.0'" + " encoding='" && "'?>" == "'" + ("?" + ">")
  {
  }

  lemma Pieces(a: string, b: string, c: string, n: string, q: string, e: string, z: string)
    ensures a + b + c + n + (q + (e + z)) == a + (b + (c + (n + q))) + e + z
  {
    Assoc(c, n, q);
    Assoc(b, c, n + q);
    Assoc(a, b + c, n + q);
    Assoc(a, b, c);
    Assoc(a + b + c, n, q);
    Assoc(a + b + c + n + q, e, z);
    Assoc(a + b + c + n, q, e + z);
  }

  lemma SaidVersion()
    ensures Said("version", "1.0") == " version='1.0'"
  {
  }

  lemma SaidEncoding(n: string)
    ensures Said("encoding", n) == " encoding='" + (n + "'")
  {
    assert " " + ("encoding" + "='") == " encoding='";
  }

  /** What a reader finds in a declaration. */
  lemma DeclarationReads(encoding: string, rest: string)
    requires IsPlain(encoding)
    ensures ReadDeclaration(DeclarationOf(encoding) + (">" + rest))
            == Some(([("version", "1.0"), ("encoding", encoding)], rest))
  {
    var d, inside := DeclarationOf(encoding), Said("version", "1.0") + Said("encoding", encoding);
    var s := d + ([">"[0]] + rest);
    NoAngle(encoding);
    FindIn(d, '>', rest);
    InsideScans(encoding);
    hide ScanAttribs;
    hide Find;
    hide Said;
    assert "<?xml " <= s && d[5..|d| - 1] == inside && d[|d| - 1] == '?' by {
      DeclarationShape(encoding);
    }
    assert s[5..|d| - 1] == d[5..|d| - 1];
    assert [">"[0]] + rest == ">" + rest;
    assert s[..|d|] == d;
  }

  lemma DeclarationShape(encoding: string)
    ensures var d := DeclarationOf(encoding);
      "<?xml " <= d && d[5..|d| - 1] == Said("version", "1.0") + Said("encoding", encoding) && d[|d| - 1] == '?'
  {
  }

  lemma NoAngle(encoding: string)
    requires IsPlain(encoding)
    ensures '>' !in DeclarationOf(encoding)
  {
    PlainDecodes(encoding);
  }

  lemma InsideScans(encoding: string)
    requires IsPlain(encoding)
    ensures ScanAttribs(Said("version", "1.0") + Said("encoding", encoding) + ">")
            == Some(([("version", "1.0"), ("encoding", encoding)], ">"))
  {
    hide ScanAttribs;
    hide Said;
    hide IsName;
    hide IsPlain;
    NamesSaid();
    SaidScans("encoding", encoding, ">");
    SaidScans("version", "1.0", Said("encoding", encoding) + ">");
    NothingScans();
    Assoc(Said("version", "1.0"), Said("encoding", encoding), ">");
    assert [("encoding", encoding)] + [] == [("encoding", encoding)];
    assert [("version", "1.0")] + [("encoding", encoding)] == [("version", "1.0"), ("encoding", encoding)];
  }

  lemma NamesSaid()
    ensures IsName("version") && IsName("encoding") && IsPlain("1.0")
  {
  }

  /** The reader skips the declaration that is written, if it names an encoding that has all characters. */
  lemma DeclarationSkipped(enc: Encoding, rest: string)
    requires Held(rest, enc)
    ensures var s := "<?xml version='1.0' encoding='" + EncodingName(enc) + "'?>" + rest;
      SkipDeclaration(s) == Some(rest) && DeclaredEncoding(s) == Some(EncodingName(enc))
  {
    var n := EncodingName(enc);
    WrittenDeclaration(enc);
    DeclarationReads(n, rest);
    var s := DeclarationOf(n) + (">" + rest);
    Assoc(DeclarationOf(n), ">", rest);
    DeclarationShape(n);
    assert "<?xml " <= s;
    assert [("version", "1.0"), ("encoding", n)][1..] == [("encoding", n)];
    assert ValueOf([("version", "1.0"), ("encoding", n)], "encoding") == Some(n);
    DeclarationHeld(n);
    if n == "us-ascii" {
      NameSaysEncoding(enc);
      HeldAppend(DeclarationOf(n) + ">", rest, Ascii);
    }
    hide ReadDeclaration;
    hide DeclarationOf;
    hide Held;
  }

  lemma NameSaysEncoding(enc: Encoding)
    ensures EncodingName(enc) == "us-ascii" <==> enc == Ascii
  {
    assert |"us-ascii"| == 8 && |"utf-8"| == 5;
  }

  lemma DeclarationHeld(encoding: string)
    requires IsPlain(encoding)
    ensures Held(DeclarationOf(encoding) + ">", Ascii)
  {
    assert Held(encoding, Ascii);
    assert Held("<?xml", Ascii) && Held(Said("version", "1.0"), Ascii) && Held("?", Ascii) && Held(">", Ascii);
    assert Held(" encoding='", Ascii) && Held("'", Ascii);
    SaidEncoding(encoding);
    hide Held;
    hide Said;
    HeldAppend(encoding, "'", Ascii);
    HeldAppend(" encoding='", encoding + "'", Ascii);
    HeldAppend(Said("version", "1.0"), Said("encoding", encoding), Ascii);
    HeldAppend("<?xml", Said("version", "1.0") + Said("encoding", encoding), Ascii);
    HeldAppend("<?xml" + (Said("version", "1.0") + Said("encoding", encoding)), "?", Ascii);
    HeldAppend(DeclarationOf(encoding), ">", Ascii);
  }

  lemma MarkupStart(k: Token, enc: Encoding)
    requires TokenLegal(k, enc) && !k.Chars?
    ensures var r := RenderToken(k, enc); |r| >= 2 && r[0] == '<' && r[1] != '?'
  {
  }

  lemma NoDeclaration(ks: seq<Token>, enc: Encoding)
    requires Legal(ks, enc) && (ks != [] ==> !ks[0].Chars?)
    ensures SkipDeclaration(Render(ks, enc)) == Some(Render(ks, enc)) && DeclaredEncoding(Render(ks, enc)) == None
  {
    if ks != [] {
      MarkupStart(ks[0], enc);
      var s := Render(ks, enc);
      assert s[1] == RenderToken(ks[0], enc)[1];
      assert "<?xml "[1] == '?';
    }
  }

  /** The table built for a legal tree is sound and complete. */
  lemma TableForTree(root: Node, names: seq<seq<string>>, reg: map<string, string>, enc: Encoding)
    requires RegistryInv(reg) && Declarable(reg) && RegistryEncodable(reg, enc)
    requires Visits(Iter(root), names) && TreeLegal(root, enc)
    ensures var r := AddNames(EMPTY_TABLE, Flatten(names), reg, enc);
      r.Success? && Sound(r.value, reg) && Covered(root, r.value.qnames)
  {
    TreeLegalIter(root, enc);
    forall q <- Flatten(names)
      ensures NameLegal(q) && PrintableWith(q, reg, enc)
    {
      VisitMeetsAll(Iter(root), names, q);
      var n :| n in Iter(root) && (n.tag == Name(q) || q in n.attrib);
      assert OwnLegal(n, enc);
    }
    EmptyTableOk(reg);
    AddNamesSucceeds(EMPTY_TABLE, Flatten(names), reg, enc);
    AddNamesKeepsOk(EMPTY_TABLE, Flatten(names), reg, enc);
    UrisAreLegal(EMPTY_TABLE, Flatten(names), reg, enc);
    forall n <- Iter(root) | n.tag.Comment?
      ensures n.text.Some?
    {
      assert OwnLegal(n, enc);
    }
    LookupsSucceed(root, names, reg, enc);
  }

  /** For every legal document, every registry that can be declared, every order of the attributes and either
      encoding: writing succeeds, and the characters read as the comments before the root followed by the
      events of the tree. */
  lemma WriteReadsBack(comments: seq<string>, root: Node, names: seq<seq<string>>, reg: map<string, string>,
                       encoding: Option<Encoding>, declare: Option<bool>)
    requires RegistryInv(reg) && Declarable(reg) && Visits(Iter(root), names)
    requires var enc := if encoding.Some? then encoding.value else Ascii;
      RegistryEncodable(reg, enc) && RootLegal(root, enc) && CommentsLegal(comments, enc)
    ensures var r := Write(Present(comments), root, names, reg, encoding, declare, Xml);
      r.Success? && ReadDocument(r.value) == Some(CommentEvents(comments) + ParserEvents(root))
  {
    var enc := if encoding.Some? then encoding.value else Ascii;
    TableForTree(root, names, reg, enc);
    var table := AddNames(EMPTY_TABLE, Flatten(names), reg, enc).value;
    var declared := encoding.Some? && declare == Some(true);
    SerializeIsRender(root, enc, table.qnames, table.uris);
    PrologueIsRendered(comments, enc);
    ReadDocumentTokens(comments, root, table, reg, enc, false);
    ReadDocumentTokens(comments, root, table, reg, enc, true);
    hide *;
    WrittenForm(comments, root, names, reg, encoding, declare, table, enc);
    var ks := DocumentTokens(comments, root, table, declared);
    var out := Write(Present(comments), root, names, reg, encoding, declare, Xml).value;
    DocumentHeld(comments, root, names, reg, table, enc, declared);
    WrittenReads(out, ks, enc, declared);
    ReadsEvents(out, ks, OUTSIDE.(seenRoot := true), CommentEvents(comments) + ParserEvents(root));
  }

  /** The characters of a written document: the declaration, without its final newline, and the markup. */
  lemma WrittenForm(comments: seq<string>, root: Node, names: seq<seq<string>>, reg: map<string, string>,
                    encoding: Option<Encoding>, declare: Option<bool>, table: Table, enc: Encoding)
    requires enc == if encoding.Some? then encoding.value else Ascii
    requires AddNames(EMPTY_TABLE, Flatten(names), reg, enc) == Success(table) && Covered(root, table.qnames)
    requires SerializeXml(root, enc, table.qnames, table.uris)
             == Success(Render(Tokens(root, table.qnames, table.uris), enc))
    requires WriteComments(Present(comments), enc) == Success(Render(PrologueTokens(comments), enc))
    ensures var declared := encoding.Some? && declare == Some(true);
      Write(Present(comments), root, names, reg, encoding, declare, Xml) == Success(
        (if declared then "<?xml version='1.0' encoding='" + EncodingName(enc) + "'?>" else [])
        + Render(DocumentTokens(comments, root, table, declared), enc))
  {
    hide AddNames;
    hide SerializeXml;
    hide WriteComments;
    hide Covered;
    hide Tokens;
    var prologue, body := PrologueTokens(comments), Tokens(root, table.qnames, table.uris);
    hide PrologueTokens;
    var text := Render(prologue, enc) + Render(body, enc);
    RenderAppend(prologue, body, enc);
    RenderAppend([Chars("\n")], prologue + body, enc);
    RenderOne(Chars("\n"), enc);
    NewlineIsItself(enc);
    assert [] + (prologue + body) == prologue + body;
    hide Render;
    var d := "<?xml version='1.0' encoding='" + EncodingName(enc);
    assert d + "'?>\n" == d + "'?>" + "\n";
    Assoc(d + "'?>", "\n", text);
    assert [] + text == text;
  }

  lemma DeclarationHasNoCr(enc: Encoding)
    ensures '\r' !in "<?xml version='1.0' encoding='" + EncodingName(enc) + "'?>"
  {
  }

  lemma {:induction false} PrologueHeld(comments: seq<string>, enc: Encoding)
    ensures forall k <- PrologueTokens(comments) :: TokenHeld(k, enc)
  {
    if comments != [] {
      PrologueHeld(comments[1..], enc);
    }
  }

  /** The encoding has every character of the markup. */
  lemma DocumentHeld(comments: seq<string>, root: Node, names: seq<seq<string>>, reg: map<string, string>,
                     table: Table, enc: Encoding, declared: bool)
    requires AddNames(EMPTY_TABLE, Flatten(names), reg, enc) == Success(table) && Covered(root, table.qnames)
    ensures Held(Render(DocumentTokens(comments, root, table, declared), enc), enc)
  {
    hide AddNames;
    hide Held;
    hide Covered;
    hide Tokens;
    AddNamesHeld(EMPTY_TABLE, Flatten(names), reg, enc);
    TokensHeld(root, table.qnames, table.uris, enc);
    PrologueHeld(comments, enc);
    assert TokenHeld(Chars("\n"), enc);
    hide TokenHeld;
    hide PrologueTokens;
    RenderHeld(DocumentTokens(comments, root, table, declared), enc);
  }

  lemma WrittenReads(out: string, ks: seq<Token>, enc: Encoding, declared: bool)
    requires Held(Render(ks, enc), enc)
    requires Legal(ks, enc) && (!declared && ks != [] ==> !ks[0].Chars?)
    requires out == (if declared then "<?xml version='1.0' encoding='" + EncodingName(enc) + "'?>" else [])
                    + Render(ks, enc)
    ensures SkipDeclaration(NormalizeLines(out)) == Some(Render(ks, enc)) && Lex(Render(ks, enc)) == Some(ks)
  {
    RenderHasNoCr(ks, enc);
    LexRender(ks, enc);
    if !declared {
      NoDeclaration(ks, enc);
      assert out == Render(ks, enc);
    }
    hide *;
    DeclarationHasNoCr(enc);
    DeclarationSkipped(enc, Render(ks, enc));
    NormalizeKeepsChars(out);
  }

  lemma ReadsEvents(out: string, ks: seq<Token>, p: Position, es: seq<Event>)
    requires SkipDeclaration(NormalizeLines(out)).Some?
    requires Lex(SkipDeclaration(NormalizeLines(out)).value) == Some(ks)
    requires ReadTokens(OUTSIDE, ks) == Some((p, es)) && p.stack == [] && p.seenRoot
    ensures ReadDocument(out) == Some(es)
  {
    hide SkipDeclaration;
    hide NormalizeLines;
    hide Lex;
    hide ReadTokens;
  }

  // ---------------------------------------------------------------------------
  // The encoding that is named, and the characters that are written
  // ---------------------------------------------------------------------------

  /** The first line of every file that is written: the encoding that was asked for, if a declaration was asked for
      as well; and the rest does not depend on the declaration. */
  lemma WriteDeclares(comments: seq<Option<string>>, root: Node, names: seq<seq<string>>, reg: map<string, string>,
                      encoding: Option<Encoding>, declare: Option<bool>, output: Output)
    requires Write(comments, root, names, reg, encoding, declare, output).Success?
    ensures var out := Write(comments, root, names, reg, encoding, declare, output).value;
      var bare := Write(comments, root, names, reg, encoding, None, output);
      && bare.Success?
      && out ==
         (if output == Xml && declare == Some(true) && encoding == Some(Utf8) then
            "<?xml version='1.0' encoding='utf-8'?>\n"
          else if output == Xml && declare == Some(true) && encoding == Some(Ascii) then
            "<?xml version='1.0' encoding='us-ascii'?>\n"
          else "") + bare.value
  {
    DeclarationLine(encoding, declare, output);
    hide WriteComments;
    hide SerializeXml;
    hide SerializeText;
    hide AddNames;
    hide EncodingName;
    hide WriteDeclaration;
    var bare := Write(comments, root, names, reg, encoding, None, output).value;
    assert WriteDeclaration(encoding, None, output) == [] by {
      NoDeclarationLine(encoding, output);
    }
    assert [] + bare == bare;
  }

  lemma NoDeclarationLine(encoding: Option<Encoding>, output: Output)
    ensures WriteDeclaration(encoding, None, output) == []
  {
  }

  lemma DeclarationLine(encoding: Option<Encoding>, declare: Option<bool>, output: Output)
    ensures WriteDeclaration(encoding, declare, output) ==
      if output == Xml && declare == Some(true) && encoding == Some(Utf8) then
        "<?xml version='1.0' encoding='utf-8'?>\n"
      else if output == Xml && declare == Some(true) && encoding == Some(Ascii) then
        "<?xml version='1.0' encoding='us-ascii'?>\n"
      else ""
  {
    if output == Xml && declare == Some(true) && encoding.Some? {
      DeclarationPieces();
      match encoding.value {
        case Utf8 =>
        case Ascii =>
      }
    }
  }

  lemma DeclarationPieces()
    ensures "<?xml version='1.0' encoding='" + "utf-8" + "'?>\n" == "<?xml version='1.0' encoding='utf-8'?>\n"
    ensures "<?xml version='1.0' encoding='" + "us-ascii" + "'?>\n" == "<?xml version='1.0' encoding='us-ascii'?>\n"
  {
  }

  lemma {:induction false} CommentsHeld(comments: seq<Option<string>>, enc: Encoding)
    ensures WriteComments(comments, enc).Success? ==> Held(WriteComments(comments, enc).value, enc)
  {
    if comments != [] && WriteComments(comments, enc).Success? {
      CommentsHeld(comments[1..], enc);
      EncodeIsHeld(comments[0].value, enc);
      assert Held("<!--", enc) && Held("-->", enc) && Held("\n", enc);
      hide Held;
      hide Encode;
      var e := Encode(comments[0].value, enc);
      HeldAppend("<!--", e, enc);
      HeldAppend("<!--" + e, "-->", enc);
      HeldAppend("<!--" + e + "-->", "\n", enc);
      HeldAppend("<!--" + e + "-->" + "\n", WriteComments(comments[1..], enc).value, enc);
    }
  }

  lemma BodyHeld(root: Node, names: seq<seq<string>>, reg: map<string, string>, enc: Encoding)
    ensures AddNames(EMPTY_TABLE, Flatten(names), reg, enc).Success? ==>
      var t := AddNames(EMPTY_TABLE, Flatten(names), reg, enc).value;
      SerializeXml(root, enc, t.qnames, t.uris).Success? ==> Held(SerializeXml(root, enc, t.qnames, t.uris).value, enc)
  {
    var r := AddNames(EMPTY_TABLE, Flatten(names), reg, enc);
    if r.Success? {
      AddNamesHeld(EMPTY_TABLE, Flatten(names), reg, enc);
      hide AddNames;
      hide Held;
      var t := r.value;
      SerializeIsRender(root, enc, t.qnames, t.uris);
      hide SerializeXml;
      if Covered(root, t.qnames) {
        TokensHeld(root, t.qnames, t.uris, enc);
        hide TokenHeld;
        RenderHeld(Tokens(root, t.qnames, t.uris), enc);
      }
    }
  }

  /** What is written after the comments. */
  lemma WrittenBody(comments: seq<Option<string>>, root: Node, names: seq<seq<string>>, reg: map<string, string>,
                    encoding: Option<Encoding>, declare: Option<bool>, output: Output, enc: Encoding)
      returns (body: string)
    requires enc == if encoding.Some? then encoding.value else Ascii
    requires Write(comments, root, names, reg, encoding, declare, output).Success?
    ensures WriteComments(comments, enc).Success? && Held(body, enc)
    ensures Write(comments, root, names, reg, encoding, declare, output).value
            == WriteDeclaration(encoding, declare, output) + (WriteComments(comments, enc).value + body)
  {
    BodyHeld(root, names, reg, enc);
    hide WriteComments;
    hide SerializeXml;
    hide AddNames;
    hide WriteDeclaration;
    hide IterText;
    if output.Text? {
      body := SerializeText(root, enc).value;
    } else {
      var table := AddNames(EMPTY_TABLE, Flatten(names), reg, enc).value;
      hide Held;
      body := SerializeXml(root, enc, table.qnames, table.uris).value;
    }
  }

  /** Whatever is written, the encoding has every character of it; without an encoding argument that is us-ascii. */
  lemma WrittenIsHeld(comments: seq<Option<string>>, root: Node, names: seq<seq<string>>, reg: map<string, string>,
                      encoding: Option<Encoding>, declare: Option<bool>, output: Output)
    requires Write(comments, root, names, reg, encoding, declare, output).Success?
    ensures encoding != Some(Utf8) ==>
      forall c <- Write(comments, root, names, reg, encoding, declare, output).value :: c as int < 128
  {
    var enc := if encoding.Some? then encoding.value else Ascii;
    var out := Write(comments, root, names, reg, encoding, declare, output).value;
    hide *;
    var body := WrittenBody(comments, root, names, reg, encoding, declare, output, enc);
    CommentsHeld(comments, enc);
    LineHeld(encoding, declare, output, enc);
    var line, prologue := WriteDeclaration(encoding, declare, output), WriteComments(comments, enc).value;
    HeldAppend(prologue, body, enc);
    HeldAppend(line, prologue + body, enc);
    if encoding != Some(Utf8) {
      HeldIsAscii(out);
      assert enc == Ascii;
    }
  }

  lemma HeldIsAscii(s: string)
    ensures Held(s, Ascii) <==> forall c <- s :: c as int < 128
  {
    if forall c <- s :: c as int < 128 {
      assert forall i :: 0 <= i < |s| ==> s[i] in s;
    }
  }

  lemma LineHeld(encoding: Option<Encoding>, declare: Option<bool>, output: Output, enc: Encoding)
    ensures Held(WriteDeclaration(encoding, declare, output), enc)
  {
    DeclarationLine(encoding, declare, output);
    hide WriteDeclaration;
  }

  /** A legal document names exactly the encoding that was asked for, and only if a declaration was asked for. */
  lemma WrittenNamesEncoding(comments: seq<string>, root: Node, names: seq<seq<string>>, reg: map<string, string>,
                             encoding: Option<Encoding>, declare: Option<bool>)
    requires RegistryInv(reg) && Declarable(reg) && Visits(Iter(root), names)
    requires var enc := if encoding.Some? then encoding.value else Ascii;
      RegistryEncodable(reg, enc) && RootLegal(root, enc) && CommentsLegal(comments, enc)
    ensures var r := Write(Present(comments), root, names, reg, encoding, declare, Xml);
      && r.Success?
      && DeclaredEncoding(r.value) ==
         if declare == Some(true) && encoding == Some(Utf8) then Some("utf-8")
         else if declare == Some(true) && encoding == Some(Ascii) then Some("us-ascii")
         else None
  {
    var enc := if encoding.Some? then encoding.value else Ascii;
    var declared := encoding.Some? && declare == Some(true);
    EncodingNames();
    hide *;
    TableForTree(root, names, reg, enc);
    var table := AddNames(EMPTY_TABLE, Flatten(names), reg, enc).value;
    SerializeIsRender(root, enc, table.qnames, table.uris);
    PrologueIsRendered(comments, enc);
    WrittenForm(comments, root, names, reg, encoding, declare, table, enc);
    ReadDocumentTokens(comments, root, table, reg, enc, declared);
    DocumentHeld(comments, root, names, reg, table, enc, declared);
    NamedIn(Write(Present(comments), root, names, reg, encoding, declare, Xml).value,
            DocumentTokens(comments, root, table, declared), enc, declared);
  }

  lemma NamedIn(out: string, ks: seq<Token>, enc: Encoding, declared: bool)
    requires out == (if declared then "<?xml version='1.0' encoding='" + EncodingName(enc) + "'?>" else [])
                    + Render(ks, enc)
    requires Held(Render(ks, enc), enc) && Legal(ks, enc) && (!declared && ks != [] ==> !ks[0].Chars?)
    ensures DeclaredEncoding(out) == if declared then Some(EncodingName(enc)) else None
  {
    hide *;
    if declared {
      DeclarationSkipped(enc, Render(ks, enc));
    } else {
      NoDeclaration(ks, enc);
      assert [] + Render(ks, enc) == Render(ks, enc);
    }
  }

  lemma EncodingNames()
    ensures EncodingName(Utf8) == "utf-8" && EncodingName(Ascii) == "us-ascii"
  {
  }

  // ---------------------------------------------------------------------------
  // The two methods of writing agree
  // ---------------------------------------------------------------------------

  /** The last token of an element without a tail is a tag. */
  lemma EndsInTag(t: Node, qnames: map<string, string>, uris: map<string, string>)
    requires Covered(t, qnames) && t.tag.Name? && t.tail == None
    ensures var ks := Tokens(t, qnames, uris); ks != [] && !ks[|ks| - 1].Chars?
  {
    assert CharTokens(t.tail) == [];
  }

  /** The tail of the root comes after its markup. */
  lemma TailComesLast(t: Node, qnames: map<string, string>, uris: map<string, string>)
    requires Covered(t, qnames)
    ensures Covered(t.(tail := None), qnames)
    ensures Tokens(t, qnames, uris) == Tokens(t.(tail := None), qnames, uris) + CharTokens(t.tail)
  {
    hide DeclAttribs;
    hide PrintedAttribs;
  }

  /** The markup of a legal tree is legal, with a tail as well. */
  lemma RootMarkupLegal(t: Node, table: Table, reg: map<string, string>, enc: Encoding)
    requires Sound(table, reg) && TreeLegal(t, enc) && t.tag.Name? && Covered(t, table.qnames)
    ensures var ks := Tokens(t, table.qnames, table.uris); Legal(ks, enc) && ks != [] && !ks[0].Chars?
  {
    var bare := t.(tail := None);
    TailComesLast(t, table.qnames, table.uris);
    ReadRoot(bare, table, reg, enc);
    EndsInTag(bare, table.qnames, table.uris);
    CharsLegal(t.tail, enc);
    hide Sound;
    hide Covered;
    hide OwnLegal;
    hide Legal;
    hide Tokens;
    hide ParserEvents;
    hide ReadTokens;
    LegalAppend(Tokens(bare, table.qnames, table.uris), CharTokens(t.tail), enc);
  }

  lemma DocumentLegal(comments: seq<string>, root: Node, table: Table, enc: Encoding, declared: bool)
    requires Covered(root, table.qnames) && CommentsLegal(comments, enc)
    requires var ks := Tokens(root, table.qnames, table.uris); Legal(ks, enc) && ks != [] && !ks[0].Chars?
    ensures var ks := DocumentTokens(comments, root, table, declared);
      Legal(ks, enc) && ks != [] && (!declared ==> !ks[0].Chars?)
  {
    ReadPrologue(comments, enc);
    PrologueStart(comments);
    hide Covered;
    hide CommentsLegal;
    hide Legal;
    hide Tokens;
    hide PrologueTokens;
    hide ReadTokens;
    var prologue, body := PrologueTokens(comments), Tokens(root, table.qnames, table.uris);
    LegalAfter(prologue, body, enc);
    assert [] + (prologue + body) == prologue + body;
    if declared {
      FirstNewline(enc);
      LegalAfter([Chars("\n")], prologue + body, enc);
    }
  }

  function Newlines(n: nat): string {
    seq(n, i requires 0 <= i < n => '\n')
  }

  lemma {:induction false} PrologueData(comments: seq<string>)
    ensures CharData(PrologueTokens(comments)) == Newlines(|comments|)
  {
    if comments != [] {
      var two := [CommentToken(comments[0]), Chars("\n")];
      PrologueData(comments[1..]);
      CharDataAppend(two, PrologueTokens(comments[1..]));
      CharDataOne(two[0]);
      CharDataOne(two[1]);
      CharDataAppend([two[0]], [two[1]]);
      assert two == [two[0]] + [two[1]];
    }
  }

  lemma DocumentData(comments: seq<string>, root: Node, table: Table, declared: bool)
    requires Covered(root, table.qnames)
    ensures CharData(DocumentTokens(comments, root, table, declared))
            == Newlines(|comments| + if declared then 1 else 0) + CharData(Tokens(root, table.qnames, table.uris))
  {
    hide Covered;
    hide Tokens;
    var prologue, body := PrologueTokens(comments), Tokens(root, table.qnames, table.uris);
    PrologueData(comments);
    CharDataAppend(prologue, body);
    CharDataAppend([Chars("\n")], prologue + body);
    CharDataAppend([], prologue + body);
    CharDataOne(Chars("\n"));
    hide PrologueTokens;
    hide CharData;
    assert Newlines(|comments| + 1) == "\n" + Newlines(|comments|);
    Assoc("\n", Newlines(|comments|), CharData(body));
  }

  /** What the text method writes, when it succeeds: the comments, which it writes as the XML method does, and the
      text of the tree. */
  lemma TextIsWritten(comments: seq<string>, root: Node, names: seq<seq<string>>, reg: map<string, string>,
                      encoding: Option<Encoding>, declare: Option<bool>, enc: Encoding)
    requires enc == if encoding.Some? then encoding.value else Ascii
    ensures var plain := Join(IterText(root)) + TextOf(root.tail);
      Write(Present(comments), root, names, reg, encoding, declare, Text)
      == if forall i :: 0 <= i < |plain| ==> Encodable(plain[i], enc)
         then Success(Render(PrologueTokens(comments), enc) + plain) else Failure(UnencodableName)
  {
    PrologueIsRendered(comments, enc);
    hide IterText;
    hide Render;
    hide PrologueTokens;
    hide WriteComments;
    var all := Render(PrologueTokens(comments), enc) + (Join(IterText(root)) + TextOf(root.tail));
    assert [] + all == all;
  }

  /** The XML method and the text method agree on every document whose root is legal, with its tail, and whose
      comments are. The text method succeeds exactly if the encoding holds every character of the text. Then taking
      the tags and comments out of the XML and decoding what is left gives exactly the text, apart from the line
      ends after the declaration and the comments; and the text method writes it after the comments. */
  lemma MarkupRemovedIsText(comments: seq<string>, root: Node, names: seq<seq<string>>, reg: map<string, string>,
                            encoding: Option<Encoding>, declare: Option<bool>)
    requires RegistryInv(reg) && Declarable(reg) && Visits(Iter(root), names)
    requires var enc := if encoding.Some? then encoding.value else Ascii;
      RegistryEncodable(reg, enc) && TreeLegal(root, enc) && root.tag.Name? && CommentsLegal(comments, enc)
    ensures var enc := if encoding.Some? then encoding.value else Ascii;
      var xml := Write(Present(comments), root, names, reg, encoding, declare, Xml);
      var text := Write(Present(comments), root, names, reg, encoding, declare, Text);
      var plain := Join(IterText(root)) + TextOf(root.tail);
      && xml.Success?
      && DataOf(xml.value)
         == Some(Newlines(|comments| + if encoding.Some? && declare == Some(true) then 1 else 0) + plain)
      && (text.Success? <==> forall i :: 0 <= i < |plain| ==> Encodable(plain[i], enc))
      && (text.Success? ==> text.value == Render(PrologueTokens(comments), enc) + plain)
  {
    var enc := if encoding.Some? then encoding.value else Ascii;
    var declared := encoding.Some? && declare == Some(true);
    hide *;
    TableForTree(root, names, reg, enc);
    var table := AddNames(EMPTY_TABLE, Flatten(names), reg, enc).value;
    SerializeIsRender(root, enc, table.qnames, table.uris);
    PrologueIsRendered(comments, enc);
    WrittenForm(comments, root, names, reg, encoding, declare, table, enc);
    var out := Write(Present(comments), root, names, reg, encoding, declare, Xml).value;
    var ks := DocumentTokens(comments, root, table, declared);
    RootMarkupLegal(root, table, reg, enc);
    DocumentLegal(comments, root, table, enc, declared);
    DocumentHeld(comments, root, names, reg, table, enc, declared);
    WrittenReads(out, ks, enc, declared);
    DataIs(out, ks);
    DocumentData(comments, root, table, declared);
    SerializersAgree(root, table.qnames, table.uris);
    TextIsWritten(comments, root, names, reg, encoding, declare, enc);
  }

  /** The character data of a document, its tags and comments taken out. */
  function DataOf(s: string): Option<string> {
    var body := SkipDeclaration(NormalizeLines(s));
    if body.None? || Lex(body.value).None? then None else Some(CharData(Lex(body.value).value))
  }

  lemma DataIs(out: string, ks: seq<Token>)
    requires SkipDeclaration(NormalizeLines(out)).Some?
    requires Lex(SkipDeclaration(NormalizeLines(out)).value) == Some(ks)
    ensures DataOf(out) == Some(CharData(ks))
  {
    hide SkipDeclaration;
    hide NormalizeLines;
    hide Lex;
    hide CharData;
  }
}
