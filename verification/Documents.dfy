/** Every document that can be read: which calls it makes on the builder, and what of it survives rewriting. */
module Documents {
  import opened Basics
  import opened XmlChars
  import opened Escaping
  import opened Elements
  import opened Namespaces
  import opened Serializer
  import opened Lexer
  import opened Reader
  import opened Writer
  import opened Scoping
  import opened RoundTrip
  import opened FrontEnd
  import opened Builder
  import opened Parsing
  import opened WholeTrip
  import opened Migration

  // ---------------------------------------------------------------------------
  // What the lexer yields
  // ---------------------------------------------------------------------------

  predicate ValuesAreChars(attribs: seq<(string, string)>) {
    forall a <- attribs :: AllChars(a.1)
  }

  predicate TokenRead(k: Token) {
    match k
    case StartTag(_, attribs, _) => ValuesAreChars(attribs)
    case EndTag(_) => true
    case Chars(text) => text != [] && AllChars(text)
    case CommentToken(text) => IsCommentText(text) && '\r' !in text
  }

  lemma RefIsChar(name: string)
    ensures RefValue(name).Some? ==> IsChar(RefValue(name).value)
  {
    hide ParseHex;
    hide ParseDec;
  }

  lemma {:induction false} DecodeIsChars(ctx: Context, s: string)
    ensures Decode(ctx, s).Some? ==> AllChars(Decode(ctx, s).value)
    ensures Decode(ctx, s).Some? && s != [] ==> Decode(ctx, s).value != []
    decreases |s|
  {
    if s != [] && Decode(ctx, s).Some? {
      if s[0] == '&' {
        var i := Find(s, ';');
        RefIsChar(s[1..i]);
        hide RefValue;
        DecodeIsChars(ctx, s[i + 1..]);
      } else {
        DecodeIsChars(ctx, s[1..]);
      }
    }
  }

  lemma ValueIsChars(s: string)
    ensures ScanValue(s).Some? ==> AllChars(ScanValue(s).value.0)
  {
    var r1 := SkipSpace(s);
    if r1 != [] {
      var r2 := SkipSpace(r1[1..]);
      if r2 != [] {
        DecodeIsChars(Attrib, r2[1..][..Find(r2[1..], r2[0])]);
      }
    }
    hide Decode;
    hide SkipSpace;
    hide AllChars;
  }

  lemma {:induction false} AttribsAreChars(s: string)
    ensures ScanAttribs(s).Some? ==> ValuesAreChars(ScanAttribs(s).value.0)
    decreases |s|
  {
    var r := SkipSpace(s);
    if ScanAttribs(s).Some? && !(r != [] && (r[0] == '>' || r[0] == '/')) {
      var v := ScanValue(r[NameLength(r)..]);
      ValueIsChars(r[NameLength(r)..]);
      hide ScanValue;
      hide SkipSpace;
      hide AllChars;
      AttribsAreChars(v.value.1);
    }
  }

  /** One step of lexing: the first token, and what is left. */
  lemma LexStep(s: string) returns (k: Token, rest: string)
    requires s != [] && Lex(s).Some? && '\r' !in s
    ensures |rest| < |s| && '\r' !in rest && Lex(rest).Some? && Lex(s).value == [k] + Lex(rest).value
    ensures TokenRead(k) && (k.Chars? ==> rest == [] || rest[0] == '<') && (k.Chars? <==> s[0] != '<')
  {
    if s[0] != '<' {
      var i := Find(s, '<');
      DecodeIsChars(Cdata, s[..i]);
      k, rest := Chars(Decode(Cdata, s[..i]).value), s[i..];
    } else if |s| >= 4 && s[1] == '!' {
      k, rest := CommentStep(s);
    } else if |s| >= 2 && s[1] == '/' {
      k, rest := EndStep(s);
    } else {
      k, rest := StartStep(s);
    }
  }

  lemma CommentStep(s: string) returns (k: Token, rest: string)
    requires |s| >= 4 && s[0] == '<' && s[1] == '!' && Lex(s).Some? && '\r' !in s
    ensures |rest| < |s| && '\r' !in rest && Lex(rest).Some? && Lex(s).value == [k] + Lex(rest).value
    ensures k.CommentToken? && TokenRead(k)
  {
    LexCommentIs(s);
    var i := FindDashes(s[4..]).value;
    k, rest := CommentToken(s[4..i + 4]), s[i + 7..];
    FirstDashes(s[4..]);
    hide Lex;
    hide FindDashes;
    assert forall j :: 0 <= j < i ==> k.text[j] == s[4..][j];
    assert s[4..][i] == '-';
  }

  lemma EndStep(s: string) returns (k: Token, rest: string)
    requires |s| >= 2 && s[0] == '<' && s[1] == '/' && Lex(s).Some? && '\r' !in s
    ensures |rest| < |s| && '\r' !in rest && Lex(rest).Some? && Lex(s).value == [k] + Lex(rest).value
    ensures k.EndTag?
  {
    var n := NameLength(s[2..]);
    var r := SkipSpace(s[n + 2..]);
    SkipSpaceIsSuffix(s[n + 2..]);
    k, rest := EndTag(s[2..n + 2]), r[1..];
    hide IsName;
    hide SkipSpace;
    hide NameLength;
  }

  lemma StartStep(s: string) returns (k: Token, rest: string)
    requires s != [] && s[0] == '<' && !(|s| >= 4 && s[1] == '!') && !(|s| >= 2 && s[1] == '/')
    requires Lex(s).Some? && '\r' !in s
    ensures |rest| < |s| && '\r' !in rest && Lex(rest).Some? && Lex(s).value == [k] + Lex(rest).value
    ensures k.StartTag? && TokenRead(k)
  {
    var n := NameLength(s[1..]);
    var a := ScanAttribs(s[n + 1..]).value;
    AttribsAreChars(s[n + 1..]);
    ScanAttribsIsSuffix(s[n + 1..]);
    hide ScanAttribs;
    hide NameLength;
    hide IsName;
    hide AllChars;
    if a.1[0] == '>' {
      k, rest := StartTag(s[1..n + 1], a.0, false), a.1[1..];
    } else {
      k, rest := StartTag(s[1..n + 1], a.0, true), a.1[2..];
    }
  }

  /** r is the end of s. */
  predicate IsSuffix(r: string, s: string) {
    |r| <= |s| && r == s[|s| - |r|..]
  }

  lemma {:induction false} SkipSpaceIsSuffix(s: string)
    ensures IsSuffix(SkipSpace(s), s)
  {
    if s != [] && IsSpace(s[0]) {
      SkipSpaceIsSuffix(s[1..]);
    }
  }

  lemma SuffixOfSuffix(r: string, s: string, n: nat)
    requires n <= |s| && IsSuffix(r, s[n..])
    ensures IsSuffix(r, s)
  {
  }

  lemma CutIsSuffix(s: string, n: nat)
    requires n <= |s|
    ensures IsSuffix(s[n..], s)
  {
  }

  lemma SuffixTransitive(a: string, b: string, c: string)
    requires IsSuffix(a, b) && IsSuffix(b, c)
    ensures IsSuffix(a, c)
  {
  }

  lemma ScanValueIsSuffix(s: string)
    ensures ScanValue(s).Some? ==> IsSuffix(ScanValue(s).value.1, s)
  {
    hide IsSuffix;
    hide SkipSpace;
    hide Decode;
    var r1 := SkipSpace(s);
    SkipSpaceIsSuffix(s);
    if ScanValue(s).Some? {
      var r2 := SkipSpace(r1[1..]);
      SkipSpaceIsSuffix(r1[1..]);
      SuffixOfSuffix(r2, r1, 1);
      SuffixTransitive(r2, r1, s);
      var i := Find(r2[1..], r2[0]);
      CutIsSuffix(r2[1..], i + 1);
      SuffixOfSuffix(r2[1..][i + 1..], r2, 1);
      SuffixTransitive(r2[1..][i + 1..], r2, s);
    }
  }

  lemma {:induction false} ScanAttribsIsSuffix(s: string)
    ensures ScanAttribs(s).Some? ==> IsSuffix(ScanAttribs(s).value.1, s)
    decreases |s|
  {
    var r := SkipSpace(s);
    SkipSpaceIsSuffix(s);
    if ScanAttribs(s).Some? && !(r != [] && (r[0] == '>' || r[0] == '/')) {
      var n := NameLength(r);
      var v := ScanValue(r[n..]).value;
      ScanValueIsSuffix(r[n..]);
      ScanAttribsIsSuffix(v.1);
      hide ScanValue;
      hide SkipSpace;
      hide NameLength;
    }
  }

  /** Every token has characters that XML allows, and no two neighbours are character data. */
  lemma {:induction false} LexReads(s: string)
    requires Lex(s).Some? && '\r' !in s
    ensures forall k <- Lex(s).value :: TokenRead(k)
    ensures Separate(Lex(s).value)
    ensures s != [] ==> Lex(s).value != [] && (Lex(s).value[0].Chars? <==> s[0] != '<')
    decreases |s|
  {
    if s != [] {
      var k, rest := LexStep(s);
      hide Lex;
      hide TokenRead;
      LexReads(rest);
      SeparateCons(k, Lex(rest).value);
    }
  }

  lemma SeparateCons(k: Token, ks: seq<Token>)
    requires Separate(ks) && (k.Chars? && ks != [] ==> !ks[0].Chars?)
    ensures Separate([k] + ks)
  {
  }

  // ---------------------------------------------------------------------------
  // Names and attributes
  // ---------------------------------------------------------------------------

  /** A URI that can be bound; the default namespace may also be undeclared again. */
  predicate UriRead(prefix: string, uri: string) {
    if uri == [] then prefix == [] else uri != XMLNS_URI && AllChars(uri)
  }

  ghost predicate ScopeRead(scope: Scope) {
    forall p <- scope :: UriRead(p, scope[p])
  }

  lemma TopScopeRead()
    ensures ScopeRead(TOP_SCOPE)
  {
    assert |XML_URI| == 36 && |XMLNS_URI| == 29;
    assert AllChars(XML_URI);
    assert UriRead("xml", XML_URI);
    hide UriRead;
  }

  lemma ScopeWith(scope: Scope, prefix: string, uri: string)
    requires ScopeRead(scope) && UriRead(prefix, uri)
    ensures ScopeRead(scope[prefix := uri])
  {
    hide UriRead;
  }

  lemma {:induction false} DeclareRead(scope: Scope, attribs: seq<(string, string)>)
    requires ScopeRead(scope) && ValuesAreChars(attribs)
    ensures Declare(scope, attribs).Some? ==> ScopeRead(Declare(scope, attribs).value)
    decreases attribs
  {
    if attribs != [] {
      var (name, value) := attribs[0];
      assert attribs[0] in attribs && AllChars(value) && forall a <- attribs[1..] :: a in attribs;
      hide ScopeRead;
      hide AllChars;
      if name == "xmlns" {
        if value != XMLNS_URI {
          ScopeWith(scope, "", value);
          DeclareRead(scope["" := value], attribs[1..]);
        }
      } else if "xmlns:" <= name {
        if MayDeclare(name[6..], value) {
          ScopeWith(scope, name[6..], value);
          DeclareRead(scope[name[6..] := value], attribs[1..]);
        }
      } else {
        DeclareRead(scope, attribs[1..]);
      }
    }
  }

  lemma PlainRead(name: string)
    requires IsNCName(name)
    ensures FixName(name) == name && !IsQualified(name) && '}' !in name && IsUniversalName(name)
  {
    assert forall i :: 0 <= i < |name| ==> name[i] != '}';
  }

  lemma QualifiedRead(uri: string, local: string)
    requires IsNCName(local) && uri != [] && uri != XMLNS_URI && AllChars(uri)
    ensures var q := FixName(uri + "}" + local); IsUniversalName(q) && q != "xmlns"
  {
    PlainRead(local);
    var d := uri + "}" + local;
    assert d[|uri|] == '}';
    assert FixName(d) == "{" + d;
    assert "{" + d == Universal(uri, local) by {
      Assoc("{", uri, "}");
      Assoc("{", uri + "}", local);
    }
    SplitUniversal(uri, local);
    hide SplitName;
    assert ("{" + d)[0] == '{' && "xmlns"[0] == 'x';
  }

  /** The name of an element or an attribute, as the tree has it. */
  lemma ExpandRead(name: string, scope: Scope, isAttrib: bool)
    requires ScopeRead(scope) && Expand(name, scope, isAttrib).Some?
    ensures var q := FixName(Expand(name, scope, isAttrib).value);
      IsUniversalName(q) && (isAttrib && !IsDecl(name) ==> q != "xmlns")
  {
    hide IsUniversalName;
    hide IsNCName;
    hide FixName;
    var i := Find(name, ':');
    if i == |name| {
      PlainRead(name);
      if "" in scope && scope[""] != "" {
        QualifiedRead(scope[""], name);
      }
    } else {
      assert IsNCName(name[..i]) ==> name[..i] != [] by {
        PrefixNotEmpty(name[..i]);
      }
      QualifiedRead(scope[name[..i]], name[i + 1..]);
    }
  }

  lemma PrefixNotEmpty(p: string)
    ensures IsNCName(p) ==> p != []
  {
  }

  /** Attributes as the tree has them. */
  predicate AttribRead(name: string, value: string) {
    IsUniversalName(name) && name != "xmlns" && AllChars(value)
  }

  predicate AttribsRead(attrib: map<string, string>) {
    forall k <- attrib :: AttribRead(k, attrib[k])
  }

  lemma {:induction false} ExpandAttribsRead(attribs: seq<(string, string)>, scope: Scope)
    requires ScopeRead(scope) && ValuesAreChars(attribs) && ExpandAttribs(attribs, scope).Some?
    ensures forall a <- ExpandAttribs(attribs, scope).value :: AttribRead(FixName(a.0), a.1)
    decreases attribs
  {
    if attribs != [] {
      assert attribs[0] in attribs && forall a <- attribs[1..] :: a in attribs;
      ExpandAttribsRead(attribs[1..], scope);
      if !IsDecl(attribs[0].0) {
        ExpandRead(attribs[0].0, scope, true);
      }
      hide IsUniversalName;
      hide Expand;
      hide ScopeRead;
      hide IsDecl;
      hide FixName;
      hide AllChars;
    }
  }

  lemma {:induction false} AttribMapRead(attribs: seq<(string, string)>)
    requires forall a <- attribs :: AttribRead(FixName(a.0), a.1)
    ensures AttribsRead(AttribMap(attribs))
    decreases |attribs|
  {
    hide AttribRead;
    hide FixName;
    if attribs != [] {
      var n := |attribs| - 1;
      assert attribs[n] in attribs && forall a <- attribs[..n] :: a in attribs;
      AttribMapRead(attribs[..n]);
    }
  }

  // ---------------------------------------------------------------------------
  // The tree that the events spell
  // ---------------------------------------------------------------------------

  /** An open element, with what it holds so far. */
  datatype Frame = Frame(tag: Tag, attrib: map<string, string>, text: Option<string>, children: seq<Node>)

  /** What has been read: comments, the open elements, the document element when it is closed, and more comments. */
  datatype Sofar = Sofar(before: seq<string>, frames: seq<Frame>, root: Option<Node>, after: seq<string>)

  function FrameCalls(f: Frame): seq<Call> {
    [Start(f.tag, f.attrib)] + TextCalls(f.text) + CallsAll(f.children)
  }

  function OpenCalls(fs: seq<Frame>): seq<Call> {
    if fs == [] then [] else OpenCalls(fs[..|fs| - 1]) + FrameCalls(fs[|fs| - 1])
  }

  /** The calls that spell what has been read. */
  function CallsOf(z: Sofar): seq<Call> {
    CommentCalls(z.before) + OpenCalls(z.frames) + (if z.root.Some? then Calls(z.root.value) else [])
    + CommentCalls(z.after)
  }

  lemma {:induction false} CallsAllAppend(a: seq<Node>, b: seq<Node>)
    ensures CallsAll(a + b) == CallsAll(a) + CallsAll(b)
    decreases |a|
  {
    if a == [] {
      assert a + b == b;
    } else {
      assert (a + b)[1..] == a[1..] + b;
      CallsAllAppend(a[1..], b);
      hide Calls;
      Assoc(Calls(a[0]) + TextCalls(a[0].tail), CallsAll(a[1..]), CallsAll(b));
    }
  }

  lemma CallsAllOne(t: Node)
    ensures CallsAll([t]) == Calls(t) + TextCalls(t.tail)
  {
    assert [t][1..] == [];
  }

  lemma {:induction false} CommentCallsAppend(a: seq<string>, b: string)
    ensures CommentCalls(a + [b]) == CommentCalls(a) + Calls(CommentNode(b))
  {
    if a == [] {
      assert ([] + [b])[1..] == [];
    } else {
      assert (a + [b])[1..] == a[1..] + [b];
      CommentCallsAppend(a[1..], b);
      hide Calls;
    }
  }

  lemma OpenCallsAppend(fs: seq<Frame>, f: Frame)
    ensures OpenCalls(fs + [f]) == OpenCalls(fs) + FrameCalls(f)
  {
    assert (fs + [f])[..|fs|] == fs;
  }

  /** An element without a tail. */
  function NodeOf(f: Frame): Node {
    Node(f.tag, f.attrib, f.text, f.children, None)
  }

  lemma NodeCalls(f: Frame)
    ensures Calls(NodeOf(f)) == FrameCalls(f) + [End(f.tag)]
  {
  }

  function WithChild(f: Frame, t: Node): Frame {
    f.(children := f.children + [t])
  }

  lemma WithChildCalls(f: Frame, t: Node)
    requires t.tail == None
    ensures FrameCalls(WithChild(f, t)) == FrameCalls(f) + Calls(t)
  {
    CallsAllAppend(f.children, [t]);
    CallsAllOne(t);
    hide Calls;
    hide CallsAll;
    Assoc([Start(f.tag, f.attrib)] + TextCalls(f.text), CallsAll(f.children), Calls(t));
  }

  /** The slot of the frame that character data goes to is free. */
  predicate SlotIsFree(f: Frame) {
    if f.children == [] then f.text == None else f.children[|f.children| - 1].tail == None
  }

  /** Character data is the text of an element, or the tail of its last child. */
  function WithData(f: Frame, text: string): Frame {
    if f.children == [] then f.(text := Some(text))
    else
      var n := |f.children| - 1;
      f.(children := f.children[..n] + [f.children[n].(tail := Some(text))])
  }

  lemma WithDataCalls(f: Frame, text: string)
    requires SlotIsFree(f)
    ensures FrameCalls(WithData(f, text)) == FrameCalls(f) + [Data(text)]
  {
    if f.children != [] {
      var n := |f.children| - 1;
      var init, last := f.children[..n], f.children[n];
      assert f.children == init + [last];
      CallsAllAppend(init, [last]);
      CallsAllAppend(init, [last.(tail := Some(text))]);
      CallsAllOne(last);
      CallsAllOne(last.(tail := Some(text)));
      TailIsNotCalled(last, text);
      hide Calls;
      hide CallsAll;
      Assoc(CallsAll(init), Calls(last), [Data(text)]);
      Assoc([Start(f.tag, f.attrib)] + TextCalls(f.text), CallsAll(init) + Calls(last), [Data(text)]);
    }
  }

  lemma TailIsNotCalled(t: Node, text: string)
    ensures Calls(t.(tail := Some(text))) == Calls(t)
  {
  }

  function Top(z: Sofar): Frame
    requires z.frames != []
  {
    z.frames[|z.frames| - 1]
  }

  function WithTop(z: Sofar, f: Frame): Sofar
    requires z.frames != []
  {
    z.(frames := z.frames[..|z.frames| - 1] + [f])
  }

  /** An element is closed: it becomes a child, or the document element. */
  function CloseFrame(z: Sofar): Sofar
    requires z.frames != []
  {
    var rest := z.(frames := z.frames[..|z.frames| - 1]);
    if rest.frames == [] then rest.(root := Some(NodeOf(Top(z))))
    else WithTop(rest, WithChild(Top(rest), NodeOf(Top(z))))
  }

  function TakeComment(z: Sofar, text: string): Sofar {
    if z.frames != [] then WithTop(z, WithChild(Top(z), CommentNode(text)))
    else if z.root.None? then z.(before := z.before + [text])
    else z.(after := z.after + [text])
  }

  /** One more event. */
  function Take(z: Sofar, e: Event): Sofar
    requires e.EndEvent? || e.DataEvent? ==> z.frames != []
  {
    match e
    case StartEvent(name, attribs) =>
      z.(frames := z.frames + [Frame(Name(FixName(name)), AttribMap(attribs), None, [])])
    case EndEvent(_) => CloseFrame(z)
    case DataEvent(text) => WithTop(z, WithData(Top(z), text))
    case CommentEvent(text) => TakeComment(z, text)
  }

  /** The document element comes before the comments after it, and no element is open beside it. */
  predicate InOrder(z: Sofar) {
    && (z.root.Some? ==> z.frames == [])
    && (z.root.None? ==> z.after == [])
  }

  lemma WithTopCalls(z: Sofar, f: Frame, more: seq<Call>)
    requires z.frames != [] && InOrder(z) && FrameCalls(f) == FrameCalls(Top(z)) + more
    ensures CallsOf(WithTop(z, f)) == CallsOf(z) + more
  {
    var fs := z.frames[..|z.frames| - 1];
    assert z.frames == fs + [Top(z)];
    OpenCallsAppend(fs, Top(z));
    OpenCallsAppend(fs, f);
    hide OpenCalls;
    hide FrameCalls;
    hide CommentCalls;
    Assoc(OpenCalls(fs), FrameCalls(Top(z)), more);
    Assoc(CommentCalls(z.before), OpenCalls(z.frames), more);
    assert CommentCalls([]) == [] by {
      NoCommentCalls();
    }
  }

  lemma NoCommentCalls()
    ensures CommentCalls([]) == []
  {
  }

  lemma PopCalls(z: Sofar)
    requires z.frames != [] && InOrder(z)
    ensures CallsOf(z) == CallsOf(z.(frames := z.frames[..|z.frames| - 1])) + FrameCalls(Top(z))
  {
    var fs, f := z.frames[..|z.frames| - 1], Top(z);
    assert z.frames == fs + [f];
    OpenCallsAppend(fs, f);
    NoCommentCalls();
    hide FrameCalls;
    hide OpenCalls;
    hide CommentCalls;
    Assoc(CommentCalls(z.before), OpenCalls(fs), FrameCalls(f));
  }

  lemma RootCalls(z: Sofar, t: Node)
    requires z.frames == [] && z.root.None? && z.after == []
    ensures CallsOf(z.(root := Some(t))) == CallsOf(z) + Calls(t)
  {
    NoCommentCalls();
    hide Calls;
    hide CommentCalls;
  }

  lemma CloseFrameCalls(z: Sofar)
    requires z.frames != [] && InOrder(z)
    ensures CallsOf(CloseFrame(z)) == CallsOf(z) + [End(Top(z).tag)]
  {
    hide CallsOf;
    var f := Top(z);
    var rest := z.(frames := z.frames[..|z.frames| - 1]);
    PopCalls(z);
    NodeCalls(f);
    Assoc(CallsOf(rest), FrameCalls(f), [End(f.tag)]);
    if rest.frames == [] {
      RootCalls(rest, NodeOf(f));
    } else {
      WithChildCalls(Top(rest), NodeOf(f));
      WithTopCalls(rest, WithChild(Top(rest), NodeOf(f)), Calls(NodeOf(f)));
    }
    hide FrameCalls;
    hide Calls;
  }

  lemma TakeCommentCalls(z: Sofar, text: string)
    requires InOrder(z)
    ensures CallsOf(TakeComment(z, text)) == CallsOf(z) + Calls(CommentNode(text))
  {
    hide Calls;
    NoCommentCalls();
    if z.frames != [] {
      WithChildCalls(Top(z), CommentNode(text));
      WithTopCalls(z, WithChild(Top(z), CommentNode(text)), Calls(CommentNode(text)));
    } else if z.root.None? {
      CommentCallsAppend(z.before, text);
    } else {
      CommentCallsAppend(z.after, text);
    }
    hide CommentCalls;
    hide FrameCalls;
  }

  /** The calls that spell what has been read are those that the events make. */
  lemma TakeCalls(z: Sofar, e: Event)
    requires InOrder(z)
    requires e.StartEvent? ==> z.root.None?
    requires e.EndEvent? ==> z.frames != [] && Top(z).tag == Name(FixName(e.name))
    requires e.DataEvent? ==> z.frames != [] && SlotIsFree(Top(z))
    ensures InOrder(Take(z, e)) && CallsOf(Take(z, e)) == CallsOf(z) + EventCalls(e)
  {
    hide CallsOf;
    match e {
      case StartEvent(name, attribs) =>
        StartFrameCalls(z, Frame(Name(FixName(name)), AttribMap(attribs), None, []));
      case EndEvent(name) =>
        CloseFrameCalls(z);
      case DataEvent(text) =>
        WithDataCalls(Top(z), text);
        WithTopCalls(z, WithData(Top(z), text), [Data(text)]);
      case CommentEvent(text) =>
        TakeCommentCalls(z, text);
        CommentNodeCalls(text);
    }
    hide FrameCalls;
    hide Calls;
  }

  lemma StartFrameCalls(z: Sofar, f: Frame)
    requires InOrder(z) && z.root.None? && f.text == None && f.children == []
    ensures CallsOf(z.(frames := z.frames + [f])) == CallsOf(z) + [Start(f.tag, f.attrib)]
  {
    OpenCallsAppend(z.frames, f);
    NoCommentCalls();
    assert FrameCalls(f) == [Start(f.tag, f.attrib)];
    hide FrameCalls;
    hide OpenCalls;
    hide CommentCalls;
    Assoc(CommentCalls(z.before), OpenCalls(z.frames), [Start(f.tag, f.attrib)]);
  }

  // ---------------------------------------------------------------------------
  // What a tree that has been read is like
  // ---------------------------------------------------------------------------

  predicate TextRead(text: Option<string>) {
    text.Some? ==> text.value != [] && AllChars(text.value)
  }

  predicate OwnRead(t: Node) {
    && TextRead(t.tail)
    && match t.tag
       case Comment =>
         t.attrib == map[] && t.children == [] && t.text.Some? && IsCommentText(t.text.value) && '\r' !in t.text.value
       case Name(name) => IsUniversalName(name) && TextRead(t.text) && AttribsRead(t.attrib)
  }

  predicate TreeRead(t: Node)
    decreases t, 1
  {
    OwnRead(t) && TreesRead(t.children)
  }

  predicate TreesRead(ts: seq<Node>)
    decreases ts, 0
  {
    ts == [] || (TreeRead(ts[0]) && TreesRead(ts[1..]))
  }

  lemma {:induction false} TreesReadAppend(ts: seq<Node>, t: Node)
    requires TreesRead(ts) && TreeRead(t)
    ensures TreesRead(ts + [t])
  {
    if ts == [] {
      assert ([] + [t])[1..] == [];
    } else {
      assert (ts + [t])[1..] == ts[1..] + [t];
      hide TreeRead;
      TreesReadAppend(ts[1..], t);
    }
  }

  lemma {:induction false} TreesReadAt(ts: seq<Node>, n: nat)
    requires TreesRead(ts) && n < |ts|
    ensures TreesRead(ts[..n]) && TreeRead(ts[n])
  {
    hide TreeRead;
    if n > 0 {
      TreesReadAt(ts[1..], n - 1);
      assert ts[..n][1..] == ts[1..][..n - 1];
    }
  }

  predicate FrameRead(f: Frame) {
    && f.tag.Name? && IsUniversalName(f.tag.name) && TextRead(f.text) && AttribsRead(f.attrib) && TreesRead(f.children)
  }

  lemma NodeRead(f: Frame)
    requires FrameRead(f)
    ensures TreeRead(NodeOf(f))
  {
  }

  lemma CommentRead(text: string)
    requires IsCommentText(text) && '\r' !in text
    ensures TreeRead(CommentNode(text))
  {
  }

  lemma WithChildRead(f: Frame, t: Node)
    requires FrameRead(f) && TreeRead(t) && t.tail == None
    ensures FrameRead(WithChild(f, t)) && SlotIsFree(WithChild(f, t)) && WithChild(f, t).tag == f.tag
  {
    TreesReadAppend(f.children, t);
  }

  lemma WithDataRead(f: Frame, text: string)
    requires FrameRead(f) && text != [] && AllChars(text)
    ensures FrameRead(WithData(f, text)) && WithData(f, text).tag == f.tag
  {
    if f.children != [] {
      var n := |f.children| - 1;
      TreesReadAt(f.children, n);
      TreesReadAppend(f.children[..n], f.children[n].(tail := Some(text)));
    }
  }

  // ---------------------------------------------------------------------------
  // Reading, token by token
  // ---------------------------------------------------------------------------

  /** The frame belongs to the open element of the reader. */
  ghost predicate FrameFits(o: Open, f: Frame) {
    && ScopeRead(o.scope) && FrameRead(f)
    && Expand(o.tag, o.scope, false).Some? && f.tag == Name(FixName(Expand(o.tag, o.scope, false).value))
  }

  ghost predicate CommentsRead(texts: seq<string>) {
    forall c <- texts :: IsCommentText(c) && '\r' !in c
  }

  /** What has been read so far, at a position of the reader. */
  ghost predicate Fits(p: Position, z: Sofar) {
    && InOrder(z) && |p.stack| == |z.frames|
    && (p.seenRoot <==> z.frames != [] || z.root.Some?)
    && (forall i :: 0 <= i < |z.frames| ==> FrameFits(p.stack[i], z.frames[i]))
    && (z.root.Some? ==> TreeRead(z.root.value) && z.root.value.tag.Name? && z.root.value.tail == None)
    && CommentsRead(z.before) && CommentsRead(z.after)
  }

  ghost predicate TopIsFree(z: Sofar) {
    z.frames != [] ==> SlotIsFree(Top(z))
  }

  /** The events es, from the position p on, are taken in. */
  ghost predicate Taken(p: Position, z: Sofar, es: seq<Event>, z': Sofar) {
    Fits(p, z') && CallsOf(z') == CallsOf(z) + AllCalls(es)
  }

  lemma ReplaceTopFits(p: Position, z: Sofar, f: Frame)
    requires Fits(p, z) && z.frames != [] && FrameRead(f) && f.tag == Top(z).tag
    ensures Fits(p, WithTop(z, f))
  {
    hide FrameRead;
    hide TreeRead;
    hide CommentsRead;
    var n := |z.frames| - 1;
    assert FrameFits(p.stack[n], z.frames[n]);
    assert FrameFits(p.stack[n], f);
    hide FrameFits;
  }

  lemma PushFits(p: Position, z: Sofar, o: Open, f: Frame)
    requires Fits(p, z) && z.root.None? && FrameFits(o, f) && f.text == None && f.children == []
    ensures Fits(Position(p.stack + [o], true), z.(frames := z.frames + [f]))
    ensures TopIsFree(z.(frames := z.frames + [f]))
  {
    hide FrameFits;
    hide TreeRead;
    hide CommentsRead;
  }

  lemma PopFits(p: Position, z: Sofar)
    requires Fits(p, z) && z.frames != []
    ensures Fits(p.(stack := p.stack[..|p.stack| - 1]), CloseFrame(z)) && TopIsFree(CloseFrame(z))
  {
    var n := |z.frames| - 1;
    var f, fs := z.frames[n], z.frames[..n];
    assert FrameFits(p.stack[n], f);
    NodeRead(f);
    var q := p.(stack := p.stack[..n]);
    if n == 0 {
      hide FrameRead;
      hide TreeRead;
      hide CommentsRead;
      assert q.stack == [];
    } else {
      var parent := z.frames[n - 1];
      assert FrameFits(p.stack[n - 1], parent);
      WithChildRead(parent, NodeOf(f));
      PopParentFits(p, z, WithChild(parent, NodeOf(f)));
    }
  }

  lemma PopParentFits(p: Position, z: Sofar, f: Frame)
    requires Fits(p, z) && |z.frames| > 1 && FrameRead(f) && f.tag == z.frames[|z.frames| - 2].tag
    ensures var n := |z.frames| - 1;
      Fits(p.(stack := p.stack[..n]), z.(frames := z.frames[..n][..n - 1] + [f]))
  {
    hide FrameRead;
    hide TreeRead;
    hide CommentsRead;
    var n := |z.frames| - 1;
    assert FrameFits(p.stack[n - 1], z.frames[n - 1]);
    assert FrameFits(p.stack[n - 1], f);
    hide FrameFits;
    var q, y := p.(stack := p.stack[..n]), z.(frames := z.frames[..n][..n - 1] + [f]);
    forall i | 0 <= i < n
      ensures FrameFits(q.stack[i], y.frames[i])
    {
      assert FrameFits(p.stack[i], z.frames[i]);
    }
  }

  lemma CommentFits(p: Position, z: Sofar, text: string)
    requires Fits(p, z) && IsCommentText(text) && '\r' !in text
    ensures Fits(p, TakeComment(z, text)) && TopIsFree(TakeComment(z, text))
  {
    if z.frames != [] {
      var n := |z.frames| - 1;
      assert FrameFits(p.stack[n], z.frames[n]);
      CommentRead(text);
      WithChildRead(Top(z), CommentNode(text));
      ReplaceTopFits(p, z, WithChild(Top(z), CommentNode(text)));
    }
    hide FrameFits;
    hide TreeRead;
    hide FrameRead;
    hide IsCommentText;
  }

  lemma ScopeAtRead(p: Position, z: Sofar)
    requires Fits(p, z)
    ensures ScopeRead(ScopeAt(p))
  {
    if p.stack == [] {
      TopScopeRead();
    } else {
      assert FrameFits(p.stack[|p.stack| - 1], z.frames[|z.frames| - 1]);
    }
  }

  /** The open element and the frame for a start tag. */
  lemma StartFrame(p: Position, z: Sofar, tag: string, attribs: seq<(string, string)>, empty: bool)
      returns (o: Open, start: Event)
    requires Fits(p, z) && ValuesAreChars(attribs) && StepStart(p, tag, attribs, empty).Some?
    ensures start.StartEvent? && Expand(tag, o.scope, false) == Some(start.name) && o.tag == tag
    ensures FrameFits(o, Frame(Name(FixName(start.name)), AttribMap(start.attribs), None, []))
    ensures StepStart(p, tag, attribs, empty) == Some(
      if empty then (p.(seenRoot := true), [start, EndEvent(start.name)])
      else (Position(p.stack + [o], true), [start]))
  {
    ScopeAtRead(p, z);
    DeclareRead(ScopeAt(p), attribs);
    var scope := Declare(ScopeAt(p), attribs).value;
    hide Declare;
    hide ScopeRead;
    hide Fits;
    ExpandRead(tag, scope, false);
    ExpandAttribsRead(attribs, scope);
    AttribMapRead(ExpandAttribs(attribs, scope).value);
    hide Expand;
    hide ExpandAttribs;
    hide AttribRead;
    hide AttribsRead;
    hide DistinctNames;
    hide IsUniversalName;
    hide FixName;
    o, start := Open(tag, scope), StartEvent(Expand(tag, scope, false).value, ExpandAttribs(attribs, scope).value);
  }

  lemma StartTake(p: Position, z: Sofar, tag: string, attribs: seq<(string, string)>, empty: bool)
      returns (z': Sofar)
    requires Fits(p, z) && ValuesAreChars(attribs) && StepStart(p, tag, attribs, empty).Some?
    ensures var r := StepStart(p, tag, attribs, empty).value; Taken(r.0, z, r.1, z') && TopIsFree(z')
  {
    var o, start := StartFrame(p, z, tag, attribs, empty);
    var f := Frame(Name(FixName(start.name)), AttribMap(start.attribs), None, []);
    assert z.root.None?;
    TakeCalls(z, start);
    PushFits(p, z, o, f);
    AllCallsOne(start);
    z' := Take(z, start);
    var inside := Position(p.stack + [o], true);
    if empty {
      var end := EndEvent(start.name);
      TakeCalls(z', end);
      PopFits(inside, z');
      AllCallsOne(end);
      AllCallsAppend([start], [end]);
      assert [start] + [end] == [start, end];
      assert inside.(stack := inside.stack[..|inside.stack| - 1]) == p.(seenRoot := true);
      hide CallsOf;
      hide EventCalls;
      hide AllCalls;
      hide StepStart;
      Assoc(CallsOf(z), AllCalls([start]), AllCalls([end]));
      z' := Take(z', end);
    }
  }

  lemma EndTake(p: Position, z: Sofar, tag: string) returns (z': Sofar)
    requires Fits(p, z) && StepToken(p, EndTag(tag)).Some?
    ensures var r := StepToken(p, EndTag(tag)).value; Taken(r.0, z, r.1, z') && TopIsFree(z')
  {
    var n := |p.stack| - 1;
    assert FrameFits(p.stack[n], z.frames[n]);
    var end := StepToken(p, EndTag(tag)).value.1[0];
    TakeCalls(z, end);
    PopFits(p, z);
    AllCallsOne(end);
    hide CallsOf;
    hide Expand;
    z' := Take(z, end);
  }

  lemma DataTake(p: Position, z: Sofar, text: string) returns (z': Sofar)
    requires Fits(p, z) && TopIsFree(z) && text != [] && AllChars(text) && StepToken(p, Chars(text)).Some?
    ensures var r := StepToken(p, Chars(text)).value; Taken(r.0, z, r.1, z')
  {
    z' := z;
    if p.stack == [] {
      assert CallsOf(z) + AllCalls([]) == CallsOf(z);
    } else {
      var n := |p.stack| - 1;
      assert FrameFits(p.stack[n], z.frames[n]);
      var e := DataEvent(text);
      TakeCalls(z, e);
      AllCallsOne(e);
      WithDataRead(Top(z), text);
      ReplaceTopFits(p, z, WithData(Top(z), text));
      z' := Take(z, e);
    }
    hide CallsOf;
    hide Fits;
  }

  lemma CommentTake(p: Position, z: Sofar, text: string) returns (z': Sofar)
    requires Fits(p, z) && IsCommentText(text) && '\r' !in text
    ensures var r := StepToken(p, CommentToken(text)).value; Taken(r.0, z, r.1, z') && TopIsFree(z')
  {
    var e := CommentEvent(text);
    TakeCalls(z, e);
    AllCallsOne(e);
    CommentFits(p, z, text);
    z' := Take(z, e);
    hide CallsOf;
    hide Fits;
  }

  /** One token. */
  lemma TokenTake(p: Position, z: Sofar, k: Token) returns (z': Sofar)
    requires Fits(p, z) && TokenRead(k) && StepToken(p, k).Some?
    requires k.Chars? ==> TopIsFree(z)
    ensures var r := StepToken(p, k).value; Taken(r.0, z, r.1, z') && (!k.Chars? ==> TopIsFree(z'))
  {
    hide Fits;
    hide TopIsFree;
    match k {
      case StartTag(tag, attribs, empty) => z' := StartTake(p, z, tag, attribs, empty);
      case EndTag(tag) => z' := EndTake(p, z, tag);
      case Chars(text) => z' := DataTake(p, z, text);
      case CommentToken(text) => z' := CommentTake(p, z, text);
    }
  }

  lemma {:induction false} TokensTake(p: Position, z: Sofar, ks: seq<Token>) returns (z': Sofar)
    requires Fits(p, z) && Separate(ks) && ReadTokens(p, ks).Some?
    requires forall k <- ks :: TokenRead(k)
    requires ks != [] && ks[0].Chars? ==> TopIsFree(z)
    ensures var r := ReadTokens(p, ks).value; Taken(r.0, z, r.1, z')
    decreases ks
  {
    hide Fits;
    hide TopIsFree;
    hide TokenRead;
    hide StepToken;
    hide CallsOf;
    z' := z;
    if ks == [] {
      assert CallsOf(z) + AllCalls([]) == CallsOf(z);
    } else {
      var first := StepToken(p, ks[0]).value;
      var y := TokenTake(p, z, ks[0]);
      assert forall k <- ks[1..] :: k in ks;
      assert |ks| > 1 ==> ks[1..][0] == ks[1];
      z' := TokensTake(first.0, y, ks[1..]);
      var rest := ReadTokens(first.0, ks[1..]).value;
      AllCallsAppend(first.1, rest.1);
      Assoc(CallsOf(z), AllCalls(first.1), AllCalls(rest.1));
    }
  }

  lemma SkippedIsSuffix(s: string)
    requires SkipDeclaration(s).Some? && '\r' !in s
    ensures '\r' !in SkipDeclaration(s).value
  {
  }

  lemma NothingYet()
    ensures var nothing := Sofar([], [], None, []);
      CallsOf(nothing) == [] && Fits(OUTSIDE, nothing) && TopIsFree(nothing)
  {
  }

  lemma AtTheEnd(z: Sofar, t: Node)
    requires z.frames == [] && z.root == Some(t)
    ensures CallsOf(z) == DocumentCalls(z.before, t, z.after)
  {
    assert OpenCalls(z.frames) == [];
    hide Calls;
    hide CommentCalls;
  }

  lemma TokensSpell(ks: seq<Token>) returns (before: seq<string>, t: Node, after: seq<string>)
    requires Separate(ks) && ReadTokens(OUTSIDE, ks).Some? && forall k <- ks :: TokenRead(k)
    requires ReadTokens(OUTSIDE, ks).value.0 == Position([], true)
    ensures AllCalls(ReadTokens(OUTSIDE, ks).value.1) == DocumentCalls(before, t, after)
    ensures TreeRead(t) && t.tag.Name? && t.tail == None && CommentsRead(before) && CommentsRead(after)
  {
    hide ReadTokens;
    hide TokenRead;
    hide CallsOf;
    hide DocumentCalls;
    hide AllCalls;
    hide TopIsFree;
    NothingYet();
    var z := TokensTake(OUTSIDE, Sofar([], [], None, []), ks);
    before, t, after := z.before, z.root.value, z.after;
    AtTheEnd(z, t);
    hide TreeRead;
    hide CommentsRead;
    hide FrameFits;
    assert [] + AllCalls(ReadTokens(OUTSIDE, ks).value.1) == AllCalls(ReadTokens(OUTSIDE, ks).value.1);
  }

  /** Every document that can be read is comments, one element and more comments; its events make the calls that
      spell these, and the element and the comments are as a reader delivers them. */
  lemma DocumentReads(s: string) returns (before: seq<string>, t: Node, after: seq<string>)
    requires ReadDocument(s).Some?
    ensures AllCalls(ReadDocument(s).value) == DocumentCalls(before, t, after)
    ensures TreeRead(t) && t.tag.Name? && t.tail == None && CommentsRead(before) && CommentsRead(after)
  {
    hide NormalizeLines;
    hide SkipDeclaration;
    hide Lex;
    hide ReadTokens;
    hide TreeRead;
    hide CommentsRead;
    hide DocumentCalls;
    hide AllCalls;
    NormalizeKeepsChars(s);
    SkippedIsSuffix(NormalizeLines(s));
    var body := SkipDeclaration(NormalizeLines(s)).value;
    LexReads(body);
    before, t, after := TokensSpell(Lex(body).value);
  }

  // ---------------------------------------------------------------------------
  // What survives rewriting
  // ---------------------------------------------------------------------------

  /** No carriage return in a text or a tail, and neither that nor a tab in a name or an attribute. */
  predicate OwnSurvives(t: Node) {
    && '\r' !in TextOf(t.tail)
    && (t.tag.Name? ==>
          && NoTabOrCr(t.tag.name) && '\r' !in TextOf(t.text)
          && forall k <- t.attrib :: NoTabOrCr(k) && NoTabOrCr(t.attrib[k]))
  }

  predicate Survives(t: Node)
    decreases t, 1
  {
    OwnSurvives(t) && AllSurvive(t.children)
  }

  predicate AllSurvive(ts: seq<Node>)
    decreases ts, 0
  {
    ts == [] || (Survives(ts[0]) && AllSurvive(ts[1..]))
  }

  lemma PrintableUtf8(q: string)
    requires IsUniversalName(q)
    ensures Printable(q, Utf8)
  {
  }

  lemma OwnLegalIff(t: Node)
    requires OwnRead(t)
    ensures OwnLegal(t, Utf8) <==> OwnSurvives(t)
  {
    if t.tag.Name? {
      PrintableUtf8(t.tag.name);
      forall k <- t.attrib
        ensures IsUniversalName(k) && Printable(k, Utf8) && k != "xmlns" && AllChars(t.attrib[k])
      {
        assert AttribRead(k, t.attrib[k]);
        PrintableUtf8(k);
      }
      hide Printable;
      hide IsUniversalName;
      hide AttribsRead;
    }
    hide AllChars;
    hide NoTabOrCr;
  }

  lemma {:induction false} LegalIff(t: Node)
    requires TreeRead(t)
    ensures TreeLegal(t, Utf8) <==> Survives(t)
    decreases t, 1
  {
    OwnLegalIff(t);
    hide OwnRead;
    hide OwnLegal;
    hide OwnSurvives;
    AllLegalIff(t.children);
  }

  lemma {:induction false} AllLegalIff(ts: seq<Node>)
    requires TreesRead(ts)
    ensures TreesLegal(ts, Utf8) <==> AllSurvive(ts)
    decreases ts, 0
  {
    if ts != [] {
      LegalIff(ts[0]);
      AllLegalIff(ts[1..]);
    }
  }

  /** A tree that has been read has no empty text. */
  lemma {:induction false} ReadIsNormal(t: Node)
    requires TreeRead(t)
    ensures Normal(t) == t
    decreases t, 1
  {
    AllReadIsNormal(t.children);
    assert NormalText(t.tail) == t.tail && (t.tag.Name? ==> NormalText(t.text) == t.text);
    hide OwnRead;
  }

  lemma {:induction false} AllReadIsNormal(ts: seq<Node>)
    requires TreesRead(ts)
    ensures NormalAll(ts) == ts
    decreases ts, 0
  {
    if ts != [] {
      ReadIsNormal(ts[0]);
      AllReadIsNormal(ts[1..]);
      assert ts == [ts[0]] + ts[1..];
    }
  }

  lemma CommentsAreLegal(texts: seq<string>)
    requires CommentsRead(texts)
    ensures CommentsLegal(texts, Utf8)
  {
    hide IsCommentText;
    forall i | 0 <= i < |texts|
      ensures IsCommentText(texts[i]) && '\r' !in texts[i]
    {
      assert texts[i] in texts;
    }
  }

  /** The texts of the elements that parse has set aside. */
  function PriorTexts(r: Parsed): seq<Option<string>>
    requires forall k <- r.prior :: k < |r.store|
  {
    seq(|r.prior|, i requires 0 <= i < |r.prior| => (assert r.prior[i] in r.prior; r.store[r.prior[i]].text))
  }

  /** Every document can be parsed. When parse returns the document element, because no comment follows it, the tree
      can be written and read again exactly if nothing in it has a carriage return, or a tab in a name or an
      attribute; and the comments set aside always can. */
  lemma ParsedIsLegalIff(s: string) returns (t: Node, comments: seq<string>)
    requires ReadDocument(s).Some?
    ensures var r := Parse(AllCalls(ReadDocument(s).value));
      && r.Success? && Ordered(r.value.store) && r.value.root < |r.value.store|
      && TreeAt(r.value.store, r.value.root) == t
      && (t.tag.Name? ==>
            && (RootLegal(t, Utf8) <==> Survives(t)) && Normal(t) == t && CommentsLegal(comments, Utf8)
            && (forall k <- r.value.prior :: k < |r.value.store|)
            && PriorTexts(r.value) == Present(comments))
  {
    var before, root, after := DocumentReads(s);
    hide ReadDocument;
    hide AllCalls;
    LegalIff(root);
    ReadIsNormal(root);
    CommentsAreLegal(before);
    hide TreeRead;
    hide TreeLegal;
    hide Survives;
    hide CommentsRead;
    hide CommentsLegal;
    hide Normal;
    hide Parse;
    comments := before;
    if after == [] {
      NoneAfter(before, root, after);
      ParseDocument(before, root);
      assert root.(tail := None) == root;
      PriorAre(Parse(DocumentCalls(before, root, after)).value, before);
    } else {
      ParseTrailing(before, root, after);
    }
    hide DocumentCalls;
    var r := Parse(DocumentCalls(before, root, after)).value;
    t := TreeAt(r.store, r.root);
  }

  lemma NoneAfter(before: seq<string>, root: Node, after: seq<string>)
    requires after == []
    ensures DocumentCalls(before, root, after) == CommentCalls(before) + Calls(root)
  {
  }

  lemma PriorAre(r: Parsed, before: seq<string>)
    requires |before| <= |r.store| && r.prior == Range(0, |before|) && r.store[..|before|] == CommentRecs(before)
    ensures (forall k <- r.prior :: k < |r.store|) && PriorTexts(r) == Present(before)
  {
    assert forall i :: 0 <= i < |before| ==> r.store[i] == r.store[..|before|][i];
  }

  /** The script's own trip, on every document without a comment after its root: parse, migrate, write in utf-8, and
      parse again. If the tree survives, what comes back is what migrating has made of it, with the same comments. */
  lemma FileSurvives(s: string, ps: seq<Pass>, t: Node, comments: seq<string>, names: seq<seq<string>>,
                     reg: map<string, string>, declare: Option<bool>)
    requires ReadDocument(s).Some?
    requires var r := Parse(AllCalls(ReadDocument(s).value));
      && r.Success? && Ordered(r.value.store) && r.value.root < |r.value.store|
      && TreeAt(r.value.store, r.value.root) == t && t.tag.Name? && Survives(t)
      && (forall k <- r.value.prior :: k < |r.value.store|) && PriorTexts(r.value) == Present(comments)
    requires RegistryInv(reg) && Declarable(reg) && Visits(Iter(RunPasses(ps, t)), names)
    ensures var out := Write(Present(comments), RunPasses(ps, t), names, reg, Some(Utf8), declare, Xml);
      && out.Success? && ReadDocument(out.value).Some?
      && ParsesTo(ReadDocument(out.value).value, comments, RunPasses(ps, t))
  {
    var root, before := ParsedIsLegalIff(s);
    PresentInjective(before, comments);
    hide *;
    AllEncodable(reg);
    MigrationSurvivesPrinting(ps, comments, t, names, reg, Some(Utf8), declare);
  }

  lemma PresentInjective(a: seq<string>, b: seq<string>)
    ensures Present(a) == Present(b) ==> a == b
  {
    if Present(a) == Present(b) {
      assert |Present(a)| == |a| && |Present(b)| == |b|;
      assert forall i :: 0 <= i < |a| ==> Present(a)[i] == Some(a[i]) && Present(b)[i] == Some(b[i]);
    }
  }

  lemma AllEncodable(reg: map<string, string>)
    ensures RegistryEncodable(reg, Utf8)
  {
  }
}
