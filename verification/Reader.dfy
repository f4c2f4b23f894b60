/** From markup to parser events: nesting, namespaces and uniqueness of attributes.

    The names in the events have the form in which the XML parser delivers them, "uri}local" or "local". */
module Reader {
  import opened Basics
  import opened XmlChars
  import opened Escaping
  import opened Namespaces
  import opened Serializer
  import opened Lexer

  datatype Event =
    | StartEvent(name: string, attribs: seq<(string, string)>)
    | EndEvent(name: string)
    | DataEvent(text: string)
    | CommentEvent(text: string)

  type Scope = map<string, string>

  const TOP_SCOPE: Scope := map["xml" := XML_URI]

  /** An element that has been started, with the prefixes declared inside it. */
  datatype Open = Open(tag: string, scope: Scope)

  datatype Position = Position(stack: seq<Open>, seenRoot: bool)

  const OUTSIDE := Position([], false)

  function ScopeAt(p: Position): Scope {
    if p.stack == [] then TOP_SCOPE else p.stack[|p.stack| - 1].scope
  }

  predicate IsDecl(name: string) {
    name == "xmlns" || "xmlns:" <= name
  }

  /** Section 3 of Namespaces in XML 1.0: the reserved prefixes and URIs, and no undeclaring of a prefix. */
  predicate MayDeclare(prefix: string, uri: string) {
    IsNCName(prefix) && prefix != "xmlns" && uri != [] && uri != XMLNS_URI && (prefix == "xml" <==> uri == XML_URI)
  }

  /** The scope inside a start tag; the default namespace is kept under the empty prefix. */
  function Declare(scope: Scope, attribs: seq<(string, string)>): Option<Scope>
    decreases attribs
  {
    if attribs == [] then Some(scope)
    else
      var (name, value) := attribs[0];
      if name == "xmlns" then
        if value == XML_URI || value == XMLNS_URI then None else Declare(scope["" := value], attribs[1..])
      else if "xmlns:" <= name then
        if !MayDeclare(name[6..], value) then None else Declare(scope[name[6..] := value], attribs[1..])
      else Declare(scope, attribs[1..])
  }

  /** The expanded form of a qualified name, section 6. */
  function Expand(name: string, scope: Scope, isAttrib: bool): Option<string> {
    var i := Find(name, ':');
    if i == |name| then
      if !IsNCName(name) then None
      else if isAttrib || "" !in scope || scope[""] == "" then Some(name)
      else Some(scope[""] + "}" + name)
    else
      var prefix, local := name[..i], name[i + 1..];
      if IsNCName(prefix) && IsNCName(local) && prefix in scope then Some(scope[prefix] + "}" + local) else None
  }

  function ExpandAttribs(attribs: seq<(string, string)>, scope: Scope): Option<seq<(string, string)>>
    decreases attribs
  {
    if attribs == [] then Some([])
    else
      var rest := ExpandAttribs(attribs[1..], scope);
      if IsDecl(attribs[0].0) then rest
      else
        var name := Expand(attribs[0].0, scope, true);
        if name.None? || rest.None? then None else Some([(name.value, attribs[0].1)] + rest.value)
  }

  predicate DistinctNames(attribs: seq<(string, string)>) {
    forall i, j :: 0 <= i < j < |attribs| ==> attribs[i].0 != attribs[j].0
  }

  function StepStart(p: Position, tag: string, attribs: seq<(string, string)>, empty: bool)
      : Option<(Position, seq<Event>)>
  {
    if p.stack == [] && p.seenRoot then None
    else
      var scope := Declare(ScopeAt(p), attribs);
      if scope.None? || !DistinctNames(attribs) then None
      else
        var name := Expand(tag, scope.value, false);
        var expanded := ExpandAttribs(attribs, scope.value);
        if name.None? || expanded.None? || !DistinctNames(expanded.value) then None
        else
          var start := StartEvent(name.value, expanded.value);
          if empty then Some((p.(seenRoot := true), [start, EndEvent(name.value)]))
          else Some((Position(p.stack + [Open(tag, scope.value)], true), [start]))
  }

  function StepToken(p: Position, k: Token): Option<(Position, seq<Event>)> {
    match k
    case StartTag(tag, attribs, empty) => StepStart(p, tag, attribs, empty)
    case EndTag(tag) =>
      if p.stack == [] || p.stack[|p.stack| - 1].tag != tag then None
      else
        var name := Expand(tag, ScopeAt(p), false);
        if name.None? then None
        else Some((p.(stack := p.stack[..|p.stack| - 1]), [EndEvent(name.value)]))
    case Chars(text) =>
      if p.stack != [] then Some((p, [DataEvent(text)]))
      else if forall i :: 0 <= i < |text| ==> IsSpace(text[i]) then Some((p, []))
      else None
    case CommentToken(text) => Some((p, [CommentEvent(text)]))
  }

  function ReadTokens(p: Position, ks: seq<Token>): Option<(Position, seq<Event>)>
    decreases ks
  {
    if ks == [] then Some((p, []))
    else
      var first := StepToken(p, ks[0]);
      if first.None? then None
      else
        var rest := ReadTokens(first.value.0, ks[1..]);
        if rest.None? then None else Some((rest.value.0, first.value.1 + rest.value.1))
  }

  /** What an XML declaration says, as a list of names and values, and the text after it, section 2.8. */
  function ReadDeclaration(s: string): Option<(seq<(string, string)>, string)> {
    if "<?xml " <= s then
      var i := Find(s, '>');
      assert i < |s| ==> i > 5 by {
        assert forall j :: 0 <= j < 6 ==> s[j] == "<?xml "[j];
      }
      if i == |s| || s[i - 1] != '?' then None
      else
        var said := ScanAttribs(s[5..i - 1] + ">");
        if said.None? || said.value.1 != ">" then None else Some((said.value.0, s[i + 1..]))
    else Some(([], s))
  }

  /** The first value that stands for the name. */
  function ValueOf(said: seq<(string, string)>, name: string): Option<string> {
    if said == [] then None else if said[0].0 == name then Some(said[0].1) else ValueOf(said[1..], name)
  }

  /** The encoding that a document names, section 4.3.3. */
  function DeclaredEncoding(s: string): Option<string> {
    var d := ReadDeclaration(s);
    if d.None? then None else ValueOf(d.value.0, "encoding")
  }

  /** The text after the XML declaration. The declaration names the version first; a document that names us-ascii
      has no other characters. */
  function SkipDeclaration(s: string): Option<string> {
    var d := ReadDeclaration(s);
    if d.None? then None
    else if "<?xml " <= s && (d.value.0 == [] || d.value.0[0].0 != "version" || !("1." <= d.value.0[0].1)) then None
    else if DeclaredEncoding(s) == Some("us-ascii") && !Held(s, Ascii) then None
    else Some(d.value.1)
  }

  /** The events of a document; None when it is not a well-formed, namespace-well-formed document, except that
      white space outside the root may be written as character references, which section 2.8 does not allow. */
  function ReadDocument(s: string): Option<seq<Event>> {
    var body := SkipDeclaration(NormalizeLines(s));
    if body.None? then None
    else
      var ks := Lex(body.value);
      if ks.None? then None
      else
        var r := ReadTokens(OUTSIDE, ks.value);
        if r.None? || r.value.0.stack != [] || !r.value.0.seenRoot then None else Some(r.value.1)
  }

  lemma {:induction false} ReadAppend(p: Position, xs: seq<Token>, ys: seq<Token>)
    requires ReadTokens(p, xs).Some?
    ensures var r := ReadTokens(p, xs).value;
      ReadTokens(p, xs + ys) ==
      if ReadTokens(r.0, ys).None? then None
      else Some((ReadTokens(r.0, ys).value.0, r.1 + ReadTokens(r.0, ys).value.1))
    decreases xs
  {
    if xs == [] {
      assert xs + ys == ys;
      var r := ReadTokens(p, ys);
      assert r.Some? ==> [] + r.value.1 == r.value.1;
    } else {
      assert (xs + ys)[1..] == xs[1..] + ys;
      var first := StepToken(p, xs[0]).value;
      ReadAppend(first.0, xs[1..], ys);
      var r := ReadTokens(first.0, xs[1..]).value;
      if ReadTokens(r.0, ys).Some? {
        Assoc(first.1, r.1, ReadTokens(r.0, ys).value.1);
      }
    }
  }

  lemma ReadOne(p: Position, k: Token)
    ensures ReadTokens(p, [k]) == StepToken(p, k)
  {
    assert [k][1..] == [];
    var first := StepToken(p, k);
    assert first.Some? ==> first.value.1 + [] == first.value.1;
  }
}
