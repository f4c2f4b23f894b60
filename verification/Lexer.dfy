/** The markup of an XML document, as a reader of XML 1.0 sees it: elements, attributes, character data,
    references and comments. It accepts no document type declaration, CDATA section or processing instruction. */
module Lexer {
  import opened Basics
  import opened XmlChars
  import opened Escaping
  import opened Serializer

  /** NameStartChar and NameChar, colon included. */
  predicate IsNameFirst(c: char) {
    IsNameStart(c) || c == ':'
  }

  predicate IsNameRest(c: char) {
    IsNameChar(c) || c == ':'
  }

  /** Name, section 2.3 of XML 1.0. */
  predicate IsName(s: string) {
    s != [] && IsNameFirst(s[0]) && forall i :: 0 <= i < |s| ==> IsNameRest(s[i])
  }

  /** The length of the longest run of name characters at the start of s. */
  function NameLength(s: string): (n: nat)
    ensures n <= |s|
  {
    if s == [] || !IsNameRest(s[0]) then 0 else 1 + NameLength(s[1..])
  }

  function SkipSpace(s: string): (r: string)
    ensures |r| <= |s|
  {
    if s != [] && IsSpace(s[0]) then SkipSpace(s[1..]) else s
  }

  /** The index of the first "--" in s. */
  function FindDashes(s: string): (r: Option<nat>)
    ensures r.Some? ==> r.value + 2 <= |s| && s[r.value] == '-' && s[r.value + 1] == '-'
  {
    if |s| < 2 then None
    else if s[0] == '-' && s[1] == '-' then Some(0)
    else
      var r := FindDashes(s[1..]);
      if r.None? then None else Some(r.value + 1)
  }

  /** The value at the start of s, from its equals sign on, and what follows it. */
  function ScanValue(s: string): (r: Option<(string, string)>)
    ensures r.Some? ==> |r.value.1| < |s|
  {
    var r1 := SkipSpace(s);
    if r1 == [] || r1[0] != '=' then None
    else
      var r2 := SkipSpace(r1[1..]);
      if r2 == [] || (r2[0] != '"' && r2[0] != '\'') then None
      else
        var raw := r2[1..];
        var i := Find(raw, r2[0]);
        if i == |raw| then None
        else
          var value := Decode(Attrib, raw[..i]);
          if value.None? then None else Some((value.value, raw[i + 1..]))
  }

  /** The attributes at the start of s, and what follows them after white space. */
  function ScanAttribs(s: string): (r: Option<(seq<(string, string)>, string)>)
    ensures r.Some? ==> |r.value.1| <= |s|
    decreases |s|
  {
    var r := SkipSpace(s);
    if r != [] && (r[0] == '>' || r[0] == '/') then Some(([], r))
    else if |r| == |s| then None
    else
      var n := NameLength(r);
      if !IsName(r[..n]) then None
      else
        var v := ScanValue(r[n..]);
        if v.None? then None
        else
          var rest := ScanAttribs(v.value.1);
          if rest.None? then None
          else Some(([(r[..n], v.value.0)] + rest.value.0, rest.value.1))
  }

  function Cons(k: Token, rest: Option<seq<Token>>): Option<seq<Token>> {
    if rest.None? then None else Some([k] + rest.value)
  }

  predicate HasCdataEnd(s: string) {
    |s| >= 3 && (s[..3] == "]]>" || HasCdataEnd(s[1..]))
  }

  /** The tokens of s; None when s is not well-formed markup. */
  function Lex(s: string): Option<seq<Token>>
    decreases |s|
  {
    if s == [] then Some([])
    else if s[0] != '<' then
      var i := Find(s, '<');
      var text := Decode(Cdata, s[..i]);
      if text.None? || HasCdataEnd(s[..i]) then None else Cons(Chars(text.value), Lex(s[i..]))
    else if |s| >= 4 && s[1] == '!' then
      var i := FindDashes(s[4..]);
      if s[2] != '-' || s[3] != '-' || i.None? then None
      else if i.value + 6 >= |s| || s[i.value + 6] != '>' || !AllChars(s[4..i.value + 4]) then None
      else Cons(CommentToken(s[4..i.value + 4]), Lex(s[i.value + 7..]))
    else if |s| >= 2 && s[1] == '/' then
      var n := NameLength(s[2..]);
      var r := SkipSpace(s[n + 2..]);
      if !IsName(s[2..n + 2]) || r == [] || r[0] != '>' then None
      else Cons(EndTag(s[2..n + 2]), Lex(r[1..]))
    else
      var n := NameLength(s[1..]);
      var a := ScanAttribs(s[n + 1..]);
      if !IsName(s[1..n + 1]) || a.None? then None
      else if a.value.1 != [] && a.value.1[0] == '>' then
        Cons(StartTag(s[1..n + 1], a.value.0, false), Lex(a.value.1[1..]))
      else if |a.value.1| >= 2 && a.value.1[0] == '/' && a.value.1[1] == '>' then
        Cons(StartTag(s[1..n + 1], a.value.0, true), Lex(a.value.1[2..]))
      else None
  }

  // ---------------------------------------------------------------------------
  // Lexing undoes rendering
  // ---------------------------------------------------------------------------

  /** Comment text that is legal under section 2.5 of XML 1.0. */
  predicate IsCommentText(s: string) {
    && AllChars(s)
    && (forall i :: 0 <= i < |s| - 1 ==> !(s[i] == '-' && s[i + 1] == '-'))
    && (s != [] ==> s[|s| - 1] != '-')
  }

  predicate AttribsLegal(attribs: seq<(string, string)>) {
    forall i :: 0 <= i < |attribs| ==>
      && IsName(attribs[i].0)
      && AllChars(attribs[i].1) && '\t' !in attribs[i].1 && '\r' !in attribs[i].1
  }

  predicate TokenLegal(k: Token, enc: Encoding) {
    match k
    case StartTag(name, attribs, _) => IsName(name) && AttribsLegal(attribs)
    case EndTag(name) => IsName(name)
    case Chars(text) => text != [] && AllChars(text) && '\r' !in text
    case CommentToken(text) =>
      IsCommentText(text) && '\r' !in text && forall i :: 0 <= i < |text| ==> Encodable(text[i], enc)
  }

  /** Tokens that can be told apart: no two neighbours are both character data. */
  predicate Separate(ks: seq<Token>) {
    forall i :: 0 <= i < |ks| - 1 ==> !(ks[i].Chars? && ks[i + 1].Chars?)
  }

  predicate Legal(ks: seq<Token>, enc: Encoding) {
    Separate(ks) && forall i :: 0 <= i < |ks| ==> TokenLegal(ks[i], enc)
  }

  lemma {:induction false} NameScans(n: string, rest: string)
    requires forall i :: 0 <= i < |n| ==> IsNameRest(n[i])
    requires rest != [] ==> !IsNameRest(rest[0])
    ensures NameLength(n + rest) == |n|
  {
    if n == [] {
      assert n + rest == rest;
    } else {
      assert (n + rest)[1..] == n[1..] + rest;
      NameScans(n[1..], rest);
    }
  }

  lemma FindSkips(a: string, c: char, rest: string)
    requires c !in a
    ensures Find(a + [c] + rest, c) == |a|
  {
    var s := a + [c] + rest;
    assert s[|a|] == c;
    assert forall i :: 0 <= i < |a| ==> s[i] == a[i] && s[i] in a;
  }

  lemma QuotedValue(raw: string, rest: string)
    requires '"' !in raw
    ensures var s := "=\"" + raw + "\"" + rest;
      ScanValue(s) == if Decode(Attrib, raw).None? then None else Some((Decode(Attrib, raw).value, rest))
  {
    hide Decode;
    var s := "=\"" + raw + "\"" + rest;
    assert SkipSpace(s) == s;
    var r2 := "\"" + raw + "\"" + rest;
    assert s[1..] == r2;
    assert SkipSpace(r2) == r2;
    var r := raw + "\"" + rest;
    assert r2[1..] == r;
    FindSkips(raw, '"', rest);
    assert r[..|raw|] == raw && r[|raw| + 1..] == rest;
  }

  lemma AttribDecodes(value: string, enc: Encoding)
    requires AllChars(value) && '\t' !in value && '\r' !in value
    ensures '"' !in Escape(Attrib, value, enc) && Decode(Attrib, Escape(Attrib, value, enc)) == Some(value)
  {
    EscapeIsClean(Attrib, value, enc);
    EscapeIsOnePass(Attrib, value, enc);
    DecodeOnePass(Attrib, value, enc);
    assert Spaced(value) == value;
  }

  /** One written attribute, read back. */
  lemma AttribScans(name: string, value: string, enc: Encoding, rest: string)
    requires IsName(name) && AllChars(value) && '\t' !in value && '\r' !in value
    ensures ScanAttribs(WriteAttrib(name, value, enc) + rest) ==
      if ScanAttribs(rest).None? then None
      else Some(([(name, value)] + ScanAttribs(rest).value.0, ScanAttribs(rest).value.1))
  {
    AttribDecodes(value, enc);
    var raw := Escape(Attrib, value, enc);
    QuotedValue(raw, rest);
    var v := "=\"" + raw + "\"";
    assert WriteAttrib(name, value, enc) + rest == " " + (name + (v + rest)) by {
      hide Escape;
      Assoc(" ", name + v, rest);
      Assoc(name, v, rest);
    }
    AttribSteps(name, v + rest);
  }

  /** One step of the scan, past the name of the next attribute. */
  lemma AttribSteps(name: string, v: string)
    requires IsName(name) && v != [] && v[0] == '='
    ensures ScanAttribs(" " + (name + v)) ==
      if ScanValue(v).None? || ScanAttribs(ScanValue(v).value.1).None? then None
      else
        var rest := ScanAttribs(ScanValue(v).value.1).value;
        Some(([(name, ScanValue(v).value.0)] + rest.0, rest.1))
  {
    hide ScanValue;
    var r := name + v;
    Cut(" ", r);
    Cut(name, v);
    NameScans(name, v);
    assert SkipSpace(r) == r;
  }

  lemma ScanEnd(end: string, rest: string)
    requires end == ">" || end == " />"
    ensures ScanAttribs(end + rest) == Some(([], (if end == ">" then ">" else "/>") + rest))
  {
    var s := end + rest;
    if end == " />" {
      assert " />" + rest == " " + ("/>" + rest);
      Cut(" ", "/>" + rest);
      assert s[0] == ' ' && SkipSpace(s) == SkipSpace(s[1..]);
      assert SkipSpace("/>" + rest) == "/>" + rest;
    } else {
      assert s[0] == '>' && SkipSpace(s) == s;
    }
  }

  lemma {:induction false} AttribsScan(attribs: seq<(string, string)>, enc: Encoding, end: string, rest: string)
    requires AttribsLegal(attribs) && (end == ">" || end == " />")
    ensures ScanAttribs(RenderAttribs(attribs, enc) + (end + rest))
            == Some((attribs, (if end == ">" then ">" else "/>") + rest))
  {
    if attribs == [] {
      assert RenderAttribs(attribs, enc) + (end + rest) == end + rest;
      ScanEnd(end, rest);
    } else {
      var one := WriteAttrib(attribs[0].0, attribs[0].1, enc);
      var more := RenderAttribs(attribs[1..], enc) + (end + rest);
      AttribsScan(attribs[1..], enc, end, rest);
      AttribScans(attribs[0].0, attribs[0].1, enc, more);
      hide WriteAttrib;
      hide ScanAttribs;
      Assoc(one, RenderAttribs(attribs[1..], enc), end + rest);
      assert attribs == [attribs[0]] + attribs[1..];
    }
  }

  /** A start tag, once its name and its attributes are known. */
  lemma LexStartSteps(name: string, inner: string, attribs: seq<(string, string)>, empty: bool, rest: string)
    requires IsName(name) && inner != [] && !IsNameRest(inner[0])
    requires ScanAttribs(inner) == Some((attribs, (if empty then "/>" else ">") + rest))
    ensures Lex("<" + (name + inner)) == Cons(StartTag(name, attribs, empty), Lex(rest))
  {
    hide ScanAttribs;
    var s := "<" + (name + inner);
    NameScans(name, inner);
    Cut("<", name + inner);
    Cut(name, inner);
    assert s[1..|name| + 1] == name && s[|name| + 1..] == inner;
    assert s[1] == name[0];
    Cut(">", rest);
    Cut("/>", rest);
  }

  lemma StartShape(name: string, attribs: seq<(string, string)>, empty: bool, enc: Encoding, rest: string)
    ensures var inner := RenderAttribs(attribs, enc) + ((if empty then " />" else ">") + rest);
      && RenderToken(StartTag(name, attribs, empty), enc) + rest == "<" + (name + inner)
      && inner != [] && !IsNameRest(inner[0])
  {
    var end := if empty then " />" else ">";
    var a := RenderAttribs(attribs, enc);
    assert attribs != [] ==> a[0] == ' ';
    hide RenderAttribs;
    Assoc("<" + name + a, end, rest);
    Assoc("<" + name, a, end + rest);
    Assoc("<", name, a + (end + rest));
  }

  lemma LexStart(name: string, attribs: seq<(string, string)>, empty: bool, enc: Encoding, rest: string)
    requires IsName(name) && AttribsLegal(attribs)
    ensures var k := StartTag(name, attribs, empty);
      Lex(RenderToken(k, enc) + rest) == Cons(k, Lex(rest))
  {
    var end := if empty then " />" else ">";
    StartShape(name, attribs, empty, enc, rest);
    AttribsScan(attribs, enc, end, rest);
    hide *;
    LexStartSteps(name, RenderAttribs(attribs, enc) + (end + rest), attribs, empty, rest);
  }

  lemma LexEnd(name: string, enc: Encoding, rest: string)
    requires IsName(name)
    ensures Lex(RenderToken(EndTag(name), enc) + rest) == Cons(EndTag(name), Lex(rest))
  {
    var s := RenderToken(EndTag(name), enc) + rest;
    assert s == "</" + name + (">" + rest);
    NameScans(name, ">" + rest);
    assert s[2..] == name + (">" + rest);
    assert s[2..|name| + 2] == name && s[|name| + 2..] == ">" + rest;
    assert (">" + rest)[1..] == rest;
  }

  lemma {:induction false} DashesFind(s: string, rest: string)
    requires forall i :: 0 <= i < |s| - 1 ==> !(s[i] == '-' && s[i + 1] == '-')
    requires s != [] ==> s[|s| - 1] != '-'
    ensures FindDashes(s + "--" + rest) == Some(|s|)
  {
    if s == [] {
      assert s + "--" + rest == "--" + rest;
    } else {
      assert (s + "--" + rest)[1..] == s[1..] + "--" + rest;
      DashesFind(s[1..], rest);
    }
  }

  lemma {:induction false} EncodeEncodable(s: string, enc: Encoding)
    requires forall i :: 0 <= i < |s| ==> Encodable(s[i], enc)
    ensures Encode(s, enc) == s
  {
    if s != [] {
      EncodeEncodable(s[1..], enc);
    }
  }

  lemma CommentShape(text: string, rest: string)
    ensures var s := "<!--" + text + "-->" + rest;
      && s[..4] == "<!--"
      && s[4..] == text + "--" + (">" + rest)
      && s[4..|text| + 4] == text
      && s[|text| + 6] == '>' && s[|text| + 7..] == rest
  {
    Assoc("<!--" + text, "-->", rest);
    Assoc("<!--", text, "-->" + rest);
    Cut("<!--", text + ("-->" + rest));
    assert "-->" + rest == "--" + (">" + rest);
    Assoc(text, "--", ">" + rest);
  }

  lemma LexComment(text: string, enc: Encoding, rest: string)
    requires TokenLegal(CommentToken(text), enc)
    ensures Lex(RenderToken(CommentToken(text), enc) + rest) == Cons(CommentToken(text), Lex(rest))
  {
    EncodeEncodable(text, enc);
    DashesFind(text, ">" + rest);
    CommentShape(text, rest);
    hide Encode;
    hide FindDashes;
    var s := RenderToken(CommentToken(text), enc) + rest;
    assert s[0] == s[..4][0] && s[1] == s[..4][1] && s[2] == s[..4][2] && s[3] == s[..4][3];
  }

  lemma {:induction false} NoCdataEnd(s: string)
    requires forall i :: 0 <= i < |s| ==> s[i] != '>'
    ensures !HasCdataEnd(s)
  {
    if |s| >= 3 {
      NoCdataEnd(s[1..]);
      assert s[..3][2] == s[2];
    }
  }

  lemma LexChars(text: string, enc: Encoding, rest: string)
    requires text != [] && AllChars(text)
    requires rest == [] || rest[0] == '<'
    ensures Lex(RenderToken(Chars(text), enc) + rest) == Cons(Chars(text), Lex(rest))
  {
    var raw := Escape(Cdata, text, enc);
    EscapeIsClean(Cdata, text, enc);
    EscapeIsOnePass(Cdata, text, enc);
    DecodeOnePass(Cdata, text, enc);
    hide Escape;
    hide Decode;
    hide OnePass;
    var s := raw + rest;
    assert forall i :: 0 <= i < |raw| ==> s[i] == raw[i] && s[i] != '<';
    assert rest != [] ==> s[|raw|] == '<';
    var i := Find(s, '<');
    assert i == |raw|;
    assert s[..|raw|] == raw && s[|raw|..] == rest;
    NoCdataEnd(raw);
  }

  lemma LexOne(k: Token, enc: Encoding, rest: string)
    requires TokenLegal(k, enc)
    requires k.Chars? ==> rest == [] || rest[0] == '<'
    ensures Lex(RenderToken(k, enc) + rest) == Cons(k, Lex(rest))
  {
    match k
    case StartTag(name, attribs, empty) => LexStart(name, attribs, empty, enc, rest);
    case EndTag(name) => LexEnd(name, enc, rest);
    case Chars(text) => LexChars(text, enc, rest);
    case CommentToken(text) => LexComment(text, enc, rest);
  }

  /** Reading the rendered tokens gives the tokens back. */
  lemma {:induction false} LexRender(ks: seq<Token>, enc: Encoding)
    requires Legal(ks, enc)
    ensures Lex(Render(ks, enc)) == Some(ks)
  {
    if ks != [] {
      assert Separate(ks[1..]) by {
        forall i | 0 <= i < |ks[1..]| - 1
          ensures !(ks[1..][i].Chars? && ks[1..][i + 1].Chars?)
        {
          assert !(ks[i + 1].Chars? && ks[i + 1 + 1].Chars?);
        }
      }
      LexRender(ks[1..], enc);
      var rest := Render(ks[1..], enc);
      assert ks[0].Chars? ==> rest == [] || rest[0] == '<' by {
        if |ks| > 1 {
          assert !(ks[0].Chars? && ks[0 + 1].Chars?);
        }
      }
      LexOne(ks[0], enc, rest);
      assert ks == [ks[0]] + ks[1..];
    }
  }

  lemma LegalAppend(a: seq<Token>, b: seq<Token>, enc: Encoding)
    requires Legal(a, enc) && Legal(b, enc)
    requires a == [] || b == [] || !a[|a| - 1].Chars? || !b[0].Chars?
    ensures Legal(a + b, enc)
  {
    hide TokenLegal;
  }

  // ---------------------------------------------------------------------------
  // Legal tokens are rendered without carriage returns
  // ---------------------------------------------------------------------------

  lemma NameHasNoCr(n: string)
    requires IsName(n)
    ensures '\r' !in n
  {
    assert !IsNameRest('\r');
  }

  lemma {:induction false} AttribsHaveNoCr(attribs: seq<(string, string)>, enc: Encoding)
    requires AttribsLegal(attribs)
    ensures '\r' !in RenderAttribs(attribs, enc)
  {
    if attribs != [] {
      NameHasNoCr(attribs[0].0);
      EscapeIsClean(Attrib, attribs[0].1, enc);
      AttribsHaveNoCr(attribs[1..], enc);
    }
  }

  lemma TokenHasNoCr(k: Token, enc: Encoding)
    requires TokenLegal(k, enc)
    ensures '\r' !in RenderToken(k, enc)
  {
    match k
    case StartTag(name, attribs, empty) =>
      NameHasNoCr(name);
      AttribsHaveNoCr(attribs, enc);
    case EndTag(name) => NameHasNoCr(name);
    case Chars(text) => EscapeIsClean(Cdata, text, enc);
    case CommentToken(text) => EncodeEncodable(text, enc);
  }

  lemma {:induction false} RenderHasNoCr(ks: seq<Token>, enc: Encoding)
    requires forall i :: 0 <= i < |ks| ==> TokenLegal(ks[i], enc)
    ensures '\r' !in Render(ks, enc)
  {
    if ks != [] {
      TokenHasNoCr(ks[0], enc);
      RenderHasNoCr(ks[1..], enc);
    }
  }
}
