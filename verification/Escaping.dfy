/** Escaping of character data and attribute values, and its inverse in an XML reader. */
module Escaping {
  import opened Basics
  import opened XmlChars

  /** The two encodings that the writer does not announce on its own. */
  datatype Encoding = Utf8 | Ascii

  datatype Context = Cdata | Attrib

  // ---------------------------------------------------------------------------
  // The writer's side
  // ---------------------------------------------------------------------------

  /** Python's str.replace for a one-character pattern. */
  function Replace(s: string, c: char, sub: string): string {
    if s == [] then [] else (if s[0] == c then sub else [s[0]]) + Replace(s[1..], c, sub)
  }

  /** The replacement guarded by a test that the pattern occurs. */
  function ReplaceIfIn(s: string, c: char, sub: string): string {
    if c in s then Replace(s, c, sub) else s
  }

  predicate Encodable(c: char, enc: Encoding) {
    enc.Utf8? || c as int < 0x80
  }

  /** str.encode with xmlcharrefreplace; the result is given as characters. */
  function Encode(s: string, enc: Encoding): string {
    if s == [] then []
    else (if Encodable(s[0], enc) then [s[0]] else "&#" + Dec(s[0] as int) + ";") + Encode(s[1..], enc)
  }

  /** _escape_cdata before encoding. */
  function ReplaceCdata(s: string): string {
    ReplaceIfIn(ReplaceIfIn(ReplaceIfIn(s, '&', "&amp;"), '<', "&lt;"), '>', "&gt;")
  }

  /** _escape_attrib before encoding. */
  function ReplaceAttrib(s: string): string {
    ReplaceIfIn(ReplaceIfIn(ReplaceCdata(s), '"', "&quot;"), '\n', "&#10;")
  }

  /** _escape_cdata and _escape_attrib. */
  function Escape(ctx: Context, s: string, enc: Encoding): string {
    Encode(if ctx.Cdata? then ReplaceCdata(s) else ReplaceAttrib(s), enc)
  }

  /** What one character is written as. */
  function Piece(ctx: Context, c: char, enc: Encoding): string {
    match c
    case '&' => "&amp;"
    case '<' => "&lt;"
    case '>' => "&gt;"
    case _ =>
      if ctx.Attrib? && c == '"' then "&quot;"
      else if ctx.Attrib? && c == '\n' then "&#10;"
      else if Encodable(c, enc) then [c]
      else "&#" + Dec(c as int) + ";"
  }

  function OnePass(ctx: Context, s: string, enc: Encoding): string {
    if s == [] then [] else Piece(ctx, s[0], enc) + OnePass(ctx, s[1..], enc)
  }

  lemma {:induction false} ReplaceAppend(a: string, b: string, c: char, sub: string)
    ensures Replace(a + b, c, sub) == Replace(a, c, sub) + Replace(b, c, sub)
  {
    if a == [] {
      assert a + b == b;
    } else {
      assert (a + b)[1..] == a[1..] + b;
      ReplaceAppend(a[1..], b, c, sub);
    }
  }

  lemma {:induction false} ReplaceAbsent(s: string, c: char, sub: string)
    ensures ReplaceIfIn(s, c, sub) == Replace(s, c, sub)
  {
    if c !in s && s != [] {
      ReplaceAbsent(s[1..], c, sub);
      assert s == [s[0]] + s[1..];
    }
  }

  lemma GuardedAppend(a: string, b: string, c: char, sub: string)
    ensures ReplaceIfIn(a + b, c, sub) == ReplaceIfIn(a, c, sub) + ReplaceIfIn(b, c, sub)
  {
    ReplaceAbsent(a + b, c, sub);
    ReplaceAbsent(a, c, sub);
    ReplaceAbsent(b, c, sub);
    ReplaceAppend(a, b, c, sub);
  }

  lemma {:induction false} EncodeAppend(a: string, b: string, enc: Encoding)
    ensures Encode(a + b, enc) == Encode(a, enc) + Encode(b, enc)
  {
    if a == [] {
      assert a + b == b;
    } else {
      assert (a + b)[1..] == a[1..] + b;
      EncodeAppend(a[1..], b, enc);
    }
  }

  lemma CdataAppend(a: string, b: string)
    ensures ReplaceCdata(a + b) == ReplaceCdata(a) + ReplaceCdata(b)
  {
    var a1, b1 := ReplaceIfIn(a, '&', "&amp;"), ReplaceIfIn(b, '&', "&amp;");
    GuardedAppend(a, b, '&', "&amp;");
    GuardedAppend(a1, b1, '<', "&lt;");
    GuardedAppend(ReplaceIfIn(a1, '<', "&lt;"), ReplaceIfIn(b1, '<', "&lt;"), '>', "&gt;");
  }

  lemma EscapeAppend(ctx: Context, a: string, b: string, enc: Encoding)
    ensures Escape(ctx, a + b, enc) == Escape(ctx, a, enc) + Escape(ctx, b, enc)
  {
    CdataAppend(a, b);
    var a1, b1 := ReplaceCdata(a), ReplaceCdata(b);
    if ctx.Cdata? {
      EncodeAppend(a1, b1, enc);
    } else {
      GuardedAppend(a1, b1, '"', "&quot;");
      var a2, b2 := ReplaceIfIn(a1, '"', "&quot;"), ReplaceIfIn(b1, '"', "&quot;");
      GuardedAppend(a2, b2, '\n', "&#10;");
      EncodeAppend(ReplaceIfIn(a2, '\n', "&#10;"), ReplaceIfIn(b2, '\n', "&#10;"), enc);
    }
  }

  /** Text without any of the special characters passes through the replacements. */
  lemma Untouched(s: string)
    requires forall i :: 0 <= i < |s| ==> s[i] !in {'<', '>', '"', '\n'}
    ensures ReplaceIfIn(s, '<', "&lt;") == s && ReplaceIfIn(s, '>', "&gt;") == s
    ensures ReplaceIfIn(s, '"', "&quot;") == s && ReplaceIfIn(s, '\n', "&#10;") == s
  {
  }

  lemma ReplaceOne(x: char, c: char, sub: string)
    ensures ReplaceIfIn([x], c, sub) == if x == c then sub else [x]
  {
    assert [x][1..] == [];
    assert Replace([x], c, sub) == (if x == c then sub else [x]) + [];
  }

  lemma {:induction false} EncodeAscii(s: string, enc: Encoding)
    requires forall i :: 0 <= i < |s| ==> s[i] as int < 0x80
    ensures Encode(s, enc) == s
  {
    if s != [] {
      EncodeAscii(s[1..], enc);
    }
  }

  lemma EscapeOne(ctx: Context, c: char, enc: Encoding)
    ensures Escape(ctx, [c], enc) == Piece(ctx, c, enc)
  {
    ReplaceOne(c, '&', "&amp;");
    if c == '&' {
      Untouched("&amp;");
      EncodeAscii("&amp;", enc);
    } else {
      ReplaceOne(c, '<', "&lt;");
      if c == '<' {
        Untouched("&lt;");
        EncodeAscii("&lt;", enc);
      } else {
        ReplaceOne(c, '>', "&gt;");
        if c == '>' {
          Untouched("&gt;");
          EncodeAscii("&gt;", enc);
        } else {
          EscapeOther(ctx, c, enc);
        }
      }
    }
  }

  lemma EscapeOther(ctx: Context, c: char, enc: Encoding)
    requires c !in {'&', '<', '>'} && ReplaceCdata([c]) == [c]
    ensures Escape(ctx, [c], enc) == Piece(ctx, c, enc)
  {
    hide ReplaceCdata;
    ReplaceOne(c, '"', "&quot;");
    if ctx.Attrib? && c == '"' {
      Untouched("&quot;");
      EncodeAscii("&quot;", enc);
    } else {
      ReplaceOne(c, '\n', "&#10;");
      if ctx.Attrib? && c == '\n' {
        EncodeAscii("&#10;", enc);
      } else {
        assert [c][1..] == [];
        assert Encode([c], enc) == Piece(ctx, c, enc) + Encode([], enc);
      }
    }
  }

  /** The chain of replacements is one pass over the characters, because '&' is replaced first. */
  lemma {:induction false} EscapeIsOnePass(ctx: Context, s: string, enc: Encoding)
    ensures Escape(ctx, s, enc) == OnePass(ctx, s, enc)
  {
    if s == [] {
    } else {
      assert s == [s[0]] + s[1..];
      EscapeAppend(ctx, [s[0]], s[1..], enc);
      EscapeOne(ctx, s[0], enc);
      EscapeIsOnePass(ctx, s[1..], enc);
    }
  }

  // ---------------------------------------------------------------------------
  // The reader's side
  // ---------------------------------------------------------------------------

  /** End-of-line handling, section 2.11 of XML 1.0. */
  function NormalizeLines(s: string): string {
    if s == [] then []
    else if s[0] != '\r' then [s[0]] + NormalizeLines(s[1..])
    else if |s| > 1 && s[1] == '\n' then "\n" + NormalizeLines(s[2..])
    else "\n" + NormalizeLines(s[1..])
  }

  function HexValue(c: char): Option<nat> {
    if '0' <= c <= '9' then Some(c as int - '0' as int)
    else if 'a' <= c <= 'f' then Some(c as int - 'a' as int + 10)
    else if 'A' <= c <= 'F' then Some(c as int - 'A' as int + 10)
    else None
  }

  function ParseHex(s: string): Option<nat> {
    if s == [] then Some(0)
    else
      var high := ParseHex(s[..|s| - 1]);
      var low := HexValue(s[|s| - 1]);
      if high.None? || low.None? then None else Some(16 * high.value + low.value)
  }

  /** The character with code point n, if there is one and XML allows it. */
  function CharAt(n: nat): Option<char> {
    if (n < 0xD800 || 0xE000 <= n < 0x11_0000) && IsChar(n as char) then Some(n as char) else None
  }

  /** The character that the reference "&name;" stands for, sections 4.1 and 4.6. */
  function RefValue(name: string): Option<char> {
    if name == "amp" then Some('&')
    else if name == "lt" then Some('<')
    else if name == "gt" then Some('>')
    else if name == "quot" then Some('"')
    else if name == "apos" then Some('\'')
    else if |name| > 2 && name[0] == '#' && name[1] == 'x' then
      var n := ParseHex(name[2..]);
      if n.None? then None else CharAt(n.value)
    else if |name| > 1 && name[0] == '#' && AllDigits(name[1..]) then CharAt(ParseDec(name[1..]))
    else None
  }

  /** The value of raw character data or of a raw attribute value; None when it is not well formed.
      Attribute values are normalized as in section 3.3.3. */
  function Decode(ctx: Context, s: string): Option<string>
    decreases |s|
  {
    if s == [] then Some([])
    else if s[0] == '&' then
      var i := Find(s, ';');
      if i == |s| then None
      else
        var c := RefValue(s[1..i]);
        var rest := Decode(ctx, s[i + 1..]);
        if c.None? || rest.None? then None else Some([c.value] + rest.value)
    else if s[0] == '<' || !IsChar(s[0]) then None
    else
      var rest := Decode(ctx, s[1..]);
      if rest.None? then None
      else Some([if ctx.Attrib? && IsSpace(s[0]) then ' ' else s[0]] + rest.value)
  }

  /** What a reader makes of a stretch of text or of an attribute value in a file. */
  function ReadBack(ctx: Context, s: string): Option<string> {
    Decode(ctx, NormalizeLines(s))
  }

  lemma DecodeRef(ctx: Context, name: string, rest: string)
    requires ';' !in name
    ensures Decode(ctx, "&" + name + ";" + rest) ==
      if RefValue(name).None? || Decode(ctx, rest).None? then None
      else Some([RefValue(name).value] + Decode(ctx, rest).value)
  {
    var s := "&" + name + ";" + rest;
    assert s[|name| + 1] == ';';
    assert forall j :: 1 <= j <= |name| ==> s[j] == name[j - 1];
    assert Find(s, ';') == |name| + 1;
    assert s[1..|name| + 1] == name;
    assert s[|name| + 2..] == rest;
  }

  lemma DecRef(c: char)
    ensures RefValue("#" + Dec(c as int)) == if IsChar(c) then Some(c) else None
    ensures ';' !in "#" + Dec(c as int)
  {
    DecParses(c as int);
    assert ("#" + Dec(c as int))[1..] == Dec(c as int);
    assert IsDigit(Dec(c as int)[0]);
  }

  lemma FixedRefs()
    ensures RefValue("#10") == Some('\n')
  {
    assert "#10"[1..] == "10" && "10"[..1] == "1" && "1"[..0] == [];
    assert ParseDec("1") == 1;
    assert ParseDec("10") == 10;
  }

  /** What a character in the file is read as when the written character was c. */
  function ReadsAs(ctx: Context, c: char): char {
    if ctx.Attrib? && c in {'\t', '\r'} then ' ' else c
  }

  lemma DecodeNamed(ctx: Context, c: char, name: string, piece: string, rest: string)
    requires piece == "&" + name + ";" && ';' !in name && RefValue(name) == Some(c)
    ensures Decode(ctx, piece + rest) ==
      if Decode(ctx, rest).None? then None else Some([c] + Decode(ctx, rest).value)
  {
    DecodeRef(ctx, name, rest);
  }

  lemma DecodePlain(ctx: Context, c: char, rest: string)
    requires c != '&' && c != '<' && !(ctx.Attrib? && c == '\n')
    ensures Decode(ctx, [c] + rest) ==
      if !IsChar(c) || Decode(ctx, rest).None? then None
      else Some([ReadsAs(ctx, c)] + Decode(ctx, rest).value)
  {
    assert ([c] + rest)[1..] == rest;
  }

  /** One written character is read back as itself; a tab or a carriage return that stands in an
      attribute value is read as a space, and a character that XML does not allow is refused. */
  lemma DecodePiece(ctx: Context, c: char, enc: Encoding, rest: string)
    ensures Decode(ctx, Piece(ctx, c, enc) + rest) ==
      if !IsChar(c) || Decode(ctx, rest).None? then None
      else Some([ReadsAs(ctx, c)] + Decode(ctx, rest).value)
  {
    hide Decode;
    if c == '&' || c == '<' || c == '>' || (ctx.Attrib? && (c == '"' || c == '\n')) {
      DecodeFixed(ctx, c, enc, rest);
    } else if Encodable(c, enc) {
      DecodePlain(ctx, c, rest);
    } else {
      DecodeNumbered(ctx, c, rest);
    }
  }

  lemma DecodeNumbered(ctx: Context, c: char, rest: string)
    ensures Decode(ctx, ("&#" + Dec(c as int) + ";") + rest) ==
      if !IsChar(c) || Decode(ctx, rest).None? then None
      else Some([c] + Decode(ctx, rest).value)
  {
    hide Decode;
    hide RefValue;
    DecRef(c);
    hide Dec;
    hide IsChar;
    var name := "#" + Dec(c as int);
    assert "&" + name + ";" == "&#" + Dec(c as int) + ";" by {
      Assoc("&", "#", Dec(c as int));
    }
    DecodeRef(ctx, name, rest);
  }

  /** The characters that have a replacement of their own. */
  lemma DecodeFixed(ctx: Context, c: char, enc: Encoding, rest: string)
    requires c == '&' || c == '<' || c == '>' || (ctx.Attrib? && (c == '"' || c == '\n'))
    ensures Decode(ctx, Piece(ctx, c, enc) + rest) ==
      if Decode(ctx, rest).None? then None else Some([c] + Decode(ctx, rest).value)
  {
    hide Decode;
    FixedRefs();
    var name :=
      if c == '&' then "amp" else if c == '<' then "lt" else if c == '>' then "gt" else if c == '"' then "quot"
      else "#10";
    assert RefValue(name) == Some(c);
    hide RefValue;
    assert ';' !in name;
    assert Piece(ctx, c, enc) == "&" + name + ";";
    DecodeNamed(ctx, c, name, "&" + name + ";", rest);
  }

  /** The text with carriage returns and tabs turned into spaces. */
  function Spaced(s: string): string {
    seq(|s|, i requires 0 <= i < |s| => ReadsAs(Attrib, s[i]))
  }

  lemma {:induction false} DecodeOnePass(ctx: Context, s: string, enc: Encoding)
    ensures Decode(ctx, OnePass(ctx, s, enc)) ==
      if AllChars(s) then Some(if ctx.Attrib? then Spaced(s) else s) else None
  {
    if s != [] {
      DecodeOnePass(ctx, s[1..], enc);
      DecodePiece(ctx, s[0], enc, OnePass(ctx, s[1..], enc));
      assert AllChars(s) <==> IsChar(s[0]) && AllChars(s[1..]);
      assert s == [s[0]] + s[1..];
      assert Spaced(s) == [ReadsAs(Attrib, s[0])] + Spaced(s[1..]);
      if AllChars(s) {
        assert Decode(ctx, OnePass(ctx, s[1..], enc)).value == if ctx.Attrib? then Spaced(s[1..]) else s[1..];
      }
    } else {
      assert Spaced(s) == [];
    }
  }

  lemma {:induction false} NormalizeNoCr(p: string, rest: string)
    requires '\r' !in p
    ensures NormalizeLines(p + rest) == p + NormalizeLines(rest)
  {
    if p == [] {
      assert p + rest == rest;
    } else {
      assert (p + rest)[1..] == p[1..] + rest;
      NormalizeNoCr(p[1..], rest);
    }
  }

  lemma PieceHasNoCr(ctx: Context, c: char, enc: Encoding)
    ensures c != '\r' ==> '\r' !in Piece(ctx, c, enc)
    ensures c == '\r' ==> Piece(ctx, c, enc) == "\r"
    ensures Piece(ctx, c, enc) != []
    ensures Piece(ctx, c, enc)[0] == '\n' <==> ctx.Cdata? && c == '\n'
    ensures ctx.Cdata? && c == '\n' ==> Piece(ctx, c, enc) == "\n"
  {
    DecParses(c as int);
  }

  /** In character data the escapes leave line ends alone. */
  lemma {:induction false} NormalizeCdata(s: string, enc: Encoding)
    ensures NormalizeLines(OnePass(Cdata, s, enc)) == OnePass(Cdata, NormalizeLines(s), enc)
    decreases |s|
  {
    if s != [] {
      PieceHasNoCr(Cdata, s[0], enc);
      NormalizeCdata(s[1..], enc);
      var rest := OnePass(Cdata, s[1..], enc);
      if s[0] != '\r' {
        NormalizeNoCr(Piece(Cdata, s[0], enc), rest);
      } else {
        assert ("\r" + rest)[1..] == rest;
        PieceHasNoCr(Cdata, '\n', enc);
        if |s| > 1 {
          PieceHasNoCr(Cdata, s[1], enc);
          NormalizeCdata(s[2..], enc);
          assert s[1..][1..] == s[2..];
          assert s[1] == '\n' ==> ("\r" + rest)[2..] == OnePass(Cdata, s[2..], enc);
        }
      }
    }
  }

  /** In attribute values no carriage return is followed by a raw line feed. */
  lemma {:induction false} NormalizeAttrib(s: string, enc: Encoding)
    ensures Decode(Attrib, NormalizeLines(OnePass(Attrib, s, enc))) == Decode(Attrib, OnePass(Attrib, s, enc))
  {
    if s != [] {
      PieceHasNoCr(Attrib, s[0], enc);
      NormalizeAttrib(s[1..], enc);
      var rest := OnePass(Attrib, s[1..], enc);
      DecodePiece(Attrib, s[0], enc, rest);
      if s[0] != '\r' {
        NormalizeNoCr(Piece(Attrib, s[0], enc), rest);
        DecodePiece(Attrib, s[0], enc, NormalizeLines(rest));
      } else {
        if |s| > 1 {
          PieceHasNoCr(Attrib, s[1], enc);
        }
        assert ("\r" + rest)[1..] == rest;
        assert ("\n" + NormalizeLines(rest))[1..] == NormalizeLines(rest);
      }
    }
  }

  lemma {:induction false} NormalizeKeepsChars(s: string)
    ensures AllChars(NormalizeLines(s)) <==> AllChars(s)
    ensures '\r' !in NormalizeLines(s)
    ensures '\r' !in s ==> NormalizeLines(s) == s
    decreases |s|
  {
    if s != [] {
      NormalizeKeepsChars(s[1..]);
      assert AllChars(s) <==> IsChar(s[0]) && AllChars(s[1..]);
      assert s == [s[0]] + s[1..];
      if |s| > 1 {
        NormalizeKeepsChars(s[2..]);
        assert s[1..] == [s[1]] + s[2..];
        assert AllChars(s[1..]) <==> IsChar(s[1]) && AllChars(s[2..]);
      }
      var n := NormalizeLines(s);
      assert n == [n[0]] + n[1..];
    }
  }

  /** Escaped character data is read back with its line ends normalized and nothing else changed. So it is
      read back unchanged exactly when every character is allowed in XML and none is a carriage return. */
  lemma CdataReadBack(s: string, enc: Encoding)
    ensures ReadBack(Cdata, Escape(Cdata, s, enc)) == if AllChars(s) then Some(NormalizeLines(s)) else None
    ensures ReadBack(Cdata, Escape(Cdata, s, enc)) == Some(s) <==> AllChars(s) && '\r' !in s
  {
    EscapeIsOnePass(Cdata, s, enc);
    NormalizeCdata(s, enc);
    DecodeOnePass(Cdata, NormalizeLines(s), enc);
    NormalizeKeepsChars(s);
  }

  /** An escaped attribute value is read back unchanged exactly when every character is allowed in XML and
      none is a carriage return or a tab; those are read as spaces. Line feeds survive. */
  lemma AttribReadBack(s: string, enc: Encoding)
    ensures ReadBack(Attrib, Escape(Attrib, s, enc)) == if AllChars(s) then Some(Spaced(s)) else None
    ensures ReadBack(Attrib, Escape(Attrib, s, enc)) == Some(s) <==> AllChars(s) && '\r' !in s && '\t' !in s
  {
    EscapeIsOnePass(Attrib, s, enc);
    NormalizeAttrib(s, enc);
    DecodeOnePass(Attrib, s, enc);
    if Spaced(s) == s {
      forall i | 0 <= i < |s|
        ensures s[i] !in {'\t', '\r'}
      {
        assert Spaced(s)[i] == s[i];
      }
    }
  }

  /** What the special characters are written as; EscapeAppend puts the pieces together. */
  lemma SpecialsWritten(ctx: Context, enc: Encoding)
    ensures Escape(ctx, "&", enc) == "&amp;" && Escape(ctx, "<", enc) == "&lt;" && Escape(ctx, ">", enc) == "&gt;"
    ensures Escape(ctx, "\"", enc) == if ctx.Attrib? then "&quot;" else "\""
    ensures Escape(ctx, "\n", enc) == if ctx.Attrib? then "&#10;" else "\n"
  {
    hide Escape;
    EscapeOne(ctx, '&', enc);
    EscapeOne(ctx, '<', enc);
    EscapeOne(ctx, '>', enc);
    EscapeOne(ctx, '"', enc);
    EscapeOne(ctx, '\n', enc);
    hide Dec;
  }

  /** A character that us-ascii does not have is written by its number. */
  lemma NumberWritten(ctx: Context)
    ensures Escape(ctx, [233 as char], Ascii) == "&#233;" && Escape(ctx, [233 as char], Utf8) == [233 as char]
  {
    hide Escape;
    EscapeOne(ctx, 233 as char, Ascii);
    EscapeOne(ctx, 233 as char, Utf8);
    NumeralOf233();
    hide Dec;
  }

  lemma NumeralOf233()
    ensures "&#" + Dec(233) + ";" == "&#233;"
  {
    assert Dec(2) == "2";
    assert Dec(23) == "23";
    assert Dec(233) == "233";
  }

  /** The encoding has every character of s. */
  predicate Held(s: string, enc: Encoding) {
    forall i :: 0 <= i < |s| ==> Encodable(s[i], enc)
  }

  lemma HeldAppend(a: string, b: string, enc: Encoding)
    ensures Held(a + b, enc) <==> Held(a, enc) && Held(b, enc)
  {
    assert forall i :: 0 <= i < |a| ==> (a + b)[i] == a[i];
    assert forall i :: 0 <= i < |b| ==> (a + b)[|a| + i] == b[i];
  }

  lemma EscapeIsHeld(ctx: Context, s: string, enc: Encoding)
    ensures Held(Escape(ctx, s, enc), enc)
  {
    EscapeIsClean(ctx, s, enc);
  }

  lemma {:induction false} EncodeIsHeld(s: string, enc: Encoding)
    ensures Held(Encode(s, enc), enc)
  {
    if s != [] {
      EncodeIsHeld(s[1..], enc);
      NumberIsHeld(s[0] as int, enc);
      hide Dec;
      HeldAppend(if Encodable(s[0], enc) then [s[0]] else "&#" + Dec(s[0] as int) + ";", Encode(s[1..], enc), enc);
    }
  }

  lemma NumberIsHeld(n: nat, enc: Encoding)
    ensures Held("&#" + Dec(n) + ";", enc)
  {
    NumberIsClean(Cdata, n, enc);
  }

  /** What a reader makes of a carriage return in a text and of a tab in an attribute. */
  lemma LineEndsAreLost(enc: Encoding)
    ensures ReadBack(Cdata, Escape(Cdata, "\r", enc)) == Some("\n")
    ensures ReadBack(Attrib, Escape(Attrib, "\t", enc)) == Some(" ")
  {
    CdataReadBack("\r", enc);
    AttribReadBack("\t", enc);
    hide ReadBack;
    hide Escape;
    assert "\r"[1..] == [];
    assert NormalizeLines("\r") == "\n";
    assert Spaced("\t") == " ";
  }

  /** No markup character, and nothing that the encoding cannot hold. */
  predicate Clean(ctx: Context, s: string, enc: Encoding) {
    forall i :: 0 <= i < |s| ==>
      s[i] != '<' && s[i] != '>' && (ctx.Attrib? ==> s[i] != '"' && s[i] != '\n') && Encodable(s[i], enc)
  }

  lemma PieceIsClean(ctx: Context, c: char, enc: Encoding)
    ensures Clean(ctx, Piece(ctx, c, enc), enc)
  {
    NumberIsClean(ctx, c as int, enc);
    hide Dec;
  }

  lemma NumberIsClean(ctx: Context, n: nat, enc: Encoding)
    ensures Clean(ctx, "&#" + Dec(n) + ";", enc)
  {
    DecParses(n);
    hide Dec;
    assert Clean(ctx, "&#", enc) && Clean(ctx, ";", enc) && Clean(ctx, Dec(n), enc);
    hide Clean;
    CleanAppend(ctx, "&#", Dec(n), enc);
    CleanAppend(ctx, "&#" + Dec(n), ";", enc);
  }

  lemma CleanAppend(ctx: Context, a: string, b: string, enc: Encoding)
    requires Clean(ctx, a, enc) && Clean(ctx, b, enc)
    ensures Clean(ctx, a + b, enc)
  {
  }

  /** Escaped text holds no markup character, and every character of it can be encoded. */
  lemma {:induction false} EscapeIsClean(ctx: Context, s: string, enc: Encoding)
    ensures Clean(ctx, Escape(ctx, s, enc), enc)
    ensures '\r' !in s ==> '\r' !in Escape(ctx, s, enc)
    ensures s != [] ==> Escape(ctx, s, enc) != []
  {
    hide Escape;
    EscapeIsOnePass(ctx, s, enc);
    if s != [] {
      hide Piece;
      EscapeIsClean(ctx, s[1..], enc);
      EscapeIsOnePass(ctx, s[1..], enc);
      PieceIsClean(ctx, s[0], enc);
      PieceHasNoCr(ctx, s[0], enc);
      hide Clean;
      CleanAppend(ctx, Piece(ctx, s[0], enc), OnePass(ctx, s[1..], enc), enc);
    }
  }
}
