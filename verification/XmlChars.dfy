/** Character classes of XML 1.0 (fifth edition) and decimal numerals. */
module XmlChars {

  /** Char, section 2.2 of XML 1.0. */
  predicate IsChar(c: char) {
    var n := c as int;
    n == 0x9 || n == 0xA || n == 0xD || 0x20 <= n <= 0xD7FF || 0xE000 <= n <= 0xFFFD || 0x10000 <= n
  }

  /** S, section 2.3. */
  predicate IsSpace(c: char) {
    c == ' ' || c == '\t' || c == '\r' || c == '\n'
  }

  /** NameStartChar without the colon, section 2.3. */
  predicate IsNameStart(c: char) {
    var n := c as int;
    || 'A' <= c <= 'Z' || 'a' <= c <= 'z' || c == '_'
    || 0xC0 <= n <= 0xD6 || 0xD8 <= n <= 0xF6 || 0xF8 <= n <= 0x2FF || 0x370 <= n <= 0x37D
    || 0x37F <= n <= 0x1FFF || 0x200C <= n <= 0x200D || 0x2070 <= n <= 0x218F || 0x2C00 <= n <= 0x2FEF
    || 0x3001 <= n <= 0xD7FF || 0xF900 <= n <= 0xFDCF || 0xFDF0 <= n <= 0xFFFD || 0x10000 <= n <= 0xEFFFF
  }

  /** NameChar without the colon, section 2.3. */
  predicate IsNameChar(c: char) {
    var n := c as int;
    || IsNameStart(c) || c == '-' || c == '.' || '0' <= c <= '9' || n == 0xB7
    || 0x300 <= n <= 0x36F || 0x203F <= n <= 0x2040
  }

  /** NCName, section 3 of Namespaces in XML 1.0. */
  predicate IsNCName(s: string) {
    s != [] && IsNameStart(s[0]) && forall i :: 0 <= i < |s| ==> IsNameChar(s[i])
  }

  predicate AllChars(s: string) {
    forall i :: 0 <= i < |s| ==> IsChar(s[i])
  }

  /** The decimal numeral of n, as "%d" writes it. */
  function Dec(n: nat): string {
    if n < 10 then [DigitOf(n)] else Dec(n / 10) + [DigitOf(n % 10)]
  }

  function DigitOf(d: nat): char
    requires d < 10
  {
    ('0' as int + d) as char
  }

  predicate IsDigit(c: char) {
    '0' <= c <= '9'
  }

  predicate AllDigits(s: string) {
    forall i :: 0 <= i < |s| ==> IsDigit(s[i])
  }

  /** The value of a decimal numeral. */
  function ParseDec(s: string): nat
    requires AllDigits(s)
  {
    if s == [] then 0 else 10 * ParseDec(s[..|s| - 1]) + (s[|s| - 1] as int - '0' as int)
  }

  lemma {:induction false} DecParses(n: nat)
    ensures Dec(n) != [] && AllDigits(Dec(n)) && ParseDec(Dec(n)) == n
  {
    if n >= 10 {
      DecParses(n / 10);
      assert Dec(n)[..|Dec(n)| - 1] == Dec(n / 10);
    } else {
      assert Dec(n)[..0] == [];
    }
  }

  lemma DecInjective(m: nat, n: nat)
    requires Dec(m) == Dec(n)
    ensures m == n
  {
    DecParses(m);
    DecParses(n);
  }
}
