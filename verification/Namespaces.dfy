/** Universal names, the prefix registry, and the table of printed names built before a tree is written. */
module Namespaces {
  import opened Basics
  import opened XmlChars
  import opened Escaping

  const XML_URI := "http://www.w3.org/XML/1998/namespace"
  const XMLNS_URI := "http://www.w3.org/2000/xmlns/"

  datatype WriteError =
    | UnsplittableName   // "{" without "}": the unpacking in add_qname fails
    | UnencodableName    // a name that the encoding cannot hold
    | UnknownName        // a name that is not in the table
    | MissingText        // a comment whose text is None

  // ---------------------------------------------------------------------------
  // Universal names
  // ---------------------------------------------------------------------------

  /** The index of the last c in s. */
  function RFind(s: string, c: char): (r: Option<nat>)
    ensures r.None? <==> c !in s
    ensures r.Some? ==> r.value < |s| && s[r.value] == c && c !in s[r.value + 1..]
  {
    if s == [] then None
    else if s[|s| - 1] == c then Some(|s| - 1)
    else
      assert s == s[..|s| - 1] + [s[|s| - 1]];
      var r := RFind(s[..|s| - 1], c);
      assert r.Some? ==> s[r.value + 1..] == s[..|s| - 1][r.value + 1..] + [s[|s| - 1]];
      r
  }

  /** True of names of the form "{...". */
  predicate IsQualified(q: string) {
    q != [] && q[0] == '{'
  }

  /** The URI and the local part of "{uri}local". */
  function SplitName(q: string): Option<(string, string)>
    requires IsQualified(q)
  {
    var i := RFind(q, '}');
    if i.None? then None else Some((q[1..i.value], q[i.value + 1..]))
  }

  function Universal(uri: string, local: string): string {
    "{" + uri + "}" + local
  }

  lemma RFindAt(s: string, c: char, i: nat)
    requires i < |s| && s[i] == c && c !in s[i + 1..]
    ensures RFind(s, c) == Some(i)
  {
    var r := RFind(s, c).value;
    assert forall j :: i < j < |s| ==> s[j] == s[i + 1..][j - i - 1];
    assert forall j :: r < j < |s| ==> s[j] == s[r + 1..][j - r - 1];
  }

  lemma SplitUniversal(uri: string, local: string)
    requires '}' !in local
    ensures IsQualified(Universal(uri, local)) && SplitName(Universal(uri, local)) == Some((uri, local))
  {
    var a := "{" + uri;
    var q := Universal(uri, local);
    Assoc(a, "}", local);
    Cut(a, "}" + local);
    Cut(a + "}", local);
    Cut("{", uri);
    assert q[|a|] == '}';
    RFindAt(q, '}', |a|);
    hide RFind;
    assert q[1..|a|] == q[..|a|][1..];
  }

  lemma SplitIsUniversal(q: string)
    requires IsQualified(q) && SplitName(q).Some?
    ensures q == Universal(SplitName(q).value.0, SplitName(q).value.1)
  {
    var i := RFind(q, '}').value;
    hide RFind;
    assert q[i..] == "}" + q[i + 1..];
    assert q[..i] == "{" + q[1..i];
    assert q == q[..i] + q[i..];
    Assoc("{" + q[1..i], "}", q[i + 1..]);
  }

  /** A name splits into a URI and a local part exactly if it is made from them and the local part has no brace. */
  lemma SplitNameIff(q: string, uri: string, local: string)
    requires IsQualified(q)
    ensures SplitName(q) == Some((uri, local)) <==> q == Universal(uri, local) && '}' !in local
  {
    if SplitName(q) == Some((uri, local)) {
      SplitIsUniversal(q);
    } else if '}' !in local {
      SplitUniversal(uri, local);
    }
    hide Universal;
  }

  /** A name that a parser can deliver: "local", or "{uri}local" with a URI that may be declared. */
  predicate IsUniversalName(q: string) {
    if IsQualified(q) then
      var p := SplitName(q);
      && p.Some? && p.value.0 != [] && p.value.0 != XMLNS_URI && AllChars(p.value.0) && IsNCName(p.value.1)
    else IsNCName(q)
  }

  // ---------------------------------------------------------------------------
  // The registry
  // ---------------------------------------------------------------------------

  const XHTML_URI := "http://www.w3.org/1999/xhtml"
  const RDF_URI := "http://www.w3.org/1999/02/22-rdf-syntax-ns#"
  const WSDL_URI := "http://schemas.xmlsoap.org/wsdl/"
  const SCHEMA_URI := "http://www.w3.org/2001/XMLSchema"
  const INSTANCE_URI := "http://www.w3.org/2001/XMLSchema-instance"
  const DC_URI := "http://purl.org/dc/elements/1.1/"

  const WELL_KNOWN: map<string, string> := map[
    XML_URI := "xml",
    XHTML_URI := "html",
    RDF_URI := "rdf",
    WSDL_URI := "wsdl",
    SCHEMA_URI := "xs",
    INSTANCE_URI := "xsi",
    DC_URI := "dc"
  ]

  /** A full match of ns\d+$, where $ also matches before a final newline. */
  predicate IsReserved(prefix: string) {
    var p := if prefix != [] && prefix[|prefix| - 1] == '\n' then prefix[..|prefix| - 1] else prefix;
    |p| > 2 && p[..2] == "ns" && AllDigits(p[2..])
  }

  ghost predicate Injective(m: map<string, string>) {
    forall u, v :: u in m && v in m && m[u] == m[v] ==> u == v
  }

  /** What register_namespace always keeps. */
  ghost predicate RegistryInv(reg: map<string, string>) {
    && Injective(reg)
    && (forall u <- reg :: !IsReserved(reg[u]))
  }

  /** What a registry needs on top of that for its prefixes to be declared in a document. */
  ghost predicate Declarable(reg: map<string, string>) {
    && (forall u <- reg :: IsNCName(reg[u]) && reg[u] != "xmlns" && (reg[u] == "xml" ==> u == XML_URI))
    && XML_URI in reg && reg[XML_URI] == "xml"
  }

  function Registered(reg: map<string, string>, prefix: string, uri: string): map<string, string> {
    (map u | u in reg && u != uri && reg[u] != prefix :: reg[u])[uri := prefix]
  }

  class Registry {
    var table: map<string, string>

    constructor ()
      ensures table == WELL_KNOWN
    {
      table := WELL_KNOWN;
    }

    /** Returns false where the source raises ValueError. */
    method RegisterNamespace(prefix: string, uri: string) returns (ok: bool)
      modifies this
      ensures ok <==> !IsReserved(prefix)
      ensures table == if ok then Registered(old(table), prefix, uri) else old(table)
    {
      if IsReserved(prefix) {
        return false;
      }
      var keys := table.Keys;
      while keys != {}
        invariant keys <= old(table).Keys
        invariant forall u :: u in table <==>
          u in old(table) && (u in keys || (u != uri && old(table)[u] != prefix))
        invariant forall u <- table :: table[u] == old(table)[u]
        decreases keys
      {
        var k :| k in keys;
        if k == uri || table[k] == prefix {
          table := table - {k};
        }
        keys := keys - {k};
      }
      table := table[uri := prefix];
      return true;
    }
  }

  lemma UrisDiffer()
    ensures |XML_URI| == 36 && |XHTML_URI| == 28 && |RDF_URI| == 43 && |INSTANCE_URI| == 41
    ensures |WSDL_URI| == |SCHEMA_URI| == |DC_URI| == 32
    ensures WSDL_URI[7] == 's' && SCHEMA_URI[7] == 'w' && DC_URI[7] == 'p'
  {
  }

  lemma ShortName(p: string)
    requires 2 <= |p| <= 4 && forall i :: 0 <= i < |p| ==> 'a' <= p[i] <= 'z'
    ensures IsNCName(p) && p != "xmlns" && !IsReserved(p)
  {
    assert forall i :: 2 <= i < |p| ==> p[i] == p[2..][i - 2];
  }

  /** The registry that the module starts with can be used. */
  lemma WellKnownIsFine()
    ensures RegistryInv(WELL_KNOWN) && Declarable(WELL_KNOWN)
  {
    hide IsNCName;
    hide IsReserved;
    UrisDiffer();
    ShortName("xml");
    ShortName("html");
    ShortName("rdf");
    ShortName("wsdl");
    ShortName("xs");
    ShortName("xsi");
    ShortName("dc");
  }

  /** Every call keeps the registry injective and free of ns<digits>, whatever prefix and URI it is given. */
  lemma RegisteredKeepsInv(reg: map<string, string>, prefix: string, uri: string)
    requires RegistryInv(reg) && !IsReserved(prefix)
    ensures RegistryInv(Registered(reg, prefix, uri))
  {
  }

  /** The call binds an NCName other than xmlns, and xml only to its own namespace. */
  predicate KeepsDeclarable(prefix: string, uri: string) {
    IsNCName(prefix) && prefix != "xmlns" && (prefix == "xml" <==> uri == XML_URI)
  }

  /** A call keeps the registry declarable exactly when its prefix is an NCName other than xmlns, and it binds
      xml to the XML namespace and nothing else to it. */
  lemma RegisteredKeepsDeclarable(reg: map<string, string>, prefix: string, uri: string)
    requires RegistryInv(reg) && Declarable(reg)
    ensures Declarable(Registered(reg, prefix, uri)) <==> KeepsDeclarable(prefix, uri)
  {
    hide IsNCName;
    hide IsReserved;
    var r := Registered(reg, prefix, uri);
    assert r[uri] == prefix;
    if Declarable(r) && uri == XML_URI {
      assert r[XML_URI] == "xml";
    }
  }

  /** The new entry is there, the entries with its URI or its prefix are gone, and all others stay. */
  lemma RegisteredKeepsOthers(reg: map<string, string>, prefix: string, uri: string)
    ensures var r := Registered(reg, prefix, uri);
      && uri in r && r[uri] == prefix
      && (forall u :: u != uri ==> (u in r <==> u in reg && reg[u] != prefix))
      && (forall u <- r :: u != uri ==> r[u] == reg[u])
  {
  }

  /** The prefixes that are refused: ns and one or more digits, with or without a newline after them. */
  lemma ReservedIff(prefix: string)
    ensures IsReserved(prefix) <==>
      exists d :: DigitsOnly(d) && (prefix == "ns" + d || prefix == "ns" + d + "\n")
  {
    if IsReserved(prefix) {
      var p := if prefix != [] && prefix[|prefix| - 1] == '\n' then prefix[..|prefix| - 1] else prefix;
      assert p == "ns" + p[2..] && DigitsOnly(p[2..]);
      assert p != prefix ==> prefix == p + "\n";
    }
    if d :| DigitsOnly(d) && (prefix == "ns" + d || prefix == "ns" + d + "\n") {
      var p := "ns" + d;
      assert p[..2] == "ns" && p[2..] == d && p[|p| - 1] == d[|d| - 1] != '\n';
      assert (p + "\n")[..|p|] == p && (p + "\n")[|p|] == '\n';
    }
  }

  predicate DigitsOnly(d: string) {
    d != "" && forall i :: 0 <= i < |d| ==> '0' <= d[i] <= '9'
  }

  /** The prefixes that are known from the start. */
  lemma WellKnownPrefixes()
    ensures var r := WELL_KNOWN;
      && |r| == 7
      && "http://www.w3.org/XML/1998/namespace" in r && r["http://www.w3.org/XML/1998/namespace"] == "xml"
      && "http://www.w3.org/1999/xhtml" in r && r["http://www.w3.org/1999/xhtml"] == "html"
      && "http://www.w3.org/1999/02/22-rdf-syntax-ns#" in r && r["http://www.w3.org/1999/02/22-rdf-syntax-ns#"] == "rdf"
      && "http://schemas.xmlsoap.org/wsdl/" in r && r["http://schemas.xmlsoap.org/wsdl/"] == "wsdl"
      && "http://www.w3.org/2001/XMLSchema" in r && r["http://www.w3.org/2001/XMLSchema"] == "xs"
      && "http://www.w3.org/2001/XMLSchema-instance" in r && r["http://www.w3.org/2001/XMLSchema-instance"] == "xsi"
      && "http://purl.org/dc/elements/1.1/" in r && r["http://purl.org/dc/elements/1.1/"] == "dc"
  {
    UrisDiffer();
  }

  /** The empty prefix is accepted, and the table can no longer be declared. */
  lemma EmptyPrefixAccepted()
    ensures !IsReserved("") && Declarable(WELL_KNOWN) && !Declarable(Registered(WELL_KNOWN, "", "u"))
  {
    WellKnownIsFine();
    assert !IsNCName("");
    RegisteredKeepsDeclarable(WELL_KNOWN, "", "u");
    hide Declarable;
    hide RegistryInv;
    hide Registered;
  }

  /** The registry after some calls of register_namespace; a call that raises leaves it alone. */
  function RegisteredAll(reg: map<string, string>, calls: seq<(string, string)>): map<string, string>
    decreases calls
  {
    if calls == [] then reg
    else
      var (prefix, uri) := calls[0];
      RegisteredAll(if IsReserved(prefix) then reg else Registered(reg, prefix, uri), calls[1..])
  }

  /** After any calls the registry is injective and free of ns<digits>; and it can be declared if every call that
      does not raise keeps to the rule. */
  lemma {:induction false} RegistryRuns(reg: map<string, string>, calls: seq<(string, string)>)
    requires RegistryInv(reg)
    ensures RegistryInv(RegisteredAll(reg, calls))
    ensures Declarable(reg) && (forall c <- calls :: IsReserved(c.0) || KeepsDeclarable(c.0, c.1))
            ==> Declarable(RegisteredAll(reg, calls))
    decreases calls
  {
    if calls != [] {
      var (prefix, uri) := calls[0];
      hide RegistryInv;
      hide Declarable;
      hide IsReserved;
      hide KeepsDeclarable;
      assert calls[0] in calls && forall c <- calls[1..] :: c in calls;
      if IsReserved(prefix) {
        RegistryRuns(reg, calls[1..]);
      } else {
        RegisteredKeepsInv(reg, prefix, uri);
        if Declarable(reg) {
          RegisteredKeepsDeclarable(reg, prefix, uri);
        }
        hide Registered;
        RegistryRuns(Registered(reg, prefix, uri), calls[1..]);
      }
    }
  }

  // ---------------------------------------------------------------------------
  // The table of printed names
  // ---------------------------------------------------------------------------

  /** qnames maps each name to the name that is printed for it, uris maps each URI to its prefix. */
  datatype Table = Table(qnames: map<string, string>, uris: map<string, string>)

  const EMPTY_TABLE := Table(map[], map[])

  /** str.encode without a fallback. */
  function EncodeStrict(s: string, enc: Encoding): Result<string, WriteError> {
    if forall i :: 0 <= i < |s| ==> Encodable(s[i], enc) then Success(s) else Failure(UnencodableName)
  }

  /** The prefix for a URI; a new one is numbered by the size of the table. */
  function PrefixFor(t: Table, uri: string, reg: map<string, string>): string {
    if uri in t.uris then t.uris[uri]
    else if uri in reg then reg[uri]
    else "ns" + Dec(|t.uris|)
  }

  /** The declarations after a name in the namespace uri has been added. */
  function UrisAfter(t: Table, uri: string, reg: map<string, string>): map<string, string> {
    var prefix := PrefixFor(t, uri, reg);
    if uri !in t.uris && prefix != "xml" then t.uris[uri := prefix] else t.uris
  }

  /** What is printed for a name: without a prefix only the local part is left. */
  function Prefixed(prefix: string, local: string): string {
    if prefix != [] then prefix + ":" + local else local
  }

  function AddName(t: Table, q: string, reg: map<string, string>, enc: Encoding): Result<Table, WriteError> {
    if IsQualified(q) then
      var p := SplitName(q);
      if p.None? then Failure(UnsplittableName)
      else
        var (uri, local) := p.value;
        var printed :- EncodeStrict(Prefixed(PrefixFor(t, uri, reg), local), enc);
        Success(Table(t.qnames[q := printed], UrisAfter(t, uri, reg)))
    else
      var printed :- EncodeStrict(q, enc);
      Success(t.(qnames := t.qnames[q := printed]))
  }

  function AddNames(t: Table, names: seq<string>, reg: map<string, string>, enc: Encoding): Result<Table, WriteError>
    decreases names
  {
    if names == [] then Success(t)
    else
      var t1 :- if names[0] in t.qnames then Success(t) else AddName(t, names[0], reg, enc);
      AddNames(t1, names[1..], reg, enc)
  }

  /** A name in a namespace that is not registered, when n namespaces have been met: the prefix is ns and n. */
  lemma NewPrefix(t: Table, uri: string, local: string, reg: map<string, string>)
    requires '}' !in local && uri !in t.uris && uri !in reg
    ensures var prefix := "ns" + Dec(|t.uris|);
      AddName(t, "{" + uri + "}" + local, reg, Utf8)
      == Success(Table(t.qnames["{" + uri + "}" + local := prefix + ":" + local], t.uris[uri := prefix]))
  {
    SplitUniversal(uri, local);
    hide SplitName;
    GeneratedIsReserved(|t.uris|);
    hide IsReserved;
    hide IsNCName;
    hide Dec;
  }

  /** The first two namespaces that are not registered get ns0 and ns1. */
  lemma FirstPrefixes()
    ensures AddNames(EMPTY_TABLE, ["{u}a", "{v}b"], map[], Utf8) == Success(
      Table(map["{u}a" := "ns0:a", "{v}b" := "ns1:b"], map["u" := "ns0", "v" := "ns1"]))
  {
    FirstPieces();
    NewPrefix(EMPTY_TABLE, "u", "a", map[]);
    var t := Table(map["{u}a" := "ns0:a"], map["u" := "ns0"]);
    NewPrefix(t, "v", "b", map[]);
    hide AddName;
    hide Dec;
    var names := ["{u}a", "{v}b"];
    assert names[1..] == ["{v}b"] && ["{v}b"][1..] == [];
    var t2 := Table(map["{u}a" := "ns0:a", "{v}b" := "ns1:b"], map["u" := "ns0", "v" := "ns1"]);
    assert AddNames(t2, [], map[], Utf8) == Success(t2);
    assert AddNames(t, ["{v}b"], map[], Utf8) == Success(t2);
  }

  lemma FirstPieces()
    ensures "{u}a" == "{" + "u" + "}" + "a" && "{v}b" == "{" + "v" + "}" + "b"
    ensures "{u}a" != "{v}b" && "u" != "v"
    ensures "ns" + Dec(0) == "ns0" && "ns" + Dec(1) == "ns1"
    ensures "ns" + Dec(0) + ":" + "a" == "ns0:a" && "ns" + Dec(1) + ":" + "b" == "ns1:b"
  {
    assert "u"[0] != "v"[0] && "{u}a"[1] != "{v}b"[1];
    assert Dec(0) == "0" && Dec(1) == "1";
  }

  /** A number below n that the prefix was made from. */
  ghost predicate Generated(prefix: string, n: nat) {
    exists i: nat :: i < n && prefix == "ns" + Dec(i)
  }

  ghost predicate UrisOk(uris: map<string, string>, reg: map<string, string>) {
    && Injective(uris)
    && (forall u <- uris :: if u in reg then uris[u] == reg[u] && reg[u] != "xml" else Generated(uris[u], |uris|))
  }

  /** The printed name of q stands for q under the declarations in uris. */
  ghost predicate PrintsAs(q: string, printed: string, uris: map<string, string>) {
    if IsQualified(q) then
      && SplitName(q).Some?
      && var (uri, local) := SplitName(q).value;
      || (uri == XML_URI && printed == "xml:" + local)
      || (uri in uris && printed == uris[uri] + ":" + local)
    else printed == q
  }

  ghost predicate TableOk(t: Table, reg: map<string, string>) {
    && UrisOk(t.uris, reg)
    && (forall q <- t.qnames :: PrintsAs(q, t.qnames[q], t.uris))
  }

  lemma GeneratedIsReserved(i: nat)
    ensures IsReserved("ns" + Dec(i)) && IsNCName("ns" + Dec(i)) && "ns" + Dec(i) != "xml"
  {
    DecParses(i);
    var p := "ns" + Dec(i);
    assert p[2..] == Dec(i);
    assert forall j :: 2 <= j < |p| ==> p[j] == Dec(i)[j - 2] && IsDigit(p[j]);
    assert p[0] == 'n';
  }

  /** Recording a URI keeps the prefixes distinct: a generated number is new because the table has grown,
      and a registered prefix is never of the generated form. */
  lemma PrefixIsNew(uris: map<string, string>, uri: string, reg: map<string, string>, u: string)
    requires RegistryInv(reg) && UrisOk(uris, reg) && uri !in uris && u in uris
    requires uri in reg ==> reg[uri] != "xml"
    ensures uris[u] != if uri in reg then reg[uri] else "ns" + Dec(|uris|)
  {
    if u in reg {
      if uri !in reg {
        GeneratedIsReserved(|uris|);
      }
    } else {
      var i: nat :| i < |uris| && uris[u] == "ns" + Dec(i);
      if uri in reg {
        GeneratedIsReserved(i);
      } else {
        Cut("ns", Dec(i));
        Cut("ns", Dec(|uris|));
        if Dec(i) == Dec(|uris|) {
          DecInjective(i, |uris|);
        }
      }
    }
  }

  lemma GeneratedEarlier(prefix: string, n: nat, m: nat)
    requires Generated(prefix, n) && n <= m
    ensures Generated(prefix, m)
  {
  }

  lemma InjectiveWith(uris: map<string, string>, uri: string, prefix: string)
    requires Injective(uris) && uri !in uris && forall u <- uris :: uris[u] != prefix
    ensures Injective(uris[uri := prefix])
  {
  }

  lemma OneMoreKey<K, V>(m: map<K, V>, k: K, v: V)
    requires k !in m
    ensures |m[k := v]| == |m| + 1
  {
  }

  lemma RecordUri(uris: map<string, string>, uri: string, reg: map<string, string>)
    requires RegistryInv(reg) && UrisOk(uris, reg) && uri !in uris
    requires uri in reg ==> reg[uri] != "xml"
    ensures UrisOk(uris[uri := if uri in reg then reg[uri] else "ns" + Dec(|uris|)], reg)
  {
    var prefix := if uri in reg then reg[uri] else "ns" + Dec(|uris|);
    var r := uris[uri := prefix];
    forall u <- uris
      ensures uris[u] != prefix
    {
      PrefixIsNew(uris, uri, reg, u);
    }
    InjectiveWith(uris, uri, prefix);
    OneMoreKey(uris, uri, prefix);
    assert uri !in reg ==> Generated(prefix, |r|);
    hide Generated;
    hide RegistryInv;
    hide Injective;
    forall u | u in uris && u !in reg
      ensures Generated(r[u], |r|)
    {
      GeneratedEarlier(uris[u], |uris|, |r|);
    }
  }

  /** Further declarations do not change what a printed name stands for. */
  lemma PrintsAsGrows(q: string, printed: string, uris: map<string, string>, uris': map<string, string>)
    requires PrintsAs(q, printed, uris)
    requires forall u <- uris :: u in uris' && uris'[u] == uris[u]
    ensures PrintsAs(q, printed, uris')
  {
  }

  lemma UrisAfterOk(t: Table, uri: string, reg: map<string, string>)
    requires RegistryInv(reg) && Declarable(reg) && UrisOk(t.uris, reg)
    ensures UrisOk(UrisAfter(t, uri, reg), reg)
    ensures PrefixFor(t, uri, reg) != []
    ensures if uri in UrisAfter(t, uri, reg) then UrisAfter(t, uri, reg)[uri] == PrefixFor(t, uri, reg)
            else uri == XML_URI && PrefixFor(t, uri, reg) == "xml"
  {
    if uri in t.uris {
      if uri !in reg {
        var i: nat :| i < |t.uris| && t.uris[uri] == "ns" + Dec(i);
      }
    } else {
      if uri !in reg {
        GeneratedIsReserved(|t.uris|);
      }
      if PrefixFor(t, uri, reg) != "xml" {
        RecordUri(t.uris, uri, reg);
      }
    }
  }

  lemma AddedIs(t: Table, q: string, reg: map<string, string>, enc: Encoding)
    requires AddName(t, q, reg, enc).Success?
    ensures var t' := AddName(t, q, reg, enc).value;
      if IsQualified(q) then
        && SplitName(q).Some?
        && var (uri, local) := SplitName(q).value;
        t' == Table(t.qnames[q := PrefixFor(t, uri, reg) + ":" + local], UrisAfter(t, uri, reg))
        || (PrefixFor(t, uri, reg) == [] && t' == Table(t.qnames[q := local], UrisAfter(t, uri, reg)))
      else t' == t.(qnames := t.qnames[q := q])
  {
    hide SplitName;
    hide PrefixFor;
    hide UrisAfter;
  }

  lemma UrisAfterKeeps(t: Table, uri: string, reg: map<string, string>)
    ensures forall u <- t.uris :: u in UrisAfter(t, uri, reg) && UrisAfter(t, uri, reg)[u] == t.uris[u]
  {
  }

  lemma AddedPrints(t: Table, q: string, reg: map<string, string>, enc: Encoding)
    requires RegistryInv(reg) && Declarable(reg) && UrisOk(t.uris, reg)
    requires AddName(t, q, reg, enc).Success?
    ensures var t' := AddName(t, q, reg, enc).value;
      && t'.qnames == t.qnames[q := t'.qnames[q]]
      && PrintsAs(q, t'.qnames[q], t'.uris)
      && (forall u <- t.uris :: u in t'.uris && t'.uris[u] == t.uris[u])
      && UrisOk(t'.uris, reg)
  {
    AddedIs(t, q, reg, enc);
    if IsQualified(q) {
      var (uri, local) := SplitName(q).value;
      UrisAfterOk(t, uri, reg);
      UrisAfterKeeps(t, uri, reg);
    }
    hide UrisOk;
    hide Declarable;
    hide RegistryInv;
    hide SplitName;
    hide AddName;
    hide UrisAfter;
    hide PrefixFor;
  }

  lemma AddNameKeepsOk(t: Table, q: string, reg: map<string, string>, enc: Encoding)
    requires RegistryInv(reg) && Declarable(reg) && TableOk(t, reg)
    requires AddName(t, q, reg, enc).Success?
    ensures TableOk(AddName(t, q, reg, enc).value, reg)
    ensures AddName(t, q, reg, enc).value.qnames.Keys == t.qnames.Keys + {q}
  {
    AddedPrints(t, q, reg, enc);
    hide AddName;
    hide UrisOk;
    hide Declarable;
    hide RegistryInv;
    hide PrintsAs;
    var t' := AddName(t, q, reg, enc).value;
    forall p <- t'.qnames
      ensures PrintsAs(p, t'.qnames[p], t'.uris)
    {
      if p != q {
        PrintsAsGrows(p, t.qnames[p], t.uris, t'.uris);
      }
    }
  }

  /** For every list of names the table is sound, and it holds exactly the names of the list. */
  lemma {:induction false} AddNamesKeepsOk(t: Table, names: seq<string>, reg: map<string, string>, enc: Encoding)
    requires RegistryInv(reg) && Declarable(reg) && TableOk(t, reg)
    requires AddNames(t, names, reg, enc).Success?
    ensures TableOk(AddNames(t, names, reg, enc).value, reg)
    ensures forall q :: q in AddNames(t, names, reg, enc).value.qnames <==> q in t.qnames || q in names
    decreases names
  {
    if names != [] {
      assert names == [names[0]] + names[1..];
      if names[0] in t.qnames {
        AddNamesKeepsOk(t, names[1..], reg, enc);
      } else {
        AddNameKeepsOk(t, names[0], reg, enc);
        AddNamesKeepsOk(AddName(t, names[0], reg, enc).value, names[1..], reg, enc);
      }
    }
  }

  /** Names that can be printed: they split, and the encoding holds them. */
  predicate Printable(q: string, enc: Encoding) {
    if IsQualified(q) then SplitName(q).Some? && EncodeStrict(SplitName(q).value.1, enc).Success?
    else EncodeStrict(q, enc).Success?
  }

  ghost predicate RegistryEncodable(reg: map<string, string>, enc: Encoding) {
    forall u <- reg :: EncodeStrict(reg[u], enc).Success?
  }

  lemma DecEncodable(n: nat, enc: Encoding)
    ensures EncodeStrict("ns" + Dec(n), enc).Success?
  {
    DecParses(n);
    var p := "ns" + Dec(n);
    assert forall i :: 2 <= i < |p| ==> p[i] == Dec(n)[i - 2] && IsDigit(p[i]);
  }

  /** Names that can be printed with the prefixes of the registry. */
  predicate PrintableWith(q: string, reg: map<string, string>, enc: Encoding) {
    && Printable(q, enc)
    && (IsQualified(q) && SplitName(q).value.0 in reg ==> EncodeStrict(reg[SplitName(q).value.0], enc).Success?)
  }

  /** The prefixes declared so far are the registered ones, and others that can be encoded. */
  ghost predicate UrisEncodable(uris: map<string, string>, reg: map<string, string>, enc: Encoding) {
    forall u <- uris :: if u in reg then uris[u] == reg[u] else EncodeStrict(uris[u], enc).Success?
  }

  lemma PrefixedEncodable(prefix: string, local: string, enc: Encoding)
    ensures EncodeStrict(Prefixed(prefix, local), enc).Success?
            <==> EncodeStrict(prefix, enc).Success? && EncodeStrict(local, enc).Success?
  {
    var p := Prefixed(prefix, local);
    assert forall i :: 0 <= i < |local| ==> p[|p| - |local| + i] == local[i];
    assert forall i :: 0 <= i < |prefix| ==> p[i] == prefix[i];
  }

  /** Adding a name fails exactly when it cannot be printed with the prefixes of the registry. */
  lemma AddNameSucceeds(t: Table, q: string, reg: map<string, string>, enc: Encoding)
    requires UrisEncodable(t.uris, reg, enc)
    ensures AddName(t, q, reg, enc).Success? <==> PrintableWith(q, reg, enc)
  {
    hide SplitName;
    if IsQualified(q) && SplitName(q).Some? {
      var (uri, local) := SplitName(q).value;
      DecEncodable(|t.uris|, enc);
      PrefixedEncodable(PrefixFor(t, uri, reg), local, enc);
      hide EncodeStrict;
      hide Prefixed;
      hide Dec;
      hide UrisAfter;
    }
  }

  lemma AddNameKeepsEncodable(t: Table, q: string, reg: map<string, string>, enc: Encoding)
    requires UrisEncodable(t.uris, reg, enc) && AddName(t, q, reg, enc).Success?
    ensures UrisEncodable(AddName(t, q, reg, enc).value.uris, reg, enc)
    ensures AddName(t, q, reg, enc).value.qnames.Keys == t.qnames.Keys + {q}
  {
    hide SplitName;
    hide UrisEncodable;
    hide Prefixed;
    if IsQualified(q) && SplitName(q).Some? {
      UrisAfterEncodable(t, SplitName(q).value.0, reg, enc);
    }
    hide UrisAfter;
    hide PrefixFor;
  }

  lemma UrisAfterEncodable(t: Table, uri: string, reg: map<string, string>, enc: Encoding)
    requires UrisEncodable(t.uris, reg, enc)
    ensures UrisEncodable(UrisAfter(t, uri, reg), reg, enc)
  {
    DecEncodable(|t.uris|, enc);
    hide EncodeStrict;
    hide Dec;
  }

  /** Building the table fails exactly when some new name cannot be printed with the prefixes of the registry,
      whatever is registered; and then it holds the names of the list. */
  lemma {:induction false} AddNamesSucceeds(t: Table, names: seq<string>, reg: map<string, string>, enc: Encoding)
    requires UrisEncodable(t.uris, reg, enc)
    ensures AddNames(t, names, reg, enc).Success? <==>
      forall q <- names :: q in t.qnames || PrintableWith(q, reg, enc)
    ensures AddNames(t, names, reg, enc).Success? ==>
      forall q :: q in AddNames(t, names, reg, enc).value.qnames <==> q in t.qnames || q in names
    decreases names
  {
    hide UrisEncodable;
    hide PrintableWith;
    hide AddName;
    if names != [] {
      var q := names[0];
      assert names == [q] + names[1..];
      if q in t.qnames {
        AddNamesSucceeds(t, names[1..], reg, enc);
      } else {
        AddNameSucceeds(t, q, reg, enc);
        if AddName(t, q, reg, enc).Success? {
          AddNameKeepsEncodable(t, q, reg, enc);
          AddNamesSucceeds(AddName(t, q, reg, enc).value, names[1..], reg, enc);
        }
      }
    }
  }

  /** Every name and every prefix in the table can be encoded. */
  ghost predicate TableHeld(t: Table, enc: Encoding) {
    (forall q <- t.qnames :: Held(t.qnames[q], enc)) && forall u <- t.uris :: Held(t.uris[u], enc)
  }

  lemma AddNameHeld(t: Table, q: string, reg: map<string, string>, enc: Encoding)
    requires TableHeld(t, enc) && AddName(t, q, reg, enc).Success?
    ensures TableHeld(AddName(t, q, reg, enc).value, enc)
  {
    hide SplitName;
    hide PrefixFor;
    if IsQualified(q) {
      var (uri, local) := SplitName(q).value;
      PrefixedEncodable(PrefixFor(t, uri, reg), local, enc);
      hide Prefixed;
    }
  }

  lemma {:induction false} AddNamesHeld(t: Table, names: seq<string>, reg: map<string, string>, enc: Encoding)
    requires TableHeld(t, enc) && AddNames(t, names, reg, enc).Success?
    ensures TableHeld(AddNames(t, names, reg, enc).value, enc)
    decreases names
  {
    hide TableHeld;
    hide AddName;
    if names != [] {
      if names[0] in t.qnames {
        AddNamesHeld(t, names[1..], reg, enc);
      } else {
        AddNameHeld(t, names[0], reg, enc);
        AddNamesHeld(AddName(t, names[0], reg, enc).value, names[1..], reg, enc);
      }
    }
  }

  lemma EmptyTableOk(reg: map<string, string>)
    ensures TableOk(EMPTY_TABLE, reg)
  {
  }

  /** Every declared prefix is an NCName. */
  lemma PrefixIsNCName(uris: map<string, string>, u: string, reg: map<string, string>)
    requires Declarable(reg) && UrisOk(uris, reg) && u in uris
    ensures IsNCName(uris[u]) && uris[u] != "xml" && uris[u] != "xmlns"
  {
    if u !in reg {
      var i: nat :| i < |uris| && uris[u] == "ns" + Dec(i);
      GeneratedIsReserved(i);
    }
  }

  lemma ColonSplits(p: string, a: string, q: string, b: string)
    requires ':' !in p && ':' !in q && p + ":" + a == q + ":" + b
    ensures p == q && a == b
  {
    var s, r := p + ":" + a, q + ":" + b;
    assert s[|p|] == ':' && r[|q|] == ':';
    assert forall i :: 0 <= i < |p| ==> s[i] == p[i];
    assert forall i :: 0 <= i < |q| ==> r[i] == q[i];
    assert |p| == |q|;
    assert s[..|p|] == p && r[..|q|] == q;
    assert s[|p| + 1..] == a && r[|q| + 1..] == b;
  }

  lemma ColonOnce(p: string, a: string, n: string)
    requires IsNCName(n)
    ensures p + ":" + a != n
  {
    assert (p + ":" + a)[|p|] == ':';
  }

  /** The prefix and the local part of a printed name. */
  lemma PrintedParts(q: string, printed: string, uris: map<string, string>, reg: map<string, string>)
      returns (prefix: string, local: string)
    requires Declarable(reg) && UrisOk(uris, reg) && IsUniversalName(q) && PrintsAs(q, printed, uris) && IsQualified(q)
    ensures printed == prefix + ":" + local && IsNCName(prefix) && IsNCName(local) && prefix != "xmlns"
    ensures SplitName(q).Some? && SplitName(q).value.1 == local
    ensures var uri := SplitName(q).value.0;
      if prefix == "xml" then uri == XML_URI else uri in uris && uris[uri] == prefix
  {
    var (uri, l) := SplitName(q).value;
    local := l;
    if uri == XML_URI && printed == "xml:" + local {
      prefix := "xml";
      ShortName("xml");
    } else {
      prefix := uris[uri];
      PrefixIsNCName(uris, uri, reg);
    }
  }

  lemma SplitIsInjective(p: string, q: string)
    requires IsQualified(p) && IsQualified(q) && SplitName(p).Some? && SplitName(p) == SplitName(q)
    ensures p == q
  {
    var (uri, local) := SplitName(p).value;
    SplitNameIff(p, uri, local);
    SplitNameIff(q, uri, local);
    hide SplitName;
  }

  /** Distinct names never print alike. */
  lemma PrintedNamesDiffer(t: Table, reg: map<string, string>, p: string, q: string)
    requires RegistryInv(reg) && Declarable(reg) && TableOk(t, reg)
    requires p in t.qnames && q in t.qnames && p != q
    requires IsUniversalName(p) && IsUniversalName(q)
    ensures t.qnames[p] != t.qnames[q]
  {
    if t.qnames[p] == t.qnames[q] {
      if IsQualified(p) && IsQualified(q) {
        var a, l := PrintedParts(p, t.qnames[p], t.uris, reg);
        var b, m := PrintedParts(q, t.qnames[q], t.uris, reg);
        ColonSplits(a, l, b, m);
        SplitIsInjective(p, q);
      } else if IsQualified(p) {
        var a, l := PrintedParts(p, t.qnames[p], t.uris, reg);
        ColonOnce(a, l, q);
      } else if IsQualified(q) {
        var b, m := PrintedParts(q, t.qnames[q], t.uris, reg);
        ColonOnce(b, m, p);
      }
    }
  }
}
