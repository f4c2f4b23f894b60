/** The declarations written on the root resolve every printed name to the name it was printed for. */
module Scoping {
  import opened Basics
  import opened XmlChars
  import opened Escaping
  import opened Sorting
  import opened Namespaces
  import opened Serializer
  import opened Lexer
  import opened Reader

  // ---------------------------------------------------------------------------
  // What may stand in a tree that is written and read again
  // ---------------------------------------------------------------------------

  predicate NoTabOrCr(s: string) {
    '\t' !in s && '\r' !in s
  }

  predicate UriLegal(u: string) {
    u != [] && u != XMLNS_URI && AllChars(u) && NoTabOrCr(u)
  }

  predicate NameLegal(q: string) {
    IsUniversalName(q) && NoTabOrCr(q)
  }

  /** The name as the XML parser delivers it: without the opening brace. */
  function Delivered(q: string): string {
    if IsQualified(q) then q[1..] else q
  }

  lemma NameUriLegal(q: string)
    requires NameLegal(q) && IsQualified(q)
    ensures SplitName(q).Some? && UriLegal(SplitName(q).value.0)
    ensures Delivered(q) == SplitName(q).value.0 + "}" + SplitName(q).value.1
  {
    var i := RFind(q, '}').value;
    assert q[1..] == q[1..i] + "}" + q[i + 1..];
    assert forall c <- q[1..i] :: c in q;
  }

  /** The URIs in the table come from the names. */
  lemma {:induction false} UrisAreLegal(t: Table, names: seq<string>, reg: map<string, string>, enc: Encoding)
    requires AddNames(t, names, reg, enc).Success?
    requires forall q <- names :: NameLegal(q)
    requires forall u <- t.uris :: UriLegal(u)
    ensures forall u <- AddNames(t, names, reg, enc).value.uris :: UriLegal(u)
    decreases names
  {
    if names != [] {
      var q := names[0];
      assert forall p <- names[1..] :: p in names;
      assert q in names;
      hide NameLegal;
      hide UriLegal;
      if q in t.qnames {
        UrisAreLegal(t, names[1..], reg, enc);
      } else {
        UriAddedLegal(t, q, reg, enc);
        hide AddName;
        UrisAreLegal(AddName(t, q, reg, enc).value, names[1..], reg, enc);
      }
    }
  }

  lemma UriAddedLegal(t: Table, q: string, reg: map<string, string>, enc: Encoding)
    requires AddName(t, q, reg, enc).Success? && NameLegal(q)
    requires forall u <- t.uris :: UriLegal(u)
    ensures forall u <- AddName(t, q, reg, enc).value.uris :: UriLegal(u)
  {
    if IsQualified(q) {
      NameUriLegal(q);
    }
    hide NameLegal;
    hide UriLegal;
    hide SplitName;
  }

  // ---------------------------------------------------------------------------
  // Resolving a printed name
  // ---------------------------------------------------------------------------

  /** The scope declares every URI of the table under its prefix, and nothing as the default namespace. */
  ghost predicate ScopeFor(scope: Scope, uris: map<string, string>) {
    && "xml" in scope && scope["xml"] == XML_URI
    && "" !in scope
    && (forall u <- uris :: uris[u] in scope && scope[uris[u]] == u)
  }

  ghost predicate Sound(t: Table, reg: map<string, string>) {
    && RegistryInv(reg) && Declarable(reg) && TableOk(t, reg)
    && (forall u <- t.uris :: UriLegal(u))
  }

  lemma ColonIsAt(prefix: string, local: string)
    requires IsNCName(prefix)
    ensures var n := prefix + ":" + local;
      Find(n, ':') == |prefix| && n[..|prefix|] == prefix && n[|prefix| + 1..] == local
  {
    FindSkips(prefix, ':', local);
    var n := prefix + ":" + local;
    assert n[..|prefix|] == prefix && n[|prefix| + 1..] == local;
  }

  lemma PrefixedName(prefix: string, local: string)
    requires IsNCName(prefix) && IsNCName(local)
    ensures IsName(prefix + ":" + local)
    ensures prefix != "xmlns" ==> !IsDecl(prefix + ":" + local)
  {
    var n := prefix + ":" + local;
    assert forall i :: 0 <= i < |local| ==> n[|prefix| + 1 + i] == local[i];
    assert n[0] == prefix[0];
    assert n[|prefix|] == ':';
    if "xmlns:" <= n {
      assert n[5] == ':';
      assert |prefix| <= 5;
      assert forall i :: 0 <= i < 5 ==> n[i] == "xmlns:"[i] && n[i] != ':';
      assert prefix == n[..5] == "xmlns";
    }
  }

  lemma PlainName(q: string)
    requires IsNCName(q)
    ensures IsName(q) && Find(q, ':') == |q| && !("xmlns:" <= q)
  {
    assert ':' !in q;
    assert ':' in "xmlns:";
  }

  /** Resolving the printed name against the declarations gives back the original name. */
  lemma PrintedResolves(q: string, t: Table, reg: map<string, string>, scope: Scope, isAttrib: bool)
    requires Sound(t, reg) && ScopeFor(scope, t.uris) && q in t.qnames && NameLegal(q)
    ensures Expand(t.qnames[q], scope, isAttrib) == Some(Delivered(q))
    ensures IsName(t.qnames[q])
    ensures q != "xmlns" ==> !IsDecl(t.qnames[q])
  {
    var printed := t.qnames[q];
    if IsQualified(q) {
      NameUriLegal(q);
      var prefix, local := PrintedParts(q, printed, t.uris, reg);
      hide RFind;
      hide SplitName;
      hide IsNCName;
      hide IsName;
      hide Find;
      ColonIsAt(prefix, local);
      PrefixedName(prefix, local);
    } else {
      PlainName(q);
    }
  }

  // ---------------------------------------------------------------------------
  // The declarations of the root
  // ---------------------------------------------------------------------------

  /** Pairs of prefix and URI that may be declared together. */
  ghost predicate ItemsLegal(items: seq<(string, string)>) {
    && (forall i :: 0 <= i < |items| ==> MayDeclare(items[i].0, items[i].1) && items[i].0 != "xml")
    && DistinctNames(items)
  }

  /** The attributes that declare the items. */
  function DeclsOf(items: seq<(string, string)>): seq<(string, string)> {
    seq(|items|, i requires 0 <= i < |items| => ("xmlns:" + items[i].0, items[i].1))
  }

  /** The scope with the items added. */
  function Bind(scope: Scope, items: seq<(string, string)>): Scope
    decreases items
  {
    if items == [] then scope else Bind(scope[items[0].0 := items[0].1], items[1..])
  }

  lemma {:induction false} DeclareBinds(scope: Scope, items: seq<(string, string)>, rest: seq<(string, string)>)
    requires ItemsLegal(items)
    ensures Declare(scope, DeclsOf(items) + rest) == Declare(Bind(scope, items), rest)
    decreases items
  {
    if items == [] {
      assert DeclsOf(items) + rest == rest;
    } else {
      var name := "xmlns:" + items[0].0;
      assert name[6..] == items[0].0;
      assert (DeclsOf(items) + rest)[1..] == DeclsOf(items[1..]) + rest;
      assert name != "xmlns" by {
        assert |name| > 5;
      }
      DeclareBinds(scope[items[0].0 := items[0].1], items[1..], rest);
    }
  }

  lemma {:induction false} BindBinds(scope: Scope, items: seq<(string, string)>)
    requires DistinctNames(items)
    ensures forall i :: 0 <= i < |items| ==>
      items[i].0 in Bind(scope, items) && Bind(scope, items)[items[i].0] == items[i].1
    ensures forall k :: (forall i :: 0 <= i < |items| ==> items[i].0 != k) ==>
      ((k in Bind(scope, items) <==> k in scope) && (k in scope ==> Bind(scope, items)[k] == scope[k]))
    decreases items
  {
    if items != [] {
      var scope1 := scope[items[0].0 := items[0].1];
      BindBinds(scope1, items[1..]);
      forall i | 0 <= i < |items|
        ensures items[i].0 in Bind(scope, items) && Bind(scope, items)[items[i].0] == items[i].1
      {
        if i > 0 {
          assert items[i] == items[1..][i - 1];
        } else {
          assert forall j :: 0 <= j < |items[1..]| ==> items[1..][j].0 != items[0].0;
        }
      }
      forall k | forall i :: 0 <= i < |items| ==> items[i].0 != k
        ensures (k in Bind(scope, items) <==> k in scope) && (k in scope ==> Bind(scope, items)[k] == scope[k])
      {
        assert forall j :: 0 <= j < |items[1..]| ==> items[1..][j].0 != k;
      }
    }
  }

  lemma {:induction false} DeclareNothing(scope: Scope, attribs: seq<(string, string)>)
    requires forall i :: 0 <= i < |attribs| ==> !IsDecl(attribs[i].0)
    ensures Declare(scope, attribs) == Some(scope)
    decreases attribs
  {
    if attribs != [] {
      DeclareNothing(scope, attribs[1..]);
    }
  }

  lemma {:induction false} DeclsExpandToNothing(items: seq<(string, string)>, rest: seq<(string, string)>, scope: Scope)
    ensures ExpandAttribs(DeclsOf(items) + rest, scope) == ExpandAttribs(rest, scope)
    decreases items
  {
    if items == [] {
      assert DeclsOf(items) + rest == rest;
    } else {
      assert (DeclsOf(items) + rest)[1..] == DeclsOf(items[1..]) + rest;
      DeclsExpandToNothing(items[1..], rest, scope);
    }
  }

  lemma MayDeclareUri(t: Table, reg: map<string, string>, u: string)
    requires Sound(t, reg) && u in t.uris
    ensures MayDeclare(t.uris[u], u) && t.uris[u] != "xml"
  {
    PrefixIsNCName(t.uris, u, reg);
  }

  /** The items are the entries of the table, and no prefix occurs twice. */
  lemma DeclItemsAre(uris: map<string, string>)
    requires Injective(uris)
    ensures forall i :: 0 <= i < |DeclItems(uris)| ==>
      DeclItems(uris)[i].1 in uris && uris[DeclItems(uris)[i].1] == DeclItems(uris)[i].0
    ensures forall u <- uris :: (uris[u], u) in DeclItems(uris)
    ensures DistinctNames(DeclItems(uris))
  {
    var items := DeclItems(uris);
    var pairs := DeclPairs(uris);
    forall i | 0 <= i < |items|
      ensures items[i].1 in uris && items[i].0 == uris[items[i].1]
    {
      assert items[i] in items && items[i] in pairs;
    }
    assert forall i, j :: 0 <= i < j < |items| ==> items[i] != items[j];
  }

  lemma DeclItemsLegal(t: Table, reg: map<string, string>)
    requires Sound(t, reg)
    ensures ItemsLegal(DeclItems(t.uris))
    ensures DeclAttribs(t.uris) == DeclsOf(DeclItems(t.uris))
  {
    DeclItemsAre(t.uris);
    var items := DeclItems(t.uris);
    forall i | 0 <= i < |items|
      ensures MayDeclare(items[i].0, items[i].1) && items[i].0 != "xml"
    {
      MayDeclareUri(t, reg, items[i].1);
    }
    hide DeclItems;
    hide MayDeclare;
    hide Sound;
    DeclAttribsAre(t.uris);
  }

  lemma DeclAttribsAre(uris: map<string, string>)
    requires forall i :: 0 <= i < |DeclItems(uris)| ==> DeclItems(uris)[i].0 != []
    ensures DeclAttribs(uris) == DeclsOf(DeclItems(uris))
  {
    var items := DeclItems(uris);
    hide DeclItems;
    forall i | 0 <= i < |items|
      ensures "xmlns" + (":" + items[i].0) == "xmlns:" + items[i].0
    {
      Assoc("xmlns", ":", items[i].0);
      assert "xmlns" + ":" == "xmlns:";
    }
  }

  lemma BindKeeps(items: seq<(string, string)>)
    requires ItemsLegal(items)
    ensures "xml" in Bind(TOP_SCOPE, items) && Bind(TOP_SCOPE, items)["xml"] == XML_URI
    ensures "" !in Bind(TOP_SCOPE, items)
  {
    BindBinds(TOP_SCOPE, items);
    assert forall i :: 0 <= i < |items| ==> items[i].0 != "xml" && items[i].0 != "";
    hide Bind;
    hide ItemsLegal;
  }

  lemma BindFinds(uris: map<string, string>, u: string)
    requires Injective(uris) && u in uris
    ensures var scope := Bind(TOP_SCOPE, DeclItems(uris)); uris[u] in scope && scope[uris[u]] == u
  {
    DeclItemsAre(uris);
    var items := DeclItems(uris);
    hide DeclItems;
    BindBinds(TOP_SCOPE, items);
    hide Bind;
    assert (uris[u], u) in items;
    var i :| 0 <= i < |items| && items[i] == (uris[u], u);
    assert items[i].0 in Bind(TOP_SCOPE, items);
  }

  /** The scope inside the root. */
  lemma RootScope(t: Table, reg: map<string, string>)
    requires Sound(t, reg)
    ensures ScopeFor(Bind(TOP_SCOPE, DeclItems(t.uris)), t.uris)
  {
    DeclItemsLegal(t, reg);
    BindKeeps(DeclItems(t.uris));
    forall u <- t.uris
      ensures var scope := Bind(TOP_SCOPE, DeclItems(t.uris)); t.uris[u] in scope && scope[t.uris[u]] == u
    {
      BindFinds(t.uris, u);
    }
  }

  // ---------------------------------------------------------------------------
  // The attributes of one element
  // ---------------------------------------------------------------------------

  /** The attributes of an element as the parser delivers them. */
  function DeliveredAttribs(attrib: map<string, string>): seq<(string, string)> {
    var items := Sorted(Items(attrib));
    seq(|items|, i requires 0 <= i < |items| => (Delivered(items[i].0), items[i].1))
  }

  ghost predicate AttribLegal(attrib: map<string, string>) {
    forall k <- attrib :: NameLegal(k) && k != "xmlns" && AllChars(attrib[k]) && NoTabOrCr(attrib[k])
  }

  lemma {:induction false} ExpandEach(printed: seq<(string, string)>, delivered: seq<(string, string)>, scope: Scope)
    requires |printed| == |delivered|
    requires forall i :: 0 <= i < |printed| ==>
      && !IsDecl(printed[i].0)
      && Expand(printed[i].0, scope, true) == Some(delivered[i].0) && printed[i].1 == delivered[i].1
    ensures ExpandAttribs(printed, scope) == Some(delivered)
    decreases printed
  {
    if printed != [] {
      hide Expand;
      hide IsDecl;
      ExpandEach(printed[1..], delivered[1..], scope);
      assert delivered == [delivered[0]] + delivered[1..];
    }
  }

  /** The items of an attribute map: each key once. */
  lemma AttribItems(attrib: map<string, string>)
    ensures var items := Sorted(Items(attrib));
      && (forall i :: 0 <= i < |items| ==> items[i].0 in attrib && attrib[items[i].0] == items[i].1)
      && DistinctNames(items)
      && (forall k <- attrib :: (k, attrib[k]) in items)
  {
    var items := Sorted(Items(attrib));
    hide Sorted;
    forall i | 0 <= i < |items|
      ensures items[i].0 in attrib && attrib[items[i].0] == items[i].1
    {
      assert items[i] in items && items[i] in Items(attrib);
    }
    forall i, j | 0 <= i < j < |items|
      ensures items[i].0 != items[j].0
    {
      assert items[i] != items[j];
    }
  }

  lemma DeliveredDiffer(p: string, q: string)
    requires NameLegal(p) && NameLegal(q) && p != q
    ensures Delivered(p) != Delivered(q)
  {
    if IsQualified(p) && IsQualified(q) {
      assert p == "{" + p[1..] && q == "{" + q[1..];
    } else if IsQualified(p) {
      assert '}' in p[1..] && '}' !in q;
    } else if IsQualified(q) {
      assert '}' in q[1..] && '}' !in p;
    }
  }

  lemma PrintedNameLegal(q: string, t: Table, reg: map<string, string>)
    requires Sound(t, reg) && q in t.qnames && NameLegal(q) && q != "xmlns"
    ensures IsName(t.qnames[q]) && !IsDecl(t.qnames[q])
  {
    RootScope(t, reg);
    PrintedResolves(q, t, reg, Bind(TOP_SCOPE, DeclItems(t.uris)), true);
  }

  lemma LegalNamesDiffer(t: Table, reg: map<string, string>, p: string, q: string)
    requires Sound(t, reg) && p in t.qnames && q in t.qnames && p != q && NameLegal(p) && NameLegal(q)
    ensures t.qnames[p] != t.qnames[q]
  {
    PrintedNamesDiffer(t, reg, p, q);
  }

  /** The printed attributes of one element: legal names, no two alike, and none reads as a declaration. */
  lemma PrintedAttribsLegal(attrib: map<string, string>, t: Table, reg: map<string, string>)
    requires Sound(t, reg) && attrib.Keys <= t.qnames.Keys && AttribLegal(attrib)
    ensures var printed := PrintedAttribs(attrib, t.qnames);
      && AttribsLegal(printed) && DistinctNames(printed)
      && forall i :: 0 <= i < |printed| ==> !IsDecl(printed[i].0)
  {
    AttribItems(attrib);
    var items := Sorted(Items(attrib));
    hide Sorted;
    hide Items;
    hide IsName;
    hide IsDecl;
    hide NameLegal;
    hide RegistryInv;
    hide Declarable;
    hide TableOk;
    hide UriLegal;
    hide AllChars;
    var printed := PrintedAttribs(attrib, t.qnames);
    assert forall i :: 0 <= i < |printed| ==> printed[i] == (t.qnames[items[i].0], items[i].1);
    forall i | 0 <= i < |items|
      ensures IsName(t.qnames[items[i].0]) && !IsDecl(t.qnames[items[i].0])
    {
      PrintedNameLegal(items[i].0, t, reg);
    }
    forall i, j | 0 <= i < j < |items|
      ensures t.qnames[items[i].0] != t.qnames[items[j].0]
    {
      LegalNamesDiffer(t, reg, items[i].0, items[j].0);
    }
    hide PrintedAttribs;
  }

  /** The printed attributes of one element resolve to the delivered ones. */
  lemma PrintedAttribsResolve(attrib: map<string, string>, t: Table, reg: map<string, string>, scope: Scope)
    requires Sound(t, reg) && ScopeFor(scope, t.uris) && attrib.Keys <= t.qnames.Keys && AttribLegal(attrib)
    ensures ExpandAttribs(PrintedAttribs(attrib, t.qnames), scope) == Some(DeliveredAttribs(attrib))
    ensures DistinctNames(DeliveredAttribs(attrib))
  {
    AttribItems(attrib);
    var items := Sorted(Items(attrib));
    hide Sorted;
    var printed, delivered := PrintedAttribs(attrib, t.qnames), DeliveredAttribs(attrib);
    forall i | 0 <= i < |items|
      ensures !IsDecl(printed[i].0) && Expand(printed[i].0, scope, true) == Some(delivered[i].0)
    {
      PrintedResolves(items[i].0, t, reg, scope, true);
    }
    forall i, j | 0 <= i < j < |items|
      ensures Delivered(items[i].0) != Delivered(items[j].0)
    {
      DeliveredDiffer(items[i].0, items[j].0);
    }
    ExpandEach(printed, delivered, scope);
  }

  lemma NoDecls()
    ensures DeclAttribs(map[]) == []
  {
    NoDeclItems();
    hide DeclItems;
  }

  lemma DeclAttribLegal(prefix: string)
    requires IsNCName(prefix)
    ensures IsName("xmlns:" + prefix) && IsDecl("xmlns:" + prefix)
  {
    var n := "xmlns:" + prefix;
    assert n[0] == 'x';
    assert forall i :: 0 <= i < |"xmlns:"| ==> IsNameRest("xmlns:"[i]);
  }

  lemma PrefixedDiffer(p: string, q: string)
    requires p != q
    ensures "xmlns:" + p != "xmlns:" + q
  {
    Cut("xmlns:", p);
    Cut("xmlns:", q);
  }

  lemma DeclItemLegal(p: string, u: string)
    requires MayDeclare(p, u) && p != "xml" && UriLegal(u)
    ensures IsName("xmlns:" + p) && IsDecl("xmlns:" + p) && AllChars(u) && NoTabOrCr(u)
  {
    DeclAttribLegal(p);
  }

  lemma DeclsLegal(items: seq<(string, string)>)
    requires ItemsLegal(items) && forall i :: 0 <= i < |items| ==> UriLegal(items[i].1)
    ensures AttribsLegal(DeclsOf(items)) && forall i :: 0 <= i < |items| ==> IsDecl(DeclsOf(items)[i].0)
  {
    forall i | 0 <= i < |items|
      ensures IsName(DeclsOf(items)[i].0) && IsDecl(DeclsOf(items)[i].0)
      ensures AllChars(items[i].1) && NoTabOrCr(items[i].1)
    {
      DeclItemLegal(items[i].0, items[i].1);
    }
    hide MayDeclare;
    hide UriLegal;
    hide IsName;
    hide IsDecl;
    hide AllChars;
  }

  lemma DeclsDistinct(items: seq<(string, string)>)
    requires DistinctNames(items)
    ensures DistinctNames(DeclsOf(items))
  {
    forall i, j | 0 <= i < j < |items|
      ensures DeclsOf(items)[i].0 != DeclsOf(items)[j].0
    {
      PrefixedDiffer(items[i].0, items[j].0);
    }
  }

  lemma DeclAttribsLegal(t: Table, reg: map<string, string>)
    requires Sound(t, reg)
    ensures AttribsLegal(DeclAttribs(t.uris)) && DistinctNames(DeclAttribs(t.uris))
    ensures forall i :: 0 <= i < |DeclAttribs(t.uris)| ==> IsDecl(DeclAttribs(t.uris)[i].0)
  {
    DeclItemsLegal(t, reg);
    DeclItemsAre(t.uris);
    var items := DeclItems(t.uris);
    hide DeclItems;
    hide DeclAttribs;
    assert forall i :: 0 <= i < |items| ==> UriLegal(items[i].1);
    hide Sound;
    hide UriLegal;
    DeclsLegal(items);
    DeclsDistinct(items);
    hide ItemsLegal;
    hide AttribsLegal;
    hide DistinctNames;
    hide IsDecl;
  }

  lemma StepStartIs(p: Position, tag: string, attribs: seq<(string, string)>, empty: bool,
                    scope: Scope, name: string, delivered: seq<(string, string)>)
    requires p.stack == [] ==> !p.seenRoot
    requires Declare(ScopeAt(p), attribs) == Some(scope) && DistinctNames(attribs)
    requires Expand(tag, scope, false) == Some(name)
    requires ExpandAttribs(attribs, scope) == Some(delivered) && DistinctNames(delivered)
    ensures StepStart(p, tag, attribs, empty) == Some(
      if empty then (p.(seenRoot := true), [StartEvent(name, delivered), EndEvent(name)])
      else (Position(p.stack + [Open(tag, scope)], true), [StartEvent(name, delivered)]))
  {
    hide Declare;
    hide Expand;
    hide ExpandAttribs;
    hide DistinctNames;
  }

  lemma DistinctTogether(a: seq<(string, string)>, b: seq<(string, string)>)
    requires DistinctNames(a) && DistinctNames(b)
    requires forall i :: 0 <= i < |a| ==> IsDecl(a[i].0)
    requires forall i :: 0 <= i < |b| ==> !IsDecl(b[i].0)
    ensures DistinctNames(a + b)
  {
    hide IsDecl;
  }

  /** The start tag of the root, with the declarations. */
  lemma RootSteps(name: string, attrib: map<string, string>, empty: bool, t: Table, reg: map<string, string>)
    requires Sound(t, reg) && name in t.qnames && NameLegal(name)
    requires attrib.Keys <= t.qnames.Keys && AttribLegal(attrib)
    ensures var attribs := DeclAttribs(t.uris) + PrintedAttribs(attrib, t.qnames);
      var start := StartEvent(Delivered(name), DeliveredAttribs(attrib));
      && AttribsLegal(attribs)
      && StepStart(OUTSIDE, t.qnames[name], attribs, empty) == Some(
           if empty then (OUTSIDE.(seenRoot := true), [start, EndEvent(Delivered(name))])
           else (Position([Open(t.qnames[name], Bind(TOP_SCOPE, DeclItems(t.uris)))], true), [start]))
  {
    assert ScopeAt(OUTSIDE) == TOP_SCOPE && OUTSIDE.stack == [] && !OUTSIDE.seenRoot;
    hide *;
    var decls, printed := DeclAttribs(t.uris), PrintedAttribs(attrib, t.qnames);
    var scope := Bind(TOP_SCOPE, DeclItems(t.uris));
    RootScope(t, reg);
    DeclItemsLegal(t, reg);
    DeclAttribsLegal(t, reg);
    PrintedAttribsLegal(attrib, t, reg);
    PrintedAttribsResolve(attrib, t, reg, scope);
    PrintedResolves(name, t, reg, scope, false);
    DistinctTogether(decls, printed);
    DeclareBinds(TOP_SCOPE, DeclItems(t.uris), printed);
    DeclareNothing(scope, printed);
    DeclsExpandToNothing(DeclItems(t.uris), printed, scope);
    LegalTogether(decls, printed);
    StepStartIs(OUTSIDE, t.qnames[name], decls + printed, empty, scope, Delivered(name), DeliveredAttribs(attrib));
    assert OUTSIDE.stack + [Open(t.qnames[name], scope)] == [Open(t.qnames[name], scope)];
  }

  lemma LegalTogether(a: seq<(string, string)>, b: seq<(string, string)>)
    requires AttribsLegal(a) && AttribsLegal(b)
    ensures AttribsLegal(a + b)
  {
    hide IsName;
    hide AllChars;
  }

  /** The start tag of an element inside the root. */
  lemma InnerSteps(p: Position, name: string, attrib: map<string, string>, empty: bool,
                   t: Table, reg: map<string, string>)
    requires p.stack != [] && p.seenRoot && ScopeFor(ScopeAt(p), t.uris)
    requires Sound(t, reg) && name in t.qnames && NameLegal(name)
    requires attrib.Keys <= t.qnames.Keys && AttribLegal(attrib)
    ensures var attribs := DeclAttribs(map[]) + PrintedAttribs(attrib, t.qnames);
      var start := StartEvent(Delivered(name), DeliveredAttribs(attrib));
      && AttribsLegal(attribs)
      && StepStart(p, t.qnames[name], attribs, empty) == Some(
           if empty then (p, [start, EndEvent(Delivered(name))])
           else (Position(p.stack + [Open(t.qnames[name], ScopeAt(p))], true), [start]))
  {
    var printed := PrintedAttribs(attrib, t.qnames);
    NoDecls();
    assert [] + printed == printed;
    PrintedAttribsLegal(attrib, t, reg);
    PrintedAttribsResolve(attrib, t, reg, ScopeAt(p));
    PrintedResolves(name, t, reg, ScopeAt(p), false);
    DeclareNothing(ScopeAt(p), printed);
    hide *;
    StepStartIs(p, t.qnames[name], printed, empty, ScopeAt(p), Delivered(name), DeliveredAttribs(attrib));
  }
}
