/** The changes made to Tomcat configuration trees, as functions on trees. */
module Migration {
  import opened Basics
  import opened XmlChars
  import opened Escaping
  import opened Elements
  import opened Namespaces
  import opened Reader
  import opened Writer
  import opened Scoping
  import opened RoundTrip
  import opened FrontEnd
  import opened WholeTrip

  /** check_session_cookie_connector, check_session_manager, check_url_rewriting and check_jsp_compiler. */
  datatype Pass = Cookie | Manager | Url | Jsp

  const OLD_PARAM := "genStrAsCharArray"
  const NEW_PARAM := "getStringAsCharArray"

  /** A tag equal to name when the namespace is ignored. Tags that are not plain ASCII are never str objects
      when they come from the parser, and iter_ignore_ns skips them. */
  predicate IsLocal(tag: Tag, name: string) {
    && tag.Name?
    && (forall i :: 0 <= i < |tag.name| ==> tag.name[i] as int < 0x80)
    && var r := RFind(tag.name, '}');
    && tag.name[if r.Some? then r.value + 1 else 0..] == name
  }

  /** Dictionary pop with the test before it. */
  function Pop(a: map<string, string>, key: string): map<string, string> {
    a - {key}
  }

  function ManagerAttrib(a: map<string, string>): map<string, string> {
    var b := if "randomClass" in a then Pop(a["secureRandomClass" := a["randomClass"]], "randomClass") else a;
    Pop(Pop(b, "algorithm"), "entropy")
  }

  /** The attributes of one element after some passes. */
  function NewAttrib(ps: set<Pass>, tag: Tag, a: map<string, string>): map<string, string> {
    if Manager in ps && tag == Name("Manager") then ManagerAttrib(a)
    else if Cookie in ps && tag == Name("Connector") then Pop(a, "emptySessionPath")
    else if Url in ps && tag == Name("Context") then Pop(a, "disableURLRewriting")
    else a
  }

  /** The text of one element after some passes; inServlet says whether it or an ancestor is a servlet. */
  function NewText(ps: set<Pass>, inServlet: bool, tag: Tag, text: Option<string>): Option<string> {
    if Jsp in ps && inServlet && IsLocal(tag, "param-name") && text == Some(OLD_PARAM) then Some(NEW_PARAM) else text
  }

  /** A tree after some passes. */
  function Rewrite(ps: set<Pass>, t: Node, inServlet: bool): Node
    decreases t, 1
  {
    var here := inServlet || IsLocal(t.tag, "servlet");
    Node(t.tag, NewAttrib(ps, t.tag, t.attrib), NewText(ps, here, t.tag, t.text),
         RewriteAll(ps, t.children, here), t.tail)
  }

  function RewriteAll(ps: set<Pass>, ts: seq<Node>, inServlet: bool): (r: seq<Node>)
    ensures |r| == |ts|
    decreases ts, 0
  {
    if ts == [] then [] else [Rewrite(ps, ts[0], inServlet)] + RewriteAll(ps, ts[1..], inServlet)
  }

  // ---------------------------------------------------------------------------
  // Passes compose like sets
  // ---------------------------------------------------------------------------

  lemma AttribsCompose(ps: set<Pass>, qs: set<Pass>, tag: Tag, a: map<string, string>)
    ensures NewAttrib(ps, tag, NewAttrib(qs, tag, a)) == NewAttrib(ps + qs, tag, a)
  {
    assert Name("Manager") != Name("Connector") && Name("Manager") != Name("Context")
           && Name("Connector") != Name("Context") by {
      assert "Manager"[0] == 'M' && "Connector"[0] == 'C' && "Context"[0] == 'C';
      assert |"Connector"| == 9 && |"Context"| == 7;
    }
    if tag == Name("Manager") {
      assert ManagerAttrib(ManagerAttrib(a)) == ManagerAttrib(a);
    }
  }

  lemma ParamsDiffer()
    ensures OLD_PARAM != NEW_PARAM
  {
    assert OLD_PARAM[2] == 'n' && NEW_PARAM[2] == 't';
  }

  /** Applying passes to a tree that other passes have changed is applying all of them once. So every pass is
      idempotent, and their order does not matter. */
  lemma {:induction false} PassesCompose(ps: set<Pass>, qs: set<Pass>, t: Node, inServlet: bool)
    ensures Rewrite(ps, Rewrite(qs, t, inServlet), inServlet) == Rewrite(ps + qs, t, inServlet)
    decreases t, 1
  {
    AttribsCompose(ps, qs, t.tag, t.attrib);
    ParamsDiffer();
    PassesComposeAll(ps, qs, t.children, inServlet || IsLocal(t.tag, "servlet"));
  }

  lemma {:induction false} PassesComposeAll(ps: set<Pass>, qs: set<Pass>, ts: seq<Node>, inServlet: bool)
    ensures RewriteAll(ps, RewriteAll(qs, ts, inServlet), inServlet) == RewriteAll(ps + qs, ts, inServlet)
    decreases ts, 0
  {
    if ts != [] {
      PassesCompose(ps, qs, ts[0], inServlet);
      PassesComposeAll(ps, qs, ts[1..], inServlet);
      assert RewriteAll(qs, ts, inServlet)[1..] == RewriteAll(qs, ts[1..], inServlet);
    }
  }

  /** A tag has the local name if it is that name, or ends in it after a closing brace; and it has to be ASCII. */
  lemma LocalIff(tag: Tag, name: string)
    requires '}' !in name
    ensures IsLocal(tag, name) <==>
      && tag.Name? && (forall c <- tag.name :: c as int < 128)
      && (tag.name == name || exists uri: string :: tag.name == uri + ("}" + name))
  {
    if tag.Name? {
      var q, r := tag.name, RFind(tag.name, '}');
      LocalPartIff(q, name);
      hide RFind;
      AsciiIff(q);
    }
  }

  lemma AsciiIff(q: string)
    ensures (forall c <- q :: c as int < 128) <==> (forall i :: 0 <= i < |q| ==> q[i] as int < 0x80)
  {
    if forall c <- q :: c as int < 128 {
      assert forall i :: 0 <= i < |q| ==> q[i] in q;
    }
  }

  lemma LocalPartIff(q: string, name: string)
    requires '}' !in name
    ensures var r := RFind(q, '}');
      q[if r.Some? then r.value + 1 else 0..] == name <==>
      (q == name || exists uri: string :: q == uri + ("}" + name))
  {
    var r := RFind(q, '}');
    if r.Some? && q[r.value + 1..] == name {
      CutAt(q, r.value);
      assert q == q[..r.value] + ("}" + name);
    }
    if r.None? {
      assert q[0..] == q;
    }
    if q == name {
      assert r.None?;
    }
    if uri: string :| q == uri + ("}" + name) {
      assert q[|uri|] == '}' && q[|uri| + 1..] == name;
      RFindAt(q, '}', |uri|);
    }
  }

  /** The attributes that go, in literal names. */
  lemma WhatAttribPassesChange()
    ensures NewAttrib({Manager}, Name("Manager"), map["randomClass" := "x", "algorithm" := "y", "entropy" := "z"])
            == map["secureRandomClass" := "x"]
    ensures NewAttrib({Cookie}, Name("Connector"), map["emptySessionPath" := "x"]) == map[]
    ensures NewAttrib({Url}, Name("Context"), map["disableURLRewriting" := "x"]) == map[]
  {
    ManagerKeys();
    KeysDiffer();
    hide ManagerAttrib;
  }

  /** The text that changes, in a servlet of any namespace that is ASCII. */
  lemma WhatTextPassChanges(uri: string)
    requires forall c <- uri :: c as int < 128
    ensures
      var before := Node(Name(Universal(uri, "param-name")), map[], Some("genStrAsCharArray"), [], None);
      var after := Node(Name(Universal(uri, "param-name")), map[], Some("getStringAsCharArray"), [], None);
      Rewrite({Jsp}, Node(Name(Universal(uri, "servlet")), map[], None, [before], None), false)
      == Node(Name(Universal(uri, "servlet")), map[], None, [after], None)
  {
    hide IsLocal;
    UniversalIsLocal(uri, "servlet");
    UniversalIsLocal(uri, "param-name");
    hide Universal;
    OneParam(Name(Universal(uri, "servlet")), Name(Universal(uri, "param-name")));
  }

  lemma OneParam(servlet: Tag, param: Tag)
    requires IsLocal(servlet, "servlet") && IsLocal(param, "param-name")
    ensures
      var before := Node(param, map[], Some("genStrAsCharArray"), [], None);
      var after := Node(param, map[], Some("getStringAsCharArray"), [], None);
      Rewrite({Jsp}, Node(servlet, map[], None, [before], None), false) == Node(servlet, map[], None, [after], None)
  {
    hide IsLocal;
    var before := Node(param, map[], Some("genStrAsCharArray"), [], None);
    assert RewriteAll({Jsp}, before.children, true) == [];
    assert Rewrite({Jsp}, before, true) == Node(param, map[], Some("getStringAsCharArray"), [], None);
    hide NewText;
    assert [before][1..] == [];
    assert RewriteAll({Jsp}, [before], true) == [Rewrite({Jsp}, before, true)];
    assert NewText({Jsp}, true, servlet, None) == None by {
      NoText(servlet);
    }
  }

  lemma NoText(tag: Tag)
    ensures NewText({Jsp}, true, tag, None) == None
  {
  }

  lemma ManagerKeys()
    ensures ManagerAttrib(map["randomClass" := "x", "algorithm" := "y", "entropy" := "z"])
            == map["secureRandomClass" := "x"]
  {
    assert "randomClass"[0] == 'r' && "algorithm"[0] == 'a' && "entropy"[0] == 'e' && "secureRandomClass"[0] == 's';
  }

  lemma UniversalIsLocal(uri: string, name: string)
    requires '}' !in name && (forall c <- uri :: c as int < 128) && forall c <- name :: c as int < 128
    ensures IsLocal(Name(Universal(uri, name)), name)
  {
    Assoc("{" + uri, "}", name);
    LocalIff(Name(Universal(uri, name)), name);
    hide IsLocal;
  }

  /** The passes applied one after the other. */
  function RunPasses(ps: seq<Pass>, t: Node): Node {
    if ps == [] then t else RunPasses(ps[1..], Rewrite({ps[0]}, t, false))
  }

  lemma {:induction false} NoPass(t: Node, inServlet: bool)
    ensures Rewrite({}, t, inServlet) == t
    decreases t, 1
  {
    NoPassAll(t.children, inServlet || IsLocal(t.tag, "servlet"));
  }

  lemma {:induction false} NoPassAll(ts: seq<Node>, inServlet: bool)
    ensures RewriteAll({}, ts, inServlet) == ts
    decreases ts, 0
  {
    if ts != [] {
      NoPass(ts[0], inServlet);
      NoPassAll(ts[1..], inServlet);
    }
  }

  /** The outcome of a run of passes depends only on which passes occur in it. */
  lemma {:induction false} OrderDoesNotMatter(ps: seq<Pass>, t: Node)
    ensures RunPasses(ps, t) == Rewrite((set p <- ps), t, false)
    decreases ps
  {
    if ps == [] {
      assert (set p <- ps) == {};
      NoPass(t, false);
    } else {
      OrderDoesNotMatter(ps[1..], Rewrite({ps[0]}, t, false));
      PassesCompose((set p <- ps[1..]), {ps[0]}, t, false);
      assert ps == [ps[0]] + ps[1..];
      assert (set p <- ps) == (set p <- ps[1..]) + {ps[0]};
    }
  }

  // ---------------------------------------------------------------------------
  // What a migrated tree looks like
  // ---------------------------------------------------------------------------

  /** What the passes must remove from one element. */
  predicate AttribsDone(ps: set<Pass>, n: Node) {
    && (Manager in ps && n.tag == Name("Manager") ==>
          "randomClass" !in n.attrib && "algorithm" !in n.attrib && "entropy" !in n.attrib)
    && (Cookie in ps && n.tag == Name("Connector") ==> "emptySessionPath" !in n.attrib)
    && (Url in ps && n.tag == Name("Context") ==> "disableURLRewriting" !in n.attrib)
  }

  /** The elements of a tree in document order, each with whether it stands in a servlet. */
  function Marked(t: Node, inServlet: bool): seq<(Node, bool)>
    decreases t, 1
  {
    var here := inServlet || IsLocal(t.tag, "servlet");
    [(t, here)] + MarkedAll(t.children, here)
  }

  function MarkedAll(ts: seq<Node>, inServlet: bool): seq<(Node, bool)>
    decreases ts, 0
  {
    if ts == [] then [] else Marked(ts[0], inServlet) + MarkedAll(ts[1..], inServlet)
  }

  /** The change to one element: nothing but the attributes and the one text that the passes name. */
  ghost predicate ChangedBy(ps: set<Pass>, before: (Node, bool), after: (Node, bool)) {
    var (n, m) := (before.0, after.0);
    && after.1 == before.1 && m.tag == n.tag && m.tail == n.tail && |m.children| == |n.children|
    && AttribsDone(ps, m)
    && !(Jsp in ps && after.1 && IsLocal(m.tag, "param-name") && m.text == Some(OLD_PARAM))
    && (m.text == n.text
        || (Jsp in ps && before.1 && IsLocal(n.tag, "param-name")
            && n.text == Some(OLD_PARAM) && m.text == Some(NEW_PARAM)))
    && (Manager in ps && n.tag == Name("Manager") && "randomClass" in n.attrib ==>
          "secureRandomClass" in m.attrib && m.attrib["secureRandomClass"] == n.attrib["randomClass"])
    && (forall k <- m.attrib ::
          (k in n.attrib && m.attrib[k] == n.attrib[k])
          || (Manager in ps && n.tag == Name("Manager") && k == "secureRandomClass" && "randomClass" in n.attrib))
    && (forall k <- n.attrib :: k in m.attrib
          || (Manager in ps && n.tag == Name("Manager") && k in {"randomClass", "algorithm", "entropy"})
          || (Cookie in ps && n.tag == Name("Connector") && k == "emptySessionPath")
          || (Url in ps && n.tag == Name("Context") && k == "disableURLRewriting"))
  }

  lemma KeysDiffer()
    ensures "secureRandomClass" !in {"randomClass", "algorithm", "entropy"}
    ensures Name("Manager") != Name("Connector") && Name("Manager") != Name("Context")
    ensures Name("Connector") != Name("Context")
  {
    assert "secureRandomClass"[0] == 's' && "randomClass"[0] == 'r' && "algorithm"[0] == 'a' && "entropy"[0] == 'e';
    assert "Manager"[0] == 'M' && "Connector"[0] == 'C' && "Context"[0] == 'C';
    assert |"Connector"| == 9 && |"Context"| == 7;
  }

  lemma ElementChange(ps: set<Pass>, n: Node, here: bool, children: seq<Node>)
    requires |children| == |n.children|
    ensures ChangedBy(ps, (n, here),
      (Node(n.tag, NewAttrib(ps, n.tag, n.attrib), NewText(ps, here, n.tag, n.text), children, n.tail), here))
  {
    KeysDiffer();
    ParamsDiffer();
    hide IsLocal;
  }

  ghost predicate AllChangedBy(ps: set<Pass>, a: seq<(Node, bool)>, b: seq<(Node, bool)>) {
    |a| == |b| && forall i :: 0 <= i < |a| ==> ChangedBy(ps, a[i], b[i])
  }

  lemma AllChangedAppend(ps: set<Pass>, a: seq<(Node, bool)>, b: seq<(Node, bool)>,
                         c: seq<(Node, bool)>, d: seq<(Node, bool)>)
    requires AllChangedBy(ps, a, b) && AllChangedBy(ps, c, d)
    ensures AllChangedBy(ps, a + c, b + d)
  {
    hide ChangedBy;
  }

  /** Element by element, the migrated tree is the old one with exactly the changes that the passes name. */
  lemma {:induction false} RewriteIsExact(ps: set<Pass>, t: Node, inServlet: bool)
    ensures AllChangedBy(ps, Marked(t, inServlet), Marked(Rewrite(ps, t, inServlet), inServlet))
    decreases t, 1
  {
    var here := inServlet || IsLocal(t.tag, "servlet");
    RewriteAllIsExact(ps, t.children, here);
    ElementChange(ps, t, here, RewriteAll(ps, t.children, here));
    var r := Rewrite(ps, t, inServlet);
    hide ChangedBy;
    hide NewAttrib;
    hide NewText;
    hide IsLocal;
    AllChangedAppend(ps, [(t, here)], [(r, here)], MarkedAll(t.children, here), MarkedAll(r.children, here));
  }

  lemma {:induction false} RewriteAllIsExact(ps: set<Pass>, ts: seq<Node>, inServlet: bool)
    ensures AllChangedBy(ps, MarkedAll(ts, inServlet), MarkedAll(RewriteAll(ps, ts, inServlet), inServlet))
    decreases ts, 0
  {
    hide ChangedBy;
    if ts != [] {
      RewriteIsExact(ps, ts[0], inServlet);
      RewriteAllIsExact(ps, ts[1..], inServlet);
      var r := RewriteAll(ps, ts, inServlet);
      assert r[1..] == RewriteAll(ps, ts[1..], inServlet);
      AllChangedAppend(ps, Marked(ts[0], inServlet), Marked(r[0], inServlet),
                       MarkedAll(ts[1..], inServlet), MarkedAll(r[1..], inServlet));
    }
  }

  // ---------------------------------------------------------------------------
  // A migrated tree survives printing
  // ---------------------------------------------------------------------------

  predicate IsLetter(c: char) {
    'A' <= c <= 'Z' || 'a' <= c <= 'z'
  }

  lemma LettersLegal(s: string, enc: Encoding)
    requires s != [] && forall i :: 0 <= i < |s| ==> IsLetter(s[i])
    ensures NameLegal(s) && Printable(s, enc) && TextLegal(Some(s))
  {
    assert !IsQualified(s);
  }

  lemma NewNamesLegal(enc: Encoding)
    ensures NameLegal("secureRandomClass") && Printable("secureRandomClass", enc) && "secureRandomClass" != "xmlns"
    ensures TextLegal(Some(NEW_PARAM))
  {
    LettersLegal("secureRandomClass", enc);
    LettersLegal(NEW_PARAM, enc);
    assert "secureRandomClass"[0] == 's';
  }

  /** Every attribute that a pass leaves or makes has a value that the element had before. */
  lemma NewAttribFrom(ps: set<Pass>, tag: Tag, a: map<string, string>, k: string)
    requires k in NewAttrib(ps, tag, a)
    ensures var v := NewAttrib(ps, tag, a)[k];
      (k in a && v == a[k]) || (k == "secureRandomClass" && "randomClass" in a && v == a["randomClass"])
  {
  }

  lemma OwnStaysLegal(ps: set<Pass>, t: Node, here: bool, enc: Encoding, children: seq<Node>)
    requires OwnLegal(t, enc) && (t.children == [] ==> children == [])
    ensures OwnLegal(
      Node(t.tag, NewAttrib(ps, t.tag, t.attrib), NewText(ps, here, t.tag, t.text), children, t.tail), enc)
  {
    NewNamesLegal(enc);
    hide NameLegal;
    hide Printable;
    hide TextLegal;
    if t.tag.Name? {
      var a := NewAttrib(ps, t.tag, t.attrib);
      forall k <- a
        ensures NameLegal(k) && k != "xmlns" && Printable(k, enc) && AllChars(a[k]) && NoTabOrCr(a[k])
      {
        NewAttribFrom(ps, t.tag, t.attrib, k);
      }
      hide NewAttrib;
      hide IsLocal;
    }
  }

  lemma {:induction false} StaysLegal(ps: set<Pass>, t: Node, inServlet: bool, enc: Encoding)
    requires TreeLegal(t, enc)
    ensures TreeLegal(Rewrite(ps, t, inServlet), enc)
    decreases t, 1
  {
    var here := inServlet || IsLocal(t.tag, "servlet");
    StayLegal(ps, t.children, here, enc);
    OwnStaysLegal(ps, t, here, enc, RewriteAll(ps, t.children, here));
    hide OwnLegal;
    hide NewAttrib;
    hide NewText;
  }

  lemma {:induction false} StayLegal(ps: set<Pass>, ts: seq<Node>, inServlet: bool, enc: Encoding)
    requires TreesLegal(ts, enc)
    ensures TreesLegal(RewriteAll(ps, ts, inServlet), enc)
    decreases ts, 0
  {
    hide OwnLegal;
    if ts != [] {
      StaysLegal(ps, ts[0], inServlet, enc);
      StayLegal(ps, ts[1..], inServlet, enc);
      assert RewriteAll(ps, ts, inServlet)[1..] == RewriteAll(ps, ts[1..], inServlet);
    }
  }

  lemma {:induction false} RewriteNormal(ps: set<Pass>, t: Node, inServlet: bool)
    ensures Normal(Rewrite(ps, t, inServlet)) == Rewrite(ps, Normal(t), inServlet)
    decreases t, 1
  {
    RewriteNormalAll(ps, t.children, inServlet || IsLocal(t.tag, "servlet"));
    assert OLD_PARAM != [] && NEW_PARAM != [];
    hide NewAttrib;
    hide IsLocal;
  }

  lemma {:induction false} RewriteNormalAll(ps: set<Pass>, ts: seq<Node>, inServlet: bool)
    ensures NormalAll(RewriteAll(ps, ts, inServlet)) == RewriteAll(ps, NormalAll(ts), inServlet)
    decreases ts, 0
  {
    if ts != [] {
      RewriteNormal(ps, ts[0], inServlet);
      RewriteNormalAll(ps, ts[1..], inServlet);
      assert RewriteAll(ps, ts, inServlet)[1..] == RewriteAll(ps, ts[1..], inServlet);
      assert NormalAll(ts)[1..] == NormalAll(ts[1..]);
    }
  }

  /** Writing a migrated tree and reading it again gives what migrating the re-read original gives. */
  lemma MigrationSurvivesPrinting(ps: seq<Pass>, comments: seq<string>, root: Node, names: seq<seq<string>>,
                                  reg: map<string, string>, encoding: Option<Encoding>, declare: Option<bool>)
    requires RegistryInv(reg) && Declarable(reg) && Visits(Iter(RunPasses(ps, root)), names)
    requires var enc := if encoding.Some? then encoding.value else Ascii;
      RegistryEncodable(reg, enc) && RootLegal(root, enc) && CommentsLegal(comments, enc)
    ensures var out := Write(Present(comments), RunPasses(ps, root), names, reg, encoding, declare, Xml);
      && out.Success?
      && ReadDocument(out.value).Some?
      && ParsesTo(ReadDocument(out.value).value, comments, RunPasses(ps, Normal(root)))
  {
    var enc := if encoding.Some? then encoding.value else Ascii;
    var all := set p <- ps;
    OrderDoesNotMatter(ps, root);
    OrderDoesNotMatter(ps, Normal(root));
    StaysLegal(all, root, false, enc);
    RewriteNormal(all, root, false);
    hide Write;
    hide ReadDocument;
    hide ParsesTo;
    hide Visits;
    hide TreeLegal;
    hide RegistryInv;
    hide Declarable;
    hide RegistryEncodable;
    hide CommentsLegal;
    WriteThenParse(comments, RunPasses(ps, root), names, reg, encoding, declare);
  }
}
