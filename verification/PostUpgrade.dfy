/** The main part of the post-upgrade script for Tomcat: which of the parsed files get which passes. */
module PostUpgrade {
  import opened Basics
  import opened Elements
  import opened Migration

  const SERVER_XML := "/etc/tomcat6/server.xml"
  const WEB_XML := "/etc/tomcat6/web.xml"
  const CONTEXT_XML := "/etc/tomcat6/context.xml"
  const USERS_XML := "/etc/tomcat6/tomcat-users.xml"

  /** etreeDict: the parsed files; None for a file that does not exist. */
  type Trees = map<string, Option<Node>>

  /** The passes that a file gets; contexts are the context files of the web applications. */
  function PassesFor(file: string, contexts: seq<string>): set<Pass> {
    (if file == SERVER_XML then {Cookie} else {})
    + (if file in contexts + [SERVER_XML, CONTEXT_XML] then {Manager, Url, Jsp} else {})
  }

  /** Some passes on one entry. */
  function AfterPasses(ps: seq<Pass>, tree: Option<Node>): Option<Node> {
    if tree.None? then None else Some(RunPasses(ps, tree.value))
  }

  function Rewritten(ps: set<Pass>, tree: Option<Node>): Option<Node> {
    if tree.None? then None else Some(Rewrite(ps, tree.value, false))
  }

  lemma AfterIsRewritten(ps: seq<Pass>, qs: set<Pass>, tree: Option<Node>)
    ensures AfterPasses(ps, Rewritten(qs, tree)) == Rewritten(Members(ps) + qs, tree)
  {
    if tree.Some? {
      OrderDoesNotMatter(ps, Rewrite(qs, tree.value, false));
      PassesCompose(Members(ps), qs, tree.value, false);
    }
    hide Rewrite;
    hide RunPasses;
  }

  lemma RewrittenNot(tree: Option<Node>)
    ensures Rewritten({}, tree) == tree
  {
    if tree.Some? {
      NoPass(tree.value, false);
    }
  }

  /** The passes that a file has got when the loop has gone over the first n of the files. */
  function Got(file: string, files: seq<string>, n: nat): set<Pass>
    requires n <= |files|
  {
    (if file == SERVER_XML then {Cookie} else {}) + (if file in files[..n] then {Manager, Url, Jsp} else {})
  }

  lemma GotNext(file: string, files: seq<string>, n: nat)
    requires n < |files|
    ensures Got(file, files, n + 1)
            == if file == files[n] then {Manager, Url, Jsp} + Got(file, files, n) else Got(file, files, n)
  {
    assert files[..n + 1] == files[..n] + [files[n]];
  }

  /** The calls of the passes, in the order of the script. A file that stands in the list twice is gone over twice. */
  method MigrateFiles(trees: Trees, contexts: seq<string>) returns (r: Trees)
    requires SERVER_XML in trees && CONTEXT_XML in trees && forall f <- contexts :: f in trees
    ensures r.Keys == trees.Keys
    ensures forall f <- trees :: r[f] == Rewritten(PassesFor(f, contexts), trees[f])
    ensures forall f <- trees :: Migrated(f, contexts, trees[f], r[f])
  {
    hide Migrated;
    var files := contexts + [SERVER_XML, CONTEXT_XML];
    hide Rewritten;
    hide AfterPasses;
    forall f <- trees
      ensures Rewritten({}, trees[f]) == trees[f]
      ensures AfterPasses([Cookie], Rewritten({}, trees[f])) == Rewritten({Cookie}, trees[f])
    {
      RewrittenNot(trees[f]);
      AfterIsRewritten([Cookie], {}, trees[f]);
      assert Members([Cookie]) + {} == {Cookie};
    }
    r := trees[SERVER_XML := AfterPasses([Cookie], trees[SERVER_XML])];
    forall f <- trees
      ensures Got(f, files, 0) == if f == SERVER_XML then {Cookie} else {}
    {
      assert files[..0] == [];
    }
    for i := 0 to |files|
      invariant r.Keys == trees.Keys
      invariant forall f <- trees :: r[f] == Rewritten(Got(f, files, i), trees[f])
    {
      ghost var before := r;
      var file := files[i];
      r := r[file := AfterPasses([Manager, Url, Jsp], r[file])];
      assert Members([Manager, Url, Jsp]) == {Manager, Url, Jsp};
      AfterIsRewritten([Manager, Url, Jsp], Got(file, files, i), trees[file]);
      forall f <- trees
        ensures r[f] == Rewritten(Got(f, files, i + 1), trees[f])
      {
        GotNext(f, files, i);
        assert before[f] == Rewritten(Got(f, files, i), trees[f]);
      }
    }
    assert files[..|files|] == files;
    forall f <- trees
      ensures Migrated(f, contexts, trees[f], r[f])
    {
      RewrittenIsMigrated(f, contexts, trees[f]);
    }
  }

  // ---------------------------------------------------------------------------
  // What that means, file by file
  // ---------------------------------------------------------------------------

  /** The server configuration gets all passes, the global context file and those of the applications all but the one
      over connectors, and every other file none. */
  lemma WhoGetsWhat(contexts: seq<string>)
    ensures PassesFor("/etc/tomcat6/server.xml", contexts) == {Cookie, Manager, Url, Jsp}
    ensures forall f :: f == "/etc/tomcat6/context.xml" || (f in contexts && f != "/etc/tomcat6/server.xml") ==>
      PassesFor(f, contexts) == {Manager, Url, Jsp}
    ensures forall f :: f != "/etc/tomcat6/server.xml" && f != "/etc/tomcat6/context.xml" && f !in contexts ==>
      PassesFor(f, contexts) == {}
  {
    assert |"/etc/tomcat6/server.xml"| != |"/etc/tomcat6/context.xml"|;
  }

  /** No element of the tree with this tag has the attribute. */
  ghost predicate NoneHas(t: Node, tag: string, key: string) {
    forall n <- Iter(t) :: n.tag == Name(tag) ==> key !in n.attrib
  }

  /** The attributes of the elements with one tag, in document order. */
  function AttribsOf(ns: seq<Node>, tag: string): seq<map<string, string>> {
    if ns == [] then []
    else (if ns[0].tag == Name(tag) then [ns[0].attrib] else []) + AttribsOf(ns[1..], tag)
  }

  lemma {:induction false} MarkedIsIter(t: Node, inServlet: bool)
    ensures |Marked(t, inServlet)| == |Iter(t)|
    ensures forall i :: 0 <= i < |Iter(t)| ==> Marked(t, inServlet)[i].0 == Iter(t)[i]
    decreases t, 1
  {
    hide IsLocal;
    MarkedAllIsIter(t.children, inServlet || IsLocal(t.tag, "servlet"));
  }

  lemma {:induction false} MarkedAllIsIter(ts: seq<Node>, inServlet: bool)
    ensures |MarkedAll(ts, inServlet)| == |IterAll(ts)|
    ensures forall i :: 0 <= i < |IterAll(ts)| ==> MarkedAll(ts, inServlet)[i].0 == IterAll(ts)[i]
    decreases ts, 0
  {
    if ts != [] {
      MarkedIsIter(ts[0], inServlet);
      MarkedAllIsIter(ts[1..], inServlet);
    }
  }

  /** The elements of a migrated tree, each with the one that it was before. */
  lemma ElementsChange(ps: set<Pass>, t: Node)
    ensures var a, b := Iter(t), Iter(Rewrite(ps, t, false));
      |a| == |b| && forall i :: 0 <= i < |a| ==> Became(ps, a[i], b[i])
  {
    RewriteIsExact(ps, t, false);
    MarkedIsIter(t, false);
    MarkedIsIter(Rewrite(ps, t, false), false);
    var a, b := Iter(t), Iter(Rewrite(ps, t, false));
    var x, y := Marked(t, false), Marked(Rewrite(ps, t, false), false);
    hide Rewrite;
    hide Marked;
    hide Iter;
    forall i | 0 <= i < |a|
      ensures Became(ps, a[i], b[i])
    {
      assert ChangedBy(ps, x[i], y[i]) && y[i].1 == x[i].1;
      assert x[i] == (a[i], x[i].1) && y[i] == (b[i], x[i].1);
      hide ChangedBy;
      assert ChangedBy(ps, (a[i], x[i].1), (b[i], x[i].1));
    }
  }

  /** The change to one element, whether it stands in a servlet or not. */
  ghost predicate Became(ps: set<Pass>, n: Node, n': Node) {
    exists here :: ChangedBy(ps, (n, here), (n', here))
  }

  /** After the passes the attributes that they name are gone. */
  lemma PassesDone(ps: set<Pass>, t: Node)
    ensures var after := Rewrite(ps, t, false);
      && (Cookie in ps ==> NoneHas(after, "Connector", "emptySessionPath"))
      && (Manager in ps ==> NoneHas(after, "Manager", "randomClass") && NoneHas(after, "Manager", "algorithm")
                            && NoneHas(after, "Manager", "entropy"))
      && (Url in ps ==> NoneHas(after, "Context", "disableURLRewriting"))
  {
    ElementsChange(ps, t);
    hide Rewrite;
    hide Iter;
    var b := Iter(Rewrite(ps, t, false));
    forall n <- b
      ensures AttribsDone(ps, n)
    {
      var i :| 0 <= i < |b| && b[i] == n;
      assert Became(ps, Iter(t)[i], b[i]);
    }
  }

  /** Without the pass over connectors their attributes stay. */
  lemma ConnectorsStay(ps: set<Pass>, t: Node)
    requires Cookie !in ps
    ensures AttribsOf(Iter(Rewrite(ps, t, false)), "Connector") == AttribsOf(Iter(t), "Connector")
  {
    ElementsChange(ps, t);
    var a, b := Iter(t), Iter(Rewrite(ps, t, false));
    hide Rewrite;
    hide Iter;
    forall i | 0 <= i < |a|
      ensures a[i].tag == b[i].tag && (a[i].tag == Name("Connector") ==> a[i].attrib == b[i].attrib)
    {
      assert Became(ps, a[i], b[i]);
      KeysDiffer();
    }
    SameAttribs(a, b, "Connector");
  }

  lemma {:induction false} SameAttribs(a: seq<Node>, b: seq<Node>, tag: string)
    requires |a| == |b|
    requires forall i :: 0 <= i < |a| ==> a[i].tag == b[i].tag && (a[i].tag == Name(tag) ==> a[i].attrib == b[i].attrib)
    ensures AttribsOf(a, tag) == AttribsOf(b, tag)
  {
    if a != [] {
      SameAttribs(a[1..], b[1..], tag);
    }
  }

  /** What the loop over the files does to the trees, in terms of the elements. */
  ghost predicate Migrated(file: string, contexts: seq<string>, before: Option<Node>, after: Option<Node>) {
    && (before.None? <==> after.None?)
    && (before.Some? ==>
          var t, t' := before.value, after.value;
          && (file == "/etc/tomcat6/server.xml" ==> NoneHas(t', "Connector", "emptySessionPath"))
          && (file != "/etc/tomcat6/server.xml" ==> AttribsOf(Iter(t'), "Connector") == AttribsOf(Iter(t), "Connector"))
          && (file in contexts + ["/etc/tomcat6/server.xml", "/etc/tomcat6/context.xml"] ==>
                && NoneHas(t', "Manager", "randomClass") && NoneHas(t', "Manager", "algorithm")
                && NoneHas(t', "Manager", "entropy") && NoneHas(t', "Context", "disableURLRewriting"))
          && (file !in contexts + ["/etc/tomcat6/server.xml", "/etc/tomcat6/context.xml"] ==> t' == t))
  }

  lemma RewrittenIsMigrated(file: string, contexts: seq<string>, tree: Option<Node>)
    ensures Migrated(file, contexts, tree, Rewritten(PassesFor(file, contexts), tree))
  {
    WhoGetsWhat(contexts);
    var ps := PassesFor(file, contexts);
    hide PassesFor;
    if tree.Some? {
      PassesDone(ps, tree.value);
      if file != "/etc/tomcat6/server.xml" {
        ConnectorsStay(ps, tree.value);
      }
      if ps == {} {
        NoPass(tree.value, false);
      }
    }
    hide Rewrite;
    hide NoneHas;
    hide AttribsOf;
    hide Iter;
  }

  predicate EndsWith(s: string, suffix: string) {
    |s| >= |suffix| && s[|s| - |suffix|..] == suffix
  }

  lemma FifthFromEnd(s: string, suffix: string)
    requires EndsWith(s, suffix) && |suffix| >= 5
    ensures s[|s| - 5] == suffix[|suffix| - 5]
  {
  }

  /** No pass reaches a web.xml, where servlets are declared, neither that of an application nor the global one, and
      none reaches the file of users: they are parsed and written again. */
  lemma WebXmlGetsNoPass(file: string, contexts: seq<string>)
    requires forall c <- contexts :: EndsWith(c, "/META-INF/context.xml")
    requires EndsWith(file, "/WEB-INF/web.xml") || file == WEB_XML || file == USERS_XML
    ensures PassesFor(file, contexts) == {}
  {
    assert SERVER_XML[|SERVER_XML| - 5] == 'r' && CONTEXT_XML[|CONTEXT_XML| - 5] == 't';
    assert WEB_XML[|WEB_XML| - 5] == 'b' && USERS_XML[|USERS_XML| - 5] == 's';
    if EndsWith(file, "/WEB-INF/web.xml") {
      FifthFromEnd(file, "/WEB-INF/web.xml");
    }
    if file in contexts {
      FifthFromEnd(file, "/META-INF/context.xml");
    }
  }
}
