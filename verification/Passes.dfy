/** The migration passes as they run: loops over the elements of a tree that change attributes and texts in place. */
module Passes {
  import opened Basics
  import opened Elements
  import opened Builder
  import opened TreeBuilders
  import opened NoisyTree
  import opened Migration
  import Parsing

  // ---------------------------------------------------------------------------
  // The passes on the store
  // ---------------------------------------------------------------------------

  /** The store after an attribute pass has visited the elements ks. */
  function PassStore(p: Pass, store: Store, ks: seq<nat>): Store {
    seq(|store|, i requires 0 <= i < |store| =>
      if i in ks then store[i].(attrib := NewAttrib({p}, store[i].tag, store[i].attrib)) else store[i])
  }

  /** The store after the texts of the elements ks have been looked at. */
  function TextStore(store: Store, ks: seq<nat>): Store {
    seq(|store|, i requires 0 <= i < |store| =>
      if i in ks then store[i].(text := NewText({Jsp}, true, store[i].tag, store[i].text)) else store[i])
  }

  ghost predicate SameShape(s: Store, s': Store) {
    |s| == |s'| && forall i :: 0 <= i < |s| ==> s'[i].children == s[i].children
  }

  lemma {:induction false} SameShapeIter(s: Store, s': Store, k: nat)
    requires Ordered(s) && SameShape(s, s') && k < |s|
    ensures Ordered(s') && IterAt(s', k) == IterAt(s, k)
    decreases |s| - k, |s[k].children| + 1
  {
    assert Ordered(s');
    SameShapeKids(s, s', k, 0);
  }

  lemma {:induction false} SameShapeKids(s: Store, s': Store, k: nat, i: nat)
    requires Ordered(s) && SameShape(s, s') && k < |s| && i <= |s[k].children|
    ensures Ordered(s') && IterKids(s', k, i) == IterKids(s, k, i)
    decreases |s| - k, |s[k].children| - i
  {
    if i < |s[k].children| {
      SameShapeIter(s, s', s[k].children[i]);
      SameShapeKids(s, s', k, i + 1);
    }
  }

  lemma {:induction false} KidsHas(s: Store, k: nat, i: nat, j: nat)
    requires Ordered(s) && k < |s| && i <= j < |s[k].children|
    ensures forall x <- IterAt(s, s[k].children[j]) :: x in IterKids(s, k, i)
    decreases j - i
  {
    if i < j {
      KidsHas(s, k, i + 1, j);
    }
  }

  lemma ChildIter(s: Store, k: nat, j: nat)
    requires Ordered(s) && k < |s| && j < |s[k].children|
    ensures forall x <- IterAt(s, s[k].children[j]) :: x in IterAt(s, k)
  {
    KidsHas(s, k, 0, j);
  }

  lemma RewriteAllAt(ps: set<Pass>, ts: seq<Node>, inServlet: bool, i: nat)
    requires i < |ts|
    ensures RewriteAll(ps, ts, inServlet)[i] == Rewrite(ps, ts[i], inServlet)
    decreases ts
  {
    if i > 0 {
      RewriteAllAt(ps, ts[1..], inServlet, i - 1);
    }
  }

  /** An attribute pass over a list that covers a tree rewrites the tree. */
  lemma {:induction false} PassRewrites(p: Pass, s: Store, ks: seq<nat>, k: nat, inServlet: bool)
    requires p != Jsp && Ordered(s) && k < |s| && forall x <- IterAt(s, k) :: x in ks
    ensures Ordered(PassStore(p, s, ks)) && TreeAt(PassStore(p, s, ks), k) == Rewrite({p}, TreeAt(s, k), inServlet)
    decreases |s| - k
  {
    var s' := PassStore(p, s, ks);
    assert SameShape(s, s') && Ordered(s');
    var t, t' := TreeAt(s, k), TreeAt(s', k);
    var here := inServlet || IsLocal(t.tag, "servlet");
    assert k in IterAt(s, k);
    hide IsLocal;
    forall i | 0 <= i < |t.children|
      ensures t'.children[i] == RewriteAll({p}, t.children, here)[i]
    {
      ChildIter(s, k, i);
      PassRewrites(p, s, ks, s[k].children[i], here);
      RewriteAllAt({p}, t.children, here, i);
    }
    assert t'.children == RewriteAll({p}, t.children, here);
  }

  /** Some servlet in the tree at k has x below it, or is it. */
  ghost predicate Under(s: Store, k: nat, x: nat)
    requires Ordered(s) && k < |s|
  {
    exists v <- IterAt(s, k) :: v < |s| && IsLocal(s[v].tag, "servlet") && x in IterAt(s, v)
  }

  /** The elements reached from k form a tree: none is reached twice. */
  ghost predicate IsTree(s: Store, k: nat) {
    Ordered(s) && k < |s| && NoDuplicates(IterAt(s, k))
  }

  /** An element of one child's tree is in no other child's tree. */
  lemma {:induction false} KidsApart(s: Store, k: nat, i: nat, j: nat, x: nat)
    requires Ordered(s) && k < |s| && i <= j < |s[k].children| && NoDuplicates(IterKids(s, k, i))
    requires x in IterAt(s, s[k].children[j])
    ensures NoDuplicates(IterAt(s, s[k].children[j]))
    ensures forall j' :: i <= j' < |s[k].children| && j' != j ==> x !in IterAt(s, s[k].children[j'])
    decreases |s[k].children| - i
  {
    var a, b := IterAt(s, s[k].children[i]), IterKids(s, k, i + 1);
    assert IterKids(s, k, i) == a + b;
    Apart(a, b);
    if i == j {
      forall j' | i < j' < |s[k].children|
        ensures x !in IterAt(s, s[k].children[j'])
      {
        KidsHas(s, k, i + 1, j');
      }
    } else {
      KidsApart(s, k, i + 1, j, x);
      KidsHas(s, k, i + 1, j);
    }
  }

  lemma Apart(a: seq<nat>, b: seq<nat>)
    requires NoDuplicates(a + b)
    ensures NoDuplicates(a) && NoDuplicates(b) && forall x <- a :: x !in b
  {
    var c := a + b;
    assert forall i :: 0 <= i < |a| ==> c[i] == a[i];
    assert forall i :: 0 <= i < |b| ==> c[|a| + i] == b[i];
  }

  lemma {:induction false} KidsFind(s: Store, k: nat, i: nat, x: nat)
    requires Ordered(s) && k < |s| && i <= |s[k].children| && x in IterKids(s, k, i)
    ensures exists j :: i <= j < |s[k].children| && x in IterAt(s, s[k].children[j])
    decreases |s[k].children| - i
  {
    if x !in IterAt(s, s[k].children[i]) {
      KidsFind(s, k, i + 1, x);
    }
  }

  lemma {:induction false} IterTransitive(s: Store, k: nat, v: nat, x: nat)
    requires Ordered(s) && k < |s| && v < |s| && v in IterAt(s, k) && x in IterAt(s, v)
    ensures x in IterAt(s, k)
    decreases |s| - k
  {
    if v != k {
      KidsFind(s, k, 0, v);
      var j :| 0 <= j < |s[k].children| && v in IterAt(s, s[k].children[j]);
      IterTransitive(s, s[k].children[j], v, x);
      ChildIter(s, k, j);
    }
  }

  /** Equal trees on stores of one shape have equal elements. */
  lemma {:induction false} EqualTrees(s: Store, s': Store, k: nat, x: nat)
    requires Ordered(s) && Ordered(s') && SameShape(s, s') && k < |s| && x in IterAt(s, k)
    requires TreeAt(s', k) == TreeAt(s, k)
    ensures x < |s| && s'[x] == s[x]
    decreases |s| - k
  {
    var t, t' := TreeAt(s, k), TreeAt(s', k);
    if x != k {
      KidsFind(s, k, 0, x);
      var j :| 0 <= j < |s[k].children| && x in IterAt(s, s[k].children[j]);
      assert t.children[j] == TreeAt(s, s[k].children[j]) && t'.children[j] == TreeAt(s', s'[k].children[j]);
      EqualTrees(s, s', s[k].children[j], x);
    }
  }

  /** Standing under a servlet, seen from an element and from one of its children. */
  lemma UnderChild(s: Store, k: nat, j: nat, x: nat)
    requires IsTree(s, k) && j < |s[k].children| && x in IterAt(s, s[k].children[j])
    ensures Under(s, k, x) <==> IsLocal(s[k].tag, "servlet") || Under(s, s[k].children[j], x)
  {
    hide IsLocal;
    var c := s[k].children[j];
    ChildIter(s, k, j);
    assert k in IterAt(s, k);
    if Under(s, k, x) && !IsLocal(s[k].tag, "servlet") {
      var v :| v in IterAt(s, k) && v < |s| && IsLocal(s[v].tag, "servlet") && x in IterAt(s, v);
      assert IterAt(s, k) == [k] + IterKids(s, k, 0);
      KidsFind(s, k, 0, v);
      var j' :| 0 <= j' < |s[k].children| && v in IterAt(s, s[k].children[j']);
      IterTransitive(s, s[k].children[j'], v, x);
      Apart([k], IterKids(s, k, 0));
      KidsApart(s, k, 0, j, x);
      assert j' == j;
    }
  }

  /** Looking at the texts of exactly the elements under a servlet rewrites the tree. */
  lemma {:induction false} TextRewrites(s: Store, ks: seq<nat>, k: nat, inServlet: bool)
    requires IsTree(s, k)
    requires forall x <- IterAt(s, k) :: x in ks <==> inServlet || Under(s, k, x)
    ensures Ordered(TextStore(s, ks)) && TreeAt(TextStore(s, ks), k) == Rewrite({Jsp}, TreeAt(s, k), inServlet)
    decreases |s| - k
  {
    var s' := TextStore(s, ks);
    TextStoreShape(s, ks);
    var t, t' := TreeAt(s, k), TreeAt(s', k);
    var here := inServlet || IsLocal(s[k].tag, "servlet");
    UnderSelf(s, k);
    TextOfOne(s, ks, k, here);
    JspNode(t, inServlet);
    hide Under;
    hide IterAt;
    hide IsTree;
    hide NewText;
    hide IsLocal;
    hide TextStore;
    hide Rewrite;
    forall i | 0 <= i < |t.children|
      ensures t'.children[i] == RewriteAll({Jsp}, t.children, here)[i]
    {
      TextChild(s, ks, k, i, inServlet);
      TextRewrites(s, ks, s[k].children[i], here);
      RewriteAllAt({Jsp}, t.children, here, i);
    }
    assert t'.children == RewriteAll({Jsp}, t.children, here);
  }

  /** The element itself, before and after. */
  lemma TextOfOne(s: Store, ks: seq<nat>, k: nat, here: bool)
    requires Ordered(s) && k < |s| && (k in IterAt(s, k) ==> (k in ks <==> here))
    ensures TextStore(s, ks)[k] == s[k].(text := NewText({Jsp}, here, s[k].tag, s[k].text))
  {
    hide IsLocal;
    assert k in IterAt(s, k);
  }

  lemma JspNode(t: Node, inServlet: bool)
    ensures var here := inServlet || IsLocal(t.tag, "servlet");
      Rewrite({Jsp}, t, inServlet)
      == Node(t.tag, t.attrib, NewText({Jsp}, here, t.tag, t.text), RewriteAll({Jsp}, t.children, here), t.tail)
  {
    hide IsLocal;
    hide NewText;
    hide RewriteAll;
    assert NewAttrib({Jsp}, t.tag, t.attrib) == t.attrib by {
      hide ManagerAttrib;
    }
    hide NewAttrib;
  }

  /** The child at i meets what TextRewrites demands. */
  lemma TextChild(s: Store, ks: seq<nat>, k: nat, i: nat, inServlet: bool)
    requires IsTree(s, k) && i < |s[k].children|
    requires forall x <- IterAt(s, k) :: x in ks <==> inServlet || Under(s, k, x)
    ensures var c, here := s[k].children[i], inServlet || IsLocal(s[k].tag, "servlet");
      IsTree(s, c) && forall x <- IterAt(s, c) :: x in ks <==> here || Under(s, c, x)
  {
    hide IsLocal;
    var c := s[k].children[i];
    ChildIter(s, k, i);
    Apart([k], IterKids(s, k, 0));
    KidsApart(s, k, 0, i, c);
    hide Under;
    forall x <- IterAt(s, c)
      ensures x in ks <==> inServlet || IsLocal(s[k].tag, "servlet") || Under(s, c, x)
    {
      UnderChild(s, k, i, x);
    }
  }

  lemma UnderSelf(s: Store, k: nat)
    requires IsTree(s, k)
    ensures Under(s, k, k) <==> IsLocal(s[k].tag, "servlet")
  {
    hide IsLocal;
    assert IterAt(s, k) == [k] + IterKids(s, k, 0);
    if Under(s, k, k) && !IsLocal(s[k].tag, "servlet") {
      var v :| v in IterAt(s, k) && v < |s| && IsLocal(s[v].tag, "servlet") && k in IterAt(s, v);
      KidsFind(s, k, 0, v);
      var j :| 0 <= j < |s[k].children| && v in IterAt(s, s[k].children[j]);
      IterTransitive(s, s[k].children[j], v, k);
      KidsHas(s, k, 0, j);
      Apart([k], IterKids(s, k, 0));
    }
  }

  // ---------------------------------------------------------------------------
  // The loops
  // ---------------------------------------------------------------------------

  /** One more element of an attribute pass. */
  lemma PassNext(p: Pass, s: Store, ks: seq<nat>, j: nat)
    requires j < |ks| && Below(ks, |s|) && NoDuplicates(ks)
    ensures PassStore(p, s, ks[..j])[ks[j]] == s[ks[j]]
    ensures PassStore(p, s, ks[..j + 1])
            == PassStore(p, s, ks[..j])[ks[j] := s[ks[j]].(attrib := NewAttrib({p}, s[ks[j]].tag, s[ks[j]].attrib))]
  {
    hide NewAttrib;
    assert ks[..j + 1] == ks[..j] + [ks[j]];
    assert ks[j] !in ks[..j];
  }

  /** Giving one element a new dictionary of attributes. */
  method SetAttrib(e: Element, a: map<string, string>, ghost order: seq<Element>, ghost s: Store, ghost i: nat)
      returns (ghost after: Store)
    requires Stands(order, s) && i < |order| && e == order[i]
    modifies e`attrib
    ensures after == s[i := s[i].(attrib := a)] && Stands(order, after)
  {
    e.attrib := a;
    after := s[i := s[i].(attrib := a)];
    assert forall j :: 0 <= j < |order| && j != i ==> Mirrors(order, order[j], after[j]);
  }

  ghost predicate AnyHas(s: Store, ks: seq<nat>, tag: string, key: string) {
    exists v <- ks :: v < |s| && s[v].tag == Name(tag) && key in s[v].attrib
  }

  lemma NoneHas(s: Store, ks: seq<nat>, tag: string, key: string)
    ensures !AnyHas(s, ks[..0], tag, key)
  {
  }

  lemma AnyHasNext(s: Store, ks: seq<nat>, j: nat, tag: string, key: string)
    requires j < |ks| && Below(ks, |s|)
    ensures AnyHas(s, ks[..j + 1], tag, key) <==>
      AnyHas(s, ks[..j], tag, key) || (s[ks[j]].tag == Name(tag) && key in s[ks[j]].attrib)
  {
    assert ks[..j + 1] == ks[..j] + [ks[j]];
  }

  ghost predicate PopPass(p: Pass, tag: string, key: string) {
    (p == Cookie && tag == "Connector" && key == "emptySessionPath")
    || (p == Url && tag == "Context" && key == "disableURLRewriting")
  }

  lemma PopIs(p: Pass, tag: string, key: string, r: Rec)
    requires PopPass(p, tag, key)
    ensures NewAttrib({p}, r.tag, r.attrib)
            == if r.tag == Name(tag) && key in r.attrib then r.attrib - {key} else r.attrib
  {
  }

  /** The two popping passes change the tree exactly if some element has what they pop. */
  lemma PopChangesIff(p: Pass, tag: string, key: string, s: Store, k: nat)
    requires PopPass(p, tag, key) && IsTree(s, k)
    ensures var after := PassStore(p, s, IterAt(s, k));
      Ordered(after) && (TreeAt(after, k) != TreeAt(s, k) <==> AnyHas(s, IterAt(s, k), tag, key))
  {
    var ks := IterAt(s, k);
    var after := PassStore(p, s, ks);
    assert SameShape(s, after) && Ordered(after);
    forall v | 0 <= v < |s|
      ensures after[v] == if v in ks && s[v].tag == Name(tag) && key in s[v].attrib
                          then s[v].(attrib := s[v].attrib - {key}) else s[v]
    {
      PopIs(p, tag, key, s[v]);
    }
    hide PassStore;
    hide IterAt;
    hide TreeAt;
    hide IsTree;
    if AnyHas(s, ks, tag, key) {
      var v :| v in ks && v < |s| && s[v].tag == Name(tag) && key in s[v].attrib;
      assert after[v].attrib != s[v].attrib;
      if TreeAt(after, k) == TreeAt(s, k) {
        EqualTrees(s, after, k, v);
      }
    } else {
      assert after == s;
    }
  }

  /** One round of the loop below. */
  method PopOne(p: Pass, tag: string, key: string, e: Element,
                ghost order: seq<Element>, ghost s: Store, ghost ks: seq<nat>, ghost j: nat)
      returns (hit: bool, ghost after: Store)
    requires PopPass(p, tag, key) && j < |ks| && Below(ks, |s|) && NoDuplicates(ks)
    requires Stands(order, PassStore(p, s, ks[..j])) && |order| == |s| && e == order[ks[j]]
    modifies order
    ensures Stands(order, after) && after == PassStore(p, s, ks[..j + 1])
    ensures hit <==> s[ks[j]].tag == Name(tag) && key in s[ks[j]].attrib
  {
    hide Stands;
    after := PassStore(p, s, ks[..j]);
    PassNext(p, s, ks, j);
    FieldsOf(order, after, ks[j]);
    PopIs(p, tag, key, s[ks[j]]);
    hide PassStore;
    hide NewAttrib;
    hit := e.tag == Name(tag) && key in e.attrib;
    if hit {
      after := SetAttrib(e, e.attrib - {key}, order, after, ks[j]);
    }
  }

  /** The loop of the two passes that pop one attribute from the elements with one tag. */
  method PopFrom(p: Pass, tag: string, key: string, root: Element?,
                 ghost order: seq<Element>, ghost s: Store, ghost k: nat)
      returns (changed: bool, ghost after: Store)
    requires PopPass(p, tag, key)
    requires Stands(order, s) && (root != null ==> IsTree(s, k) && root == order[k])
    modifies order
    ensures Stands(order, after)
    ensures after == if root == null then s else PassStore(p, s, IterAt(s, k))
    ensures changed <==> root != null && AnyHas(s, IterAt(s, k), tag, key)
    ensures root != null ==> Ordered(after) && (changed <==> TreeAt(after, k) != TreeAt(s, k))
  {
    changed, after := false, s;
    if root == null {
      return;
    }
    hide Stands;
    PopChangesIff(p, tag, key, s, k);
    ghost var ks := IterAt(s, k);
    IterBelow(s, k);
    StandsDistinct(order, s);
    var elems := IterElements(root, order, s, k);
    changed, after := PopFromAll(p, tag, key, elems, order, s, ks);
  }

  /** The loop over the elements. */
  method PopFromAll(p: Pass, tag: string, key: string, elems: seq<Element>,
                    ghost order: seq<Element>, ghost s: Store, ghost ks: seq<nat>)
      returns (changed: bool, ghost after: Store)
    requires PopPass(p, tag, key) && Stands(order, s) && |order| == |s|
    requires Below(ks, |order|) && NoDuplicates(ks) && elems == Objects(order, ks)
    modifies order
    ensures Stands(order, after) && after == PassStore(p, s, ks)
    ensures changed <==> AnyHas(s, ks, tag, key)
  {
    changed, after := false, s;
    assert PassStore(p, s, ks[..0]) == s;
    hide Stands;
    hide PassStore;
    hide PopPass;
    hide AnyHas;
    hide NoDuplicates;
    NoneHas(s, ks, tag, key);
    for j := 0 to |elems|
      invariant Stands(order, after)
      invariant after == PassStore(p, s, ks[..j])
      invariant changed <==> AnyHas(s, ks[..j], tag, key)
    {
      AnyHasNext(s, ks, j, tag, key);
      var hit;
      assert elems[j] == order[ks[j]];
      hit, after := PopOne(p, tag, key, elems[j], order, s, ks, j);
      if hit {
        changed := true;
      }
    }
    assert ks[..|ks|] == ks;
  }

  lemma FieldsOf(order: seq<Element>, s: Store, i: nat)
    requires Stands(order, s) && i < |order|
    ensures i < |s| && order[i].tag == s[i].tag && order[i].attrib == s[i].attrib && order[i].text == s[i].text
  {
    assert Mirrors(order, order[i], s[i]);
  }

  /** check_session_cookie_connector; root is null when the file could not be parsed. */
  method CheckSessionCookieConnector(root: Element?, ghost order: seq<Element>, ghost s: Store, ghost k: nat)
      returns (changed: bool, ghost after: Store)
    requires Stands(order, s) && (root != null ==> IsTree(s, k) && root == order[k])
    modifies order
    ensures Stands(order, after)
    ensures after == if root == null then s else PassStore(Cookie, s, IterAt(s, k))
    ensures changed <==> root != null && AnyHas(s, IterAt(s, k), "Connector", "emptySessionPath")
    ensures root != null ==> Ordered(after) && (changed <==> TreeAt(after, k) != TreeAt(s, k))
  {
    changed, after := PopFrom(Cookie, "Connector", "emptySessionPath", root, order, s, k);
  }

  /** check_url_rewriting. */
  method CheckUrlRewriting(root: Element?, ghost order: seq<Element>, ghost s: Store, ghost k: nat)
      returns (changed: bool, ghost after: Store)
    requires Stands(order, s) && (root != null ==> IsTree(s, k) && root == order[k])
    modifies order
    ensures Stands(order, after)
    ensures after == if root == null then s else PassStore(Url, s, IterAt(s, k))
    ensures changed <==> root != null && AnyHas(s, IterAt(s, k), "Context", "disableURLRewriting")
    ensures root != null ==> Ordered(after) && (changed <==> TreeAt(after, k) != TreeAt(s, k))
  {
    changed, after := PopFrom(Url, "Context", "disableURLRewriting", root, order, s, k);
  }

  /** The body of the loop of check_session_manager: randomClass is renamed, algorithm and entropy are dropped. */
  method FixManager(e: Element, ghost order: seq<Element>, ghost s: Store, ghost i: nat)
      returns (changedSec: bool, changedAlg: bool, ghost after: Store)
    requires Stands(order, s) && i < |order| && e == order[i]
    modifies e`attrib
    ensures Stands(order, after) && after == s[i := s[i].(attrib := ManagerAttrib(s[i].attrib))]
    ensures changedSec <==> "randomClass" in s[i].attrib
    ensures changedAlg <==> "algorithm" in s[i].attrib || "entropy" in s[i].attrib
  {
    FieldsOf(order, s, i);
    var a := e.attrib;
    assert "randomClass"[0] == 'r' && "algorithm"[0] == 'a' && "entropy"[0] == 'e' && "secureRandomClass"[0] == 's';
    changedSec, changedAlg := false, false;
    if "randomClass" in a {
      a := a["secureRandomClass" := a["randomClass"]];
      a := a - {"randomClass"};
      changedSec := true;
    }
    if "algorithm" in a {
      a := a - {"algorithm"};
      changedAlg := true;
    }
    if "entropy" in a {
      a := a - {"entropy"};
      changedAlg := true;
    }
    assert a == ManagerAttrib(s[i].attrib);
    hide Stands;
    after := SetAttrib(e, a, order, s, i);
  }

  method ManagerOne(e: Element, ghost order: seq<Element>, ghost s: Store, ghost ks: seq<nat>, ghost j: nat)
      returns (hit: bool, ghost after: Store)
    requires j < |ks| && Below(ks, |s|) && NoDuplicates(ks)
    requires Stands(order, PassStore(Manager, s, ks[..j])) && |order| == |s| && e == order[ks[j]]
    modifies order
    ensures Stands(order, after) && after == PassStore(Manager, s, ks[..j + 1])
    ensures hit <==> (s[ks[j]].tag == Name("Manager")
      && ("randomClass" in s[ks[j]].attrib || "algorithm" in s[ks[j]].attrib || "entropy" in s[ks[j]].attrib))
  {
    hide Stands;
    hit, after := false, PassStore(Manager, s, ks[..j]);
    PassNext(Manager, s, ks, j);
    FieldsOf(order, after, ks[j]);
    hide PassStore;
    if e.tag == Name("Manager") {
      var sec, alg;
      sec, alg, after := FixManager(e, order, after, ks[j]);
      hit := sec || alg;
    }
  }

  /** Some Manager has one of the three attributes. */
  ghost predicate AnyManager(s: Store, ks: seq<nat>) {
    || AnyHas(s, ks, "Manager", "randomClass")
    || AnyHas(s, ks, "Manager", "algorithm")
    || AnyHas(s, ks, "Manager", "entropy")
  }

  /** The pass over managers changes the tree exactly if some manager has one of the three attributes. */
  lemma ManagerChangesIff(s: Store, k: nat)
    requires IsTree(s, k)
    ensures var after := PassStore(Manager, s, IterAt(s, k));
      Ordered(after) && (TreeAt(after, k) != TreeAt(s, k) <==> AnyManager(s, IterAt(s, k)))
  {
    var ks := IterAt(s, k);
    var after := PassStore(Manager, s, ks);
    assert SameShape(s, after) && Ordered(after);
    forall v | 0 <= v < |s|
      ensures after[v].(attrib := s[v].attrib) == s[v]
      ensures after[v].attrib != s[v].attrib <==> v in ks && s[v].tag == Name("Manager") && HasOldKey(s[v].attrib)
    {
      ManagerAttribDiffers(s[v].attrib);
    }
    hide PassStore;
    hide IterAt;
    hide TreeAt;
    hide IsTree;
    if AnyManager(s, ks) {
      var v :| v in ks && v < |s| && s[v].tag == Name("Manager") && HasOldKey(s[v].attrib);
      if TreeAt(after, k) == TreeAt(s, k) {
        EqualTrees(s, after, k, v);
      }
    } else {
      assert after == s;
    }
  }

  predicate HasOldKey(a: map<string, string>) {
    "randomClass" in a || "algorithm" in a || "entropy" in a
  }

  lemma ManagerAttribDiffers(a: map<string, string>)
    ensures ManagerAttrib(a) != a <==> HasOldKey(a)
  {
    assert "randomClass"[0] == 'r' && "algorithm"[0] == 'a' && "entropy"[0] == 'e' && "secureRandomClass"[0] == 's';
    assert "randomClass" !in ManagerAttrib(a) && "algorithm" !in ManagerAttrib(a) && "entropy" !in ManagerAttrib(a);
  }

  /** check_session_manager. */
  method CheckSessionManager(root: Element?, ghost order: seq<Element>, ghost s: Store, ghost k: nat)
      returns (changed: bool, ghost after: Store)
    requires Stands(order, s) && (root != null ==> IsTree(s, k) && root == order[k])
    modifies order
    ensures Stands(order, after)
    ensures after == if root == null then s else PassStore(Manager, s, IterAt(s, k))
    ensures changed <==> root != null && AnyManager(s, IterAt(s, k))
    ensures root != null ==> Ordered(after) && (changed <==> TreeAt(after, k) != TreeAt(s, k))
  {
    changed, after := false, s;
    if root == null {
      return;
    }
    hide Stands;
    ghost var ks := IterAt(s, k);
    IterBelow(s, k);
    StandsDistinct(order, s);
    var elems := IterElements(root, order, s, k);
    ManagerChangesIff(s, k);
    assert PassStore(Manager, s, ks[..0]) == s;
    hide PassStore;
    for j := 0 to |elems|
      invariant Stands(order, after)
      invariant after == PassStore(Manager, s, ks[..j])
      invariant changed <==> AnyManager(s, ks[..j])
    {
      AnyHasNext(s, ks, j, "Manager", "randomClass");
      AnyHasNext(s, ks, j, "Manager", "algorithm");
      AnyHasNext(s, ks, j, "Manager", "entropy");
      var hit;
      hit, after := ManagerOne(elems[j], order, s, ks, j);
      if hit {
        changed := true;
      }
    }
    assert ks[..|ks|] == ks;
  }

  // ---------------------------------------------------------------------------
  // check_jsp_compiler
  // ---------------------------------------------------------------------------

  lemma TextStoreShape(s: Store, ks: seq<nat>)
    requires Ordered(s)
    ensures SameShape(s, TextStore(s, ks)) && Ordered(TextStore(s, ks))
    ensures forall i :: 0 <= i < |s| ==> TextStore(s, ks)[i].tag == s[i].tag
  {
  }

  /** One more text has been looked at. */
  lemma TextNext(s: Store, ks: seq<nat>, x: nat)
    requires x < |s|
    ensures TextStore(s, ks + [x])
            == TextStore(s, ks)[
                 x := TextStore(s, ks)[x].(text := NewText({Jsp}, true, s[x].tag, TextStore(s, ks)[x].text))]
  {
    ParamsDiffer();
    hide IsLocal;
    var a, b := TextStore(s, ks + [x]), TextStore(s, ks);
    forall i | 0 <= i < |s| && i != x
      ensures a[i] == b[i]
    {
      assert i in ks + [x] <==> i in ks;
    }
  }

  /** Giving one element a new text. */
  method SetText(e: Element, text: Option<string>, ghost order: seq<Element>, ghost s: Store, ghost x: nat)
      returns (ghost after: Store)
    requires Stands(order, s) && x < |order| && e == order[x]
    modifies e`text
    ensures Stands(order, after) && after == s[x := s[x].(text := text)]
  {
    after := s[x := s[x].(text := text)];
    e.text := text;
    assert forall j :: 0 <= j < |order| && j != x ==> Mirrors(order, order[j], after[j]);
  }

  /** The assignment to the text of one element. */
  method FixText(e: Element, ghost order: seq<Element>, ghost s: Store, ghost x: nat) returns (ghost after: Store)
    requires Stands(order, s) && x < |order| && e == order[x]
    modifies e`text
    ensures Stands(order, after)
    ensures after == s[x := s[x].(text := NewText({Jsp}, true, s[x].tag, s[x].text))]
  {
    FieldsOf(order, s, x);
    hide Stands;
    hide IsLocal;
    after := s;
    if IsLocal(e.tag, "param-name") && e.text == Some(OLD_PARAM) {
      after := SetText(e, Some(NEW_PARAM), order, s, x);
    }
  }

  /** One of the elements named is a param-name. */
  ghost predicate HasParam(s: Store, ks: seq<nat>) {
    exists x <- ks :: x < |s| && IsLocal(s[x].tag, "param-name")
  }

  /** The inner loop: every element of one servlet is looked at. */
  method FixServlet(servlet: Element, ghost order: seq<Element>, ghost s: Store, ghost seen: seq<nat>, ghost v: nat)
      returns (anyParam: bool, ghost after: Store)
    requires Ordered(s) && |order| == |s| && v < |s| && Stands(order, TextStore(s, seen)) && servlet == order[v]
    modifies order
    ensures Stands(order, after) && after == TextStore(s, seen + IterAt(s, v))
    ensures anyParam <==> HasParam(s, IterAt(s, v))
  {
    hide Stands;
    hide IsLocal;
    after := TextStore(s, seen);
    TextStoreShape(s, seen);
    SameShapeIter(s, after, v);
    ghost var ks := IterAt(s, v);
    IterBelow(s, v);
    var elems := IterElements(servlet, order, after, v);
    anyParam := false;
    assert seen + ks[..0] == seen;
    for j := 0 to |elems|
      invariant Stands(order, after)
      invariant after == TextStore(s, seen + ks[..j])
      invariant anyParam <==> HasParam(s, ks[..j])
    {
      assert ks[..j + 1] == ks[..j] + [ks[j]];
      Assoc(seen, ks[..j], [ks[j]]);
      TextNext(s, seen + ks[..j], ks[j]);
      TextStoreShape(s, seen + ks[..j]);
      FieldsOf(order, after, ks[j]);
      hide TextStore;
      if IsLocal(elems[j].tag, "param-name") {
        anyParam := true;
      }
      after := FixText(elems[j], order, after, ks[j]);
    }
    assert ks[..|ks|] == ks;
  }

  /** x is or stands below one of the servlets among ks. */
  ghost predicate UnderOne(s: Store, ks: seq<nat>, x: nat)
    requires Ordered(s)
  {
    exists v <- ks :: UnderThis(s, v, x)
  }

  /** v is a servlet, and x is v or stands below it. */
  ghost predicate UnderThis(s: Store, v: nat, x: nat)
    requires Ordered(s)
  {
    v < |s| && IsLocal(s[v].tag, "servlet") && x in IterAt(s, v)
  }

  lemma UnderOneNext(s: Store, ks: seq<nat>, j: nat, x: nat)
    requires Ordered(s) && j < |ks|
    ensures UnderOne(s, ks[..j + 1], x) <==> UnderOne(s, ks[..j], x) || UnderThis(s, ks[j], x)
  {
    hide UnderThis;
    assert ks[..j + 1] == ks[..j] + [ks[j]];
  }

  /** Some param-name stands below a servlet. */
  ghost predicate AnyParam(s: Store, ks: seq<nat>)
    requires Ordered(s)
  {
    exists x :: 0 <= x < |s| && IsLocal(s[x].tag, "param-name") && UnderOne(s, ks, x)
  }

  /** The elements looked at so far, and the flag, after the first n elements of ks. */
  ghost predicate Looked(s: Store, ks: seq<nat>, n: nat, seen: seq<nat>, changed: bool)
    requires Ordered(s) && n <= |ks|
  {
    && (forall x :: x in seen <==> UnderOne(s, ks[..n], x))
    && (changed <==> AnyParam(s, ks[..n]))
  }

  lemma SeenNext(s: Store, ks: seq<nat>, n: nat, x: nat, seen: seq<nat>)
    requires Ordered(s) && n < |ks| && ks[n] < |s| && (x in seen <==> UnderOne(s, ks[..n], x))
    ensures UnderOne(s, ks[..n + 1], x) <==>
      x in if IsLocal(s[ks[n]].tag, "servlet") then seen + IterAt(s, ks[n]) else seen
  {
    UnderOneNext(s, ks, n, x);
    hide UnderOne;
    hide IsLocal;
    hide IterAt;
  }

  lemma LookedNext(s: Store, ks: seq<nat>, n: nat, seen: seq<nat>, changed: bool, seen': seq<nat>, changed': bool)
    requires Ordered(s) && n < |ks| && ks[n] < |s| && Looked(s, ks, n, seen, changed)
    requires if IsLocal(s[ks[n]].tag, "servlet") then
        seen' == seen + IterAt(s, ks[n]) && (changed' <==> changed || HasParam(s, IterAt(s, ks[n])))
      else seen' == seen && changed' == changed
    ensures Looked(s, ks, n + 1, seen', changed')
  {
    hide UnderOne;
    hide AnyParam;
    hide HasParam;
    hide IsLocal;
    hide IterAt;
    forall x: nat
      ensures x in seen' <==> UnderOne(s, ks[..n + 1], x)
    {
      SeenNext(s, ks, n, x, seen);
    }
    AnyParamNext(s, ks, n);
  }

  lemma AnyParamNext(s: Store, ks: seq<nat>, n: nat)
    requires Ordered(s) && n < |ks| && ks[n] < |s|
    ensures AnyParam(s, ks[..n + 1]) <==>
      AnyParam(s, ks[..n]) || (IsLocal(s[ks[n]].tag, "servlet") && HasParam(s, IterAt(s, ks[n])))
  {
    forall x: nat
      ensures UnderOne(s, ks[..n + 1], x) <==> UnderOne(s, ks[..n], x) || UnderThis(s, ks[n], x)
    {
      UnderOneNext(s, ks, n, x);
    }
    hide UnderOne;
    hide IsLocal;
    hide IterAt;
    if AnyParam(s, ks[..n + 1]) {
      var x :| 0 <= x < |s| && IsLocal(s[x].tag, "param-name") && UnderOne(s, ks[..n + 1], x);
    }
    if IsLocal(s[ks[n]].tag, "servlet") && HasParam(s, IterAt(s, ks[n])) {
      var x :| x in IterAt(s, ks[n]) && x < |s| && IsLocal(s[x].tag, "param-name");
      assert UnderThis(s, ks[n], x);
    }
  }

  /** One round of the outer loop: the inner loop is run if the element is a servlet. */
  method FixIfServlet(e: Element, ghost order: seq<Element>, ghost s: Store, ghost seen: seq<nat>, ghost v: nat)
      returns (anyParam: bool, ghost seen': seq<nat>)
    requires Ordered(s) && |order| == |s| && v < |s| && Stands(order, TextStore(s, seen)) && e == order[v]
    modifies order
    ensures Stands(order, TextStore(s, seen'))
    ensures if IsLocal(s[v].tag, "servlet") then
        seen' == seen + IterAt(s, v)
        && (anyParam <==> HasParam(s, IterAt(s, v)))
      else seen' == seen && !anyParam
  {
    hide Stands;
    hide IsLocal;
    TextStoreShape(s, seen);
    FieldsOf(order, TextStore(s, seen), v);
    hide TextStore;
    anyParam, seen' := false, seen;
    if IsLocal(e.tag, "servlet") {
      ghost var after;
      anyParam, after := FixServlet(e, order, s, seen, v);
      seen' := seen + IterAt(s, v);
    }
  }

  lemma LookedNone(s: Store, ks: seq<nat>)
    requires Ordered(s)
    ensures TextStore(s, []) == s && Looked(s, ks, 0, [], false)
  {
    hide IterAt;
    hide IsLocal;
    assert ks[..0] == [];
  }

  /** The outer loop. It returns the list of the elements looked at. */
  method FixServlets(elems: seq<Element>, ghost order: seq<Element>, ghost s: Store, ghost ks: seq<nat>)
      returns (changed: bool, ghost seen: seq<nat>)
    requires Ordered(s) && Stands(order, s) && Below(ks, |order|) && elems == Objects(order, ks)
    modifies order
    ensures Stands(order, TextStore(s, seen))
    ensures Looked(s, ks, |ks|, seen, changed)
  {
    StandsDistinct(order, s);
    LookedNone(s, ks);
    assert |order| == |s|;
    hide Stands;
    hide IsLocal;
    hide IterAt;
    hide TextStore;
    hide Looked;
    changed, seen := false, [];
    for j := 0 to |elems|
      invariant Stands(order, TextStore(s, seen))
      invariant Looked(s, ks, j, seen, changed)
    {
      ghost var seenBefore, changedBefore := seen, changed;
      var anyParam;
      assert elems[j] == order[ks[j]];
      anyParam, seen := FixIfServlet(elems[j], order, s, seen, ks[j]);
      changed := changed || anyParam;
      LookedNext(s, ks, j, seenBefore, changedBefore, seen, changed);
    }
  }

  /** Some param-name below a servlet has the old text. */
  ghost predicate AnyOldParam(s: Store, ks: seq<nat>)
    requires Ordered(s)
  {
    exists x :: 0 <= x < |s| && IsLocal(s[x].tag, "param-name") && s[x].text == Some(OLD_PARAM) && UnderOne(s, ks, x)
  }

  /** Looking at the texts changes the tree exactly if one of them is the old one. */
  lemma TextChangesIff(s: Store, seen: seq<nat>, k: nat)
    requires Ordered(s) && k < |s| && forall x :: x in seen <==> UnderOne(s, IterAt(s, k), x)
    ensures Ordered(TextStore(s, seen))
    ensures TreeAt(TextStore(s, seen), k) != TreeAt(s, k) <==> AnyOldParam(s, IterAt(s, k))
  {
    var ks, after := IterAt(s, k), TextStore(s, seen);
    TextStoreShape(s, seen);
    ParamsDiffer();
    forall x | 0 <= x < |s|
      ensures after[x].(text := s[x].text) == s[x]
      ensures after[x].text != s[x].text <==>
        x in seen && IsLocal(s[x].tag, "param-name") && s[x].text == Some(OLD_PARAM)
    {
    }
    hide TextStore;
    hide IsLocal;
    hide IterAt;
    hide TreeAt;
    if AnyOldParam(s, ks) {
      var x :| 0 <= x < |s| && IsLocal(s[x].tag, "param-name") && s[x].text == Some(OLD_PARAM) && UnderOne(s, ks, x);
      var v :| v in ks && UnderThis(s, v, x);
      IterTransitive(s, k, v, x);
      if TreeAt(after, k) == TreeAt(s, k) {
        EqualTrees(s, after, k, x);
      }
    } else {
      hide UnderOne;
      assert after == s;
    }
  }

  /** check_jsp_compiler. The flag that it returns says that some param-name stands below a servlet, whether or
      not a text was changed: in the source the assignment of the flag stands outside the test of the text. So
      flag and change agree exactly if there is no such element or one of them has the old text. */
  method CheckJspCompiler(root: Element?, ghost order: seq<Element>, ghost s: Store, ghost k: nat)
      returns (changed: bool, ghost after: Store)
    requires Stands(order, s) && (root != null ==> IsTree(s, k) && root == order[k])
    modifies order
    ensures Stands(order, after)
    ensures root == null ==> after == s && !changed
    ensures root != null ==> SameShape(s, after) && Ordered(after)
    ensures root != null ==> TreeAt(after, k) == Rewrite({Jsp}, TreeAt(s, k), false)
    ensures root != null ==> (changed <==> AnyParam(s, IterAt(s, k)))
    ensures root != null ==> (TreeAt(after, k) != TreeAt(s, k) <==> AnyOldParam(s, IterAt(s, k)))
    ensures root != null ==> ((changed <==> TreeAt(after, k) != TreeAt(s, k)) <==>
      (AnyParam(s, IterAt(s, k)) ==> AnyOldParam(s, IterAt(s, k))))
  {
    changed, after := false, s;
    if root == null {
      return;
    }
    IterBelow(s, k);
    var elems := IterElements(root, order, s, k);
    ghost var seen;
    changed, seen := FixServlets(elems, order, s, IterAt(s, k));
    after := TextStore(s, seen);
    TextStoreShape(s, seen);
    hide Stands;
    assert IterAt(s, k)[..|IterAt(s, k)|] == IterAt(s, k);
    TextChangesIff(s, seen, k);
    OldParamIsParam(s, IterAt(s, k));
    forall x <- IterAt(s, k)
      ensures x in seen <==> false || Under(s, k, x)
    {
      UnderOneIsUnder(s, k, x);
    }
    TextRewrites(s, seen, k, false);
  }

  lemma OldParamIsParam(s: Store, ks: seq<nat>)
    requires Ordered(s)
    ensures AnyOldParam(s, ks) ==> AnyParam(s, ks)
  {
  }

  /** The flag without the change: a servlet with a param-name that has no text. */
  lemma FlagWithoutChange()
    ensures var s := [Rec(Name("servlet"), map[], None, None, [1]), Rec(Name("param-name"), map[], None, None, [])];
      IsTree(s, 0) && AnyParam(s, IterAt(s, 0)) && !AnyOldParam(s, IterAt(s, 0))
  {
    hide *;
    PlainIsLocal("servlet");
    PlainIsLocal("param-name");
    FlagAlone([Rec(Name("servlet"), map[], None, None, [1]), Rec(Name("param-name"), map[], None, None, [])]);
  }

  lemma FlagAlone(s: Store)
    requires |s| == 2 && s[0].children == [1] && s[1].children == []
    requires IsLocal(s[0].tag, "servlet") && IsLocal(s[1].tag, "param-name")
    requires s[0].text == None && s[1].text == None
    ensures IsTree(s, 0) && AnyParam(s, IterAt(s, 0)) && !AnyOldParam(s, IterAt(s, 0))
  {
    hide IsLocal;
    hide AnyParam;
    hide AnyOldParam;
    hide IterAt;
    ServletIter(s);
    assert Ordered(s);
    NoTextNoOld(s, IterAt(s, 0));
    ParamOf(s, IterAt(s, 0), 0, 1);
  }

  lemma NoTextNoOld(s: Store, ks: seq<nat>)
    requires Ordered(s) && forall x :: 0 <= x < |s| ==> s[x].text == None
    ensures !AnyOldParam(s, ks)
  {
  }

  lemma ParamOf(s: Store, ks: seq<nat>, v: nat, x: nat)
    requires Ordered(s) && v in ks && v < |s| && x < |s| && x in IterAt(s, v)
    requires IsLocal(s[v].tag, "servlet") && IsLocal(s[x].tag, "param-name")
    ensures AnyParam(s, ks)
  {
    hide IsLocal;
    hide IterAt;
    assert UnderThis(s, v, x);
  }

  /** A name without a namespace is its own local part. */
  lemma PlainIsLocal(name: string)
    requires '}' !in name && forall c <- name :: c as int < 0x80
    ensures IsLocal(Name(name), name)
  {
    assert name[0..] == name && forall i :: 0 <= i < |name| ==> name[i] in name;
  }

  lemma ServletIter(s: Store)
    requires |s| == 2 && s[0].children == [1] && s[1].children == []
    ensures IsTree(s, 0) && IterAt(s, 0) == [0, 1]
  {
    assert Ordered(s);
    assert IterAt(s, 1) == [1];
    assert IterKids(s, 0, 1) == [];
  }

  lemma UnderOneIsUnder(s: Store, k: nat, x: nat)
    requires Ordered(s) && k < |s|
    ensures UnderOne(s, IterAt(s, k), x) <==> Under(s, k, x)
  {
  }

  // ---------------------------------------------------------------------------
  // The passes over one file
  // ---------------------------------------------------------------------------

  /** A pass keeps the shape of the tree. */
  lemma PassKeepsTree(p: Pass, s: Store, k: nat)
    requires p != Jsp && IsTree(s, k)
    ensures var after := PassStore(p, s, IterAt(s, k));
      IsTree(after, k) && SameShape(s, after) && TreeAt(after, k) == Rewrite({p}, TreeAt(s, k), false)
  {
    var after := PassStore(p, s, IterAt(s, k));
    assert SameShape(s, after);
    SameShapeIter(s, after, k);
    PassRewrites(p, s, IterAt(s, k), k, false);
  }

  /** What the script does to a context file, or, with cookies, to the server configuration: the passes run one
      after the other on the same tree, and the tree is rewritten by exactly these passes. */
  method MigrateFile(root: Element, server: bool, ghost order: seq<Element>, ghost s: Store, ghost k: nat)
      returns (ghost after: Store)
    requires Stands(order, s) && IsTree(s, k) && root == order[k]
    modifies order
    ensures Stands(order, after) && SameShape(s, after) && Ordered(after)
    ensures TreeAt(after, k) == RunPasses((if server then [Cookie] else []) + [Manager, Url, Jsp], TreeAt(s, k))
  {
    hide Stands;
    after := s;
    ghost var t := TreeAt(s, k);
    var changed;
    if server {
      changed, after := CheckSessionCookieConnector(root, order, s, k);
      PassKeepsTree(Cookie, s, k);
      t := Rewrite({Cookie}, t, false);
    }
    ghost var s1 := after;
    changed, after := CheckSessionManager(root, order, s1, k);
    PassKeepsTree(Manager, s1, k);
    ghost var s2 := after;
    changed, after := CheckUrlRewriting(root, order, s2, k);
    PassKeepsTree(Url, s2, k);
    ghost var s3 := after;
    hide PassStore;
    hide Rewrite;
    hide IterAt;
    changed, after := CheckJspCompiler(root, order, s3, k);
    hide IsTree;
    hide TreeAt;
    RunThree(t);
    RunCookie(TreeAt(s, k));
  }

  lemma RunThree(t: Node)
    ensures RunPasses([Manager, Url, Jsp], t)
            == Rewrite({Jsp}, Rewrite({Url}, Rewrite({Manager}, t, false), false), false)
  {
    hide Rewrite;
    assert [Manager, Url, Jsp][1..] == [Url, Jsp] && [Url, Jsp][1..] == [Jsp] && [Jsp][1..] == [];
    var t1 := Rewrite({Manager}, t, false);
    var t2 := Rewrite({Url}, t1, false);
    assert RunPasses([Jsp], t2) == Rewrite({Jsp}, t2, false);
    assert RunPasses([Url, Jsp], t1) == RunPasses([Jsp], t2);
  }

  lemma RunCookie(t: Node)
    ensures RunPasses([Cookie] + [Manager, Url, Jsp], t) == RunPasses([Manager, Url, Jsp], Rewrite({Cookie}, t, false))
    ensures RunPasses([] + [Manager, Url, Jsp], t) == RunPasses([Manager, Url, Jsp], t)
  {
    hide Rewrite;
    assert ([Cookie] + [Manager, Url, Jsp])[1..] == [Manager, Url, Jsp];
    assert [] + [Manager, Url, Jsp] == [Manager, Url, Jsp];
  }

  lemma {:induction false} IterFrom(s: Store, k: nat, x: nat)
    requires Ordered(s) && k < |s| && x in IterAt(s, k)
    ensures k <= x < |s|
    decreases |s| - k
  {
    if x != k {
      KidsFind(s, k, 0, x);
      var j :| 0 <= j < |s[k].children| && x in IterAt(s, s[k].children[j]);
      IterFrom(s, s[k].children[j], x);
    }
  }

  /** An element below another one is a child of one that is below or is that one. */
  lemma {:induction false} HasParent(s: Store, k: nat, x: nat) returns (p: nat, m: nat)
    requires Ordered(s) && k < |s| && x in IterAt(s, k) && x != k
    ensures p < x && p < |s| && p in IterAt(s, k) && m < |s[p].children| && s[p].children[m] == x
    decreases |s| - k
  {
    KidsFind(s, k, 0, x);
    var j :| 0 <= j < |s[k].children| && x in IterAt(s, s[k].children[j]);
    if x == s[k].children[j] {
      p, m := k, j;
    } else {
      p, m := HasParent(s, s[k].children[j], x);
      ChildIter(s, k, j);
    }
  }

  /** Of two elements above the same one, one is above the other. */
  lemma {:induction false} Chain(s: Store, a: nat, b: nat, x: nat)
    requires Ordered(s) && Unshared(s) && a < |s| && b < |s| && x in IterAt(s, a) && x in IterAt(s, b)
    ensures a in IterAt(s, b) || b in IterAt(s, a)
    decreases x
  {
    if x != a && x != b {
      var p, m := HasParent(s, a, x);
      var q, n := HasParent(s, b, x);
      assert p == q;
      Chain(s, a, b, p);
    }
  }

  /** Without sharing, different children have different descendants. */
  lemma ChildrenApart(s: Store, k: nat, i: nat, j: nat, x: nat)
    requires Ordered(s) && Unshared(s) && k < |s| && i < j < |s[k].children|
    requires x in IterAt(s, s[k].children[i])
    ensures x !in IterAt(s, s[k].children[j])
  {
    var a, b := s[k].children[i], s[k].children[j];
    if x in IterAt(s, b) {
      Chain(s, a, b, x);
      NotBelowSibling(s, k, i, j);
      NotBelowSibling(s, k, j, i);
    }
  }

  lemma NotBelowSibling(s: Store, k: nat, i: nat, j: nat)
    requires Ordered(s) && Unshared(s) && k < |s| && i < |s[k].children| && j < |s[k].children| && i != j
    ensures s[k].children[i] !in IterAt(s, s[k].children[j])
  {
    var a, b := s[k].children[i], s[k].children[j];
    if a in IterAt(s, b) {
      var p, m := HasParent(s, b, a);
      IterFrom(s, b, p);
    }
  }

  lemma {:induction false} UnsharedIsTree(s: Store, k: nat)
    requires Ordered(s) && Unshared(s) && k < |s|
    ensures NoDuplicates(IterAt(s, k))
    decreases |s| - k, |s[k].children| + 1
  {
    UnsharedKids(s, k, 0);
    forall x <- IterKids(s, k, 0)
      ensures x != k
    {
      KidsFind(s, k, 0, x);
      var j :| 0 <= j < |s[k].children| && x in IterAt(s, s[k].children[j]);
      IterFrom(s, s[k].children[j], x);
    }
    JoinDistinct([k], IterKids(s, k, 0));
  }

  lemma {:induction false} UnsharedKids(s: Store, k: nat, i: nat)
    requires Ordered(s) && Unshared(s) && k < |s| && i <= |s[k].children|
    ensures NoDuplicates(IterKids(s, k, i))
    decreases |s| - k, |s[k].children| - i
  {
    if i < |s[k].children| {
      var c := s[k].children[i];
      UnsharedIsTree(s, c);
      UnsharedKids(s, k, i + 1);
      forall x <- IterAt(s, c)
        ensures x !in IterKids(s, k, i + 1)
      {
        if x in IterKids(s, k, i + 1) {
          KidsFind(s, k, i + 1, x);
          var j :| i + 1 <= j < |s[k].children| && x in IterAt(s, s[k].children[j]);
          ChildrenApart(s, k, i, j, x);
        }
      }
      JoinDistinct(IterAt(s, c), IterKids(s, k, i + 1));
    }
  }

  lemma JoinDistinct(a: seq<nat>, b: seq<nat>)
    requires NoDuplicates(a) && NoDuplicates(b) && forall x <- a :: x !in b
    ensures NoDuplicates(a + b)
  {
    var c := a + b;
    assert forall i :: 0 <= i < |a| ==> c[i] == a[i];
    assert forall i :: |a| <= i < |c| ==> c[i] == b[i - |a|] && c[i] in b;
  }

  /** What parse yields is a tree, whatever it is given, so the passes apply to it. */
  lemma ParsedIsTree(calls: seq<Call>)
    requires Parsing.Parse(calls).Success?
    ensures var r := Parsing.Parse(calls).value; IsTree(r.store, r.root)
  {
    Parsing.ParseIs(calls);
    hide Parsing.Parse;
    RunKeepsInv(FRESH, calls);
    RunKeepsUnshared(FRESH, calls);
    var b := Run(FRESH, calls).state;
    hide Run;
    UnsharedIsTree(b.store, b.last.value);
    hide Unshared;
    hide Closed;
  }
}
