/** NoisyElementTree.parse: the root, and the comments that stand before it. */
module Parsing {
  import opened Basics
  import opened Elements
  import opened Builder
  import opened Chunks

  datatype ParseError = Build(error: Error) | MissingEndTags | MissingToplevel

  /** The elements are in the store; root and prior are indices. */
  datatype Parsed = Parsed(store: Store, root: nat, prior: seq<nat>)

  /** The elements of xs that are not in ys. */
  function Without(xs: seq<nat>, ys: seq<nat>): seq<nat> {
    if xs == [] then [] else (if xs[0] in ys then [] else [xs[0]]) + Without(xs[1..], ys)
  }

  /** Feeding the calls, closing, and sorting out the elements that the root does not reach. */
  function Parse(calls: seq<Call>): Result<Parsed, ParseError> {
    var o := Run(FRESH, calls);
    RunKeepsInv(FRESH, calls);
    if o.error.Some? then Failure(Build(o.error.value)) else Finished(o.state, Closed(FRESH, calls))
  }

  /** What parse makes of the final state of the builder and the list of the elements closed. */
  function Finished(b: State, closed: seq<nat>): Result<Parsed, ParseError>
    requires InStore(b) && Ordered(b.store)
  {
    if b.stack != [] then Failure(MissingEndTags)
    else if b.last.None? then Failure(MissingToplevel)
    else Success(Parsed(b.store, b.last.value, Without(closed, IterAt(b.store, b.last.value))))
  }

  lemma ParseIs(calls: seq<Call>)
    ensures var o := Run(FRESH, calls);
      if o.error.Some? then Parse(calls) == Failure(Build(o.error.value))
      else Ordered(o.state.store) && Parse(calls) == Finished(o.state, Closed(FRESH, calls))
  {
    hide Run;
    hide Closed;
    RunKeepsInv(FRESH, calls);
  }

  /** When parse fails, and how, for every run of calls: at the first fault of the nesting, at the end if elements
      are left open, or if there has been no element at all. */
  lemma ParseFailsIff(calls: seq<Call>)
    ensures var tags := Match([], calls);
      if tags.Failure? then Parse(calls) == Failure(Build(tags.error))
      else if tags.value != [] then Parse(calls) == Failure(MissingEndTags)
      else if forall c <- calls :: !c.Start? then Parse(calls) == Failure(MissingToplevel)
      else Parse(calls).Success?
  {
    ParseIs(calls);
    RunMatches(FRESH, calls);
    assert OpenTags(FRESH) == [];
    if Run(FRESH, calls).error.None? {
      RunHasLast(FRESH, calls);
    }
    hide Parse;
    hide Run;
    hide Closed;
    hide Match;
    hide Ordered;
    hide IterAt;
  }

  // ---------------------------------------------------------------------------
  // Runs at the top level
  // ---------------------------------------------------------------------------

  function CommentNode(text: string): Node {
    Node(Comment, map[], Some(text), [], None)
  }

  function CommentCalls(texts: seq<string>): seq<Call> {
    if texts == [] then [] else Calls(CommentNode(texts[0])) + CommentCalls(texts[1..])
  }

  function CommentRec(text: string): Rec {
    Rec(Comment, map[], Some(text), None, [])
  }

  function CommentRecs(texts: seq<string>): Store {
    seq(|texts|, i requires 0 <= i < |texts| => CommentRec(texts[i]))
  }

  /** Between two top-level elements. */
  ghost predicate AtTop(b: State) {
    Inv(b) && b.stack == [] && b.data == []
  }

  lemma CommentNodeCalls(text: string)
    ensures Calls(CommentNode(text)) == [Start(Comment, map[]), Data(text), End(Comment)]
  {
  }

  /** The state after a comment has been opened, given its text, and closed. */
  function CommentOpen(b: State): State {
    State(b.store + [Rec(Comment, map[], None, None, [])], [], [|b.store|], Some(|b.store|), false)
  }

  function CommentDone(b: State, text: string): State {
    State(b.store + [CommentRec(text)], [], [], Some(|b.store|), true)
  }

  lemma OpenComment(b: State)
    requires InStore(b) && b.stack == [] && b.data == []
    ensures Step(b, Start(Comment, map[])) == Outcome(CommentOpen(b), None)
  {
    assert [] + [|b.store|] == [|b.store|];
  }

  lemma FinishComment(b: State, text: string)
    ensures Step(CommentOpen(b).(data := [text]), End(Comment)) == Outcome(CommentDone(b, text), None)
  {
    JoinOne(text);
    assert CommentOpen(b).store[|b.store| := CommentRec(text)] == CommentDone(b, text).store;
  }

  lemma OneComment(b: State, text: string)
    requires InStore(b) && b.stack == [] && b.data == []
    ensures Run(b, Calls(CommentNode(text))) == Outcome(CommentDone(b, text), None)
    ensures Closed(b, Calls(CommentNode(text))) == [|b.store|]
  {
    var b2 := CommentOpen(b).(data := [text]);
    OpenComment(b);
    assert Step(CommentOpen(b), Data(text)) == Outcome(b2, None) by {
      assert [] + [text] == [text];
    }
    FinishComment(b, text);
    CommentNodeCalls(text);
    hide Calls;
    hide Step;
    ThreeSteps(b, [Start(Comment, map[]), Data(text), End(Comment)], CommentOpen(b), b2, CommentDone(b, text));
  }

  lemma ThreeSteps(b: State, calls: seq<Call>, b1: State, b2: State, b3: State)
    requires InStore(b) && InStore(b1) && InStore(b2) && InStore(b3)
    requires |calls| == 3 && !calls[0].End? && !calls[1].End? && calls[2].End? && b3.last.Some?
    requires Step(b, calls[0]) == Outcome(b1, None)
    requires Step(b1, calls[1]) == Outcome(b2, None)
    requires Step(b2, calls[2]) == Outcome(b3, None)
    ensures Run(b, calls) == Outcome(b3, None) && Closed(b, calls) == [b3.last.value]
  {
    hide Step;
    var c1, c2 := calls[1..], calls[2..];
    assert c1[1..] == c2 && c2[1..] == [];
    assert Run(b2, c2) == Outcome(b3, None);
    assert Closed(b3, []) == [];
    assert Closed(b2, c2) == [b3.last.value];
  }

  /** The state after some comments. */
  function CommentsDone(b: State, texts: seq<string>): State {
    if texts == [] then b
    else State(b.store + CommentRecs(texts), [], [], Some(|b.store| + |texts| - 1), true)
  }

  lemma CommentsDoneNext(b: State, texts: seq<string>)
    requires texts != []
    ensures CommentsDone(CommentDone(b, texts[0]), texts[1..]) == CommentsDone(b, texts)
  {
    assert CommentRecs(texts) == [CommentRec(texts[0])] + CommentRecs(texts[1..]);
    Assoc(b.store, [CommentRec(texts[0])], CommentRecs(texts[1..]));
  }

  lemma {:induction false} CommentsRun(b: State, texts: seq<string>)
    requires InStore(b) && b.stack == [] && b.data == []
    ensures Run(b, CommentCalls(texts)) == Outcome(CommentsDone(b, texts), None)
    ensures Closed(b, CommentCalls(texts)) == Range(|b.store|, |b.store| + |texts|)
    decreases texts
  {
    if texts != [] {
      OneComment(b, texts[0]);
      CommentsDoneNext(b, texts);
      CommentsRun(CommentDone(b, texts[0]), texts[1..]);
      RangeCons(|b.store|, |b.store| + |texts|);
      hide Run;
      hide Closed;
      hide Calls;
      hide CommentsDone;
      RunAppend(b, Calls(CommentNode(texts[0])), CommentCalls(texts[1..]));
    }
  }

  /** Comments leave the machine at the top level. */
  lemma CommentsAtTop(b: State, texts: seq<string>)
    requires AtTop(b)
    ensures AtTop(CommentsDone(b, texts))
  {
    CommentsRun(b, texts);
    RunKeepsInv(b, CommentCalls(texts));
  }

  /** One element at the top level. */
  lemma TopNode(b: State, t: Node)
    requires AtTop(b)
    ensures var o := Run(b, Calls(t));
      var k := |b.store|;
      && o.error.None? && AtTop(o.state) && o.state.last == Some(k) && k < |o.state.store|
      && o.state.store[..k] == b.store
      && TreeAt(o.state.store, k) == t.(tail := None)
      && IterAt(o.state.store, k) == Range(k, |o.state.store|)
      && Fills(Closed(b, Calls(t)), k, |o.state.store|)
  {
    BuildNode(b, t);
    NodeCloses(b, t);
  }

  lemma {:induction false} WithoutAppend(xs: seq<nat>, xs': seq<nat>, ys: seq<nat>)
    ensures Without(xs + xs', ys) == Without(xs, ys) + Without(xs', ys)
  {
    if xs == [] {
      assert xs + xs' == xs';
    } else {
      assert (xs + xs')[1..] == xs[1..] + xs';
      WithoutAppend(xs[1..], xs', ys);
    }
  }

  lemma {:induction false} WithoutNone(xs: seq<nat>, ys: seq<nat>)
    requires forall i :: 0 <= i < |xs| ==> xs[i] !in ys
    ensures Without(xs, ys) == xs
  {
    if xs != [] {
      WithoutNone(xs[1..], ys);
    }
  }

  lemma {:induction false} WithoutAll(xs: seq<nat>, ys: seq<nat>)
    requires forall i :: 0 <= i < |xs| ==> xs[i] in ys
    ensures Without(xs, ys) == []
  {
    if xs != [] {
      WithoutAll(xs[1..], ys);
    }
  }

  // ---------------------------------------------------------------------------
  // Documents
  // ---------------------------------------------------------------------------

  /** Comments, one document element, and more comments. */
  function DocumentCalls(before: seq<string>, t: Node, after: seq<string>): seq<Call> {
    CommentCalls(before) + Calls(t) + CommentCalls(after)
  }

  lemma FreshAtTop()
    ensures AtTop(FRESH)
  {
  }

  /** The state after the comments before the root and the document element. */
  lemma RunToRoot(before: seq<string>, t: Node)
    ensures var calls := CommentCalls(before) + Calls(t);
      var o := Run(FRESH, calls);
      var m := |before|;
      && o.error.None? && AtTop(o.state) && o.state.last == Some(m) && m < |o.state.store|
      && o.state.store[..m] == CommentRecs(before)
      && TreeAt(o.state.store, m) == t.(tail := None)
      && IterAt(o.state.store, m) == Range(m, |o.state.store|)
      && Closed(FRESH, calls) == Range(0, m) + Closed(Run(FRESH, CommentCalls(before)).state, Calls(t))
      && Fills(Closed(Run(FRESH, CommentCalls(before)).state, Calls(t)), m, |o.state.store|)
  {
    FreshAtTop();
    CommentsRun(FRESH, before);
    CommentsAtTop(FRESH, before);
    var b := CommentsDone(FRESH, before);
    assert b.store == CommentRecs(before);
    TopNode(b, t);
    hide AtTop;
    RunAppend(FRESH, CommentCalls(before), Calls(t));
  }

  /** For every document without a comment after its root, parse returns the document element, and the comments
      before the root are exactly the elements collected that the root does not reach: all of them, once each,
      in document order. */
  lemma ParseDocument(before: seq<string>, t: Node)
    ensures var r := Parse(CommentCalls(before) + Calls(t));
      && r.Success? && Ordered(r.value.store) && |before| < |r.value.store|
      && r.value.root == |before| && TreeAt(r.value.store, r.value.root) == t.(tail := None)
      && r.value.prior == Range(0, |before|)
      && r.value.store[..|before|] == CommentRecs(before)
      && IterAt(r.value.store, r.value.root) == Range(|before|, |r.value.store|)
  {
    RunToRoot(before, t);
    var calls := CommentCalls(before) + Calls(t);
    var s := Run(FRESH, calls).state.store;
    var m := |before|;
    var closed := Closed(Run(FRESH, CommentCalls(before)).state, Calls(t));
    WithoutAppend(Range(0, m), closed, Range(m, |s|));
    WithoutNone(Range(0, m), Range(m, |s|));
    forall i | 0 <= i < |closed|
      ensures closed[i] in Range(m, |s|)
    {
      assert Range(m, |s|)[closed[i] - m] == closed[i];
    }
    WithoutAll(closed, Range(m, |s|));
  }

  /** Sorting out the last element from a list that fills an interval. */
  lemma WithoutLast(closed: seq<nat>, n: nat, n': nat)
    requires Fills(closed, 0, n) && n < n'
    ensures Fills(Without(closed + Range(n, n'), [n' - 1]), 0, n' - 1)
  {
    WithoutAppend(closed, Range(n, n'), [n' - 1]);
    WithoutNone(closed, [n' - 1]);
    RangeAppend(n, n' - 1, n');
    WithoutAppend(Range(n, n' - 1), Range(n' - 1, n'), [n' - 1]);
    WithoutNone(Range(n, n' - 1), [n' - 1]);
    WithoutAll(Range(n' - 1, n'), [n' - 1]);
    FillsAppend(closed, Range(n, n' - 1), 0, n, n' - 1);
  }

  /** The elements closed up to the end tag of the document element. */
  lemma ClosedToRoot(before: seq<string>, t: Node)
    ensures var calls := CommentCalls(before) + Calls(t);
      && Run(FRESH, calls).error.None? && AtTop(Run(FRESH, calls).state)
      && |before| < |Run(FRESH, calls).state.store|
      && Fills(Closed(FRESH, calls), 0, |Run(FRESH, calls).state.store|)
  {
    RunToRoot(before, t);
    var b := Run(FRESH, CommentCalls(before) + Calls(t)).state;
    hide *;
    FillsOfRange(|before|);
    FillsAppend(Range(0, |before|), Closed(Run(FRESH, CommentCalls(before)).state, Calls(t)), 0, |before|, |b.store|);
  }

  lemma FillsOfRange(n: nat)
    ensures Fills(Range(0, n), 0, n)
  {
  }

  /** A run over a whole document with comments after the root. */
  lemma RunToEnd(before: seq<string>, t: Node, after: seq<string>)
    requires after != []
    ensures var calls := DocumentCalls(before, t, after);
      var o := Run(FRESH, calls);
      var n := |Run(FRESH, CommentCalls(before) + Calls(t)).state.store|;
      && o.error.None? && AtTop(o.state) && o.state.last == Some(|o.state.store| - 1)
      && |before| < n && n + |after| == |o.state.store|
      && o.state.store[|o.state.store| - 1] == CommentRec(after[|after| - 1])
      && Fills(Closed(FRESH, CommentCalls(before) + Calls(t)), 0, n)
      && Closed(FRESH, calls) == Closed(FRESH, CommentCalls(before) + Calls(t)) + Range(n, n + |after|)
  {
    hide AtTop;
    hide Run;
    hide Closed;
    hide Fills;
    ClosedToRoot(before, t);
    var calls := CommentCalls(before) + Calls(t);
    var b := Run(FRESH, calls).state;
    CommentsFollow(b, after);
    RunAppend(FRESH, calls, CommentCalls(after));
  }

  lemma CommentsFollow(b: State, texts: seq<string>)
    requires AtTop(b) && texts != []
    ensures var o := Run(b, CommentCalls(texts));
      && o.error.None? && AtTop(o.state) && o.state.last == Some(|o.state.store| - 1)
      && |o.state.store| == |b.store| + |texts|
      && o.state.store[|o.state.store| - 1] == CommentRec(texts[|texts| - 1])
      && Closed(b, CommentCalls(texts)) == Range(|b.store|, |b.store| + |texts|)
  {
    CommentsRun(b, texts);
    CommentsAtTop(b, texts);
    hide AtTop;
    var s := b.store + CommentRecs(texts);
    assert s[|s| - 1] == CommentRecs(texts)[|texts| - 1];
  }

  /** A document with a trailing comment: the last element closed is that comment, and all others come before it. */
  lemma EndsWithLeaf(before: seq<string>, t: Node, after: seq<string>)
    requires after != []
    ensures var calls := DocumentCalls(before, t, after);
      var o := Run(FRESH, calls);
      var k := |o.state.store| - 1;
      && o.error.None? && o.state.stack == [] && o.state.last == Some(k) && |before| < k
      && Ordered(o.state.store) && o.state.store[k] == CommentRec(after[|after| - 1])
      && Fills(Without(Closed(FRESH, calls), [k]), 0, k)
  {
    hide Run;
    hide Closed;
    hide Fills;
    hide Without;
    hide DocumentCalls;
    RunToEnd(before, t, after);
    var s := Run(FRESH, DocumentCalls(before, t, after)).state.store;
    var n := |Run(FRESH, CommentCalls(before) + Calls(t)).state.store|;
    WithoutLast(Closed(FRESH, CommentCalls(before) + Calls(t)), n, |s|);
    assert n + |after| == |s|;
    AtTopIs(Run(FRESH, DocumentCalls(before, t, after)).state);
    hide AtTop;
    hide Ordered;
  }

  lemma AtTopIs(b: State)
    requires AtTop(b)
    ensures b.stack == [] && Ordered(b.store)
  {
  }

  lemma LoneLeaf(s: Store, k: nat, text: string)
    requires Ordered(s) && k < |s| && s[k] == CommentRec(text)
    ensures TreeAt(s, k) == CommentNode(text) && IterAt(s, k) == [k]
  {
    assert TreeAt(s, k).children == [];
  }

  /** What parse returns for calls that end outside of every element. */
  lemma ParseAtTop(calls: seq<Call>, k: nat, ks: seq<nat>)
    requires var o := Run(FRESH, calls);
      && o.error.None? && o.state.stack == [] && o.state.last == Some(k)
      && k < |o.state.store| && Ordered(o.state.store) && IterAt(o.state.store, k) == ks
    ensures Parse(calls) == Success(Parsed(Run(FRESH, calls).state.store, k, Without(Closed(FRESH, calls), ks)))
  {
    hide Run;
    hide Closed;
    hide IterAt;
    hide Without;
  }

  /** With comments after the root as well, parse returns the last of them, and sets aside every other element,
      the document element included: close returns the element that was closed last. */
  lemma ParseTrailing(before: seq<string>, t: Node, after: seq<string>)
    requires after != []
    ensures var r := Parse(DocumentCalls(before, t, after));
      && r.Success? && Ordered(r.value.store)
      && r.value.root + 1 == |r.value.store|
      && TreeAt(r.value.store, r.value.root) == CommentNode(after[|after| - 1])
      && Fills(r.value.prior, 0, r.value.root)
      && |before| in r.value.prior
  {
    hide Run;
    hide Closed;
    hide Fills;
    hide Without;
    var calls := DocumentCalls(before, t, after);
    EndsWithLeaf(before, t, after);
    var s := Run(FRESH, calls).state.store;
    var k := |s| - 1;
    LoneLeaf(s, k, after[|after| - 1]);
    ParseAtTop(calls, k, [k]);
    hide Parse;
    hide TreeAt;
    hide IterAt;
    hide DocumentCalls;
    FillsHasAll(Parse(calls).value.prior, 0, k, |before|);
  }

  /** A list that fills an interval without repetition has every number of it. */
  lemma FillsHasAll(l: seq<nat>, lo: nat, hi: nat, k: nat)
    requires Fills(l, lo, hi) && lo <= k < hi
    ensures k in l
  {
    var r := Range(lo, hi);
    DistinctCount(l);
    DistinctCount(r);
    var s, all := Members(l), Members(r);
    assert s <= all by {
      forall x <- l
        ensures x in all
      {
        assert r[x - lo] == x;
      }
    }
    assert all == s + (all - s);
    assert all - s == {};
    assert r[k - lo] == k && k in all;
  }

  lemma FillsIsPermutation(l: seq<nat>, lo: nat, hi: nat)
    requires Fills(l, lo, hi)
    ensures multiset(l) == multiset(Range(lo, hi))
  {
    var r := Range(lo, hi);
    forall x: nat
      ensures multiset(l)[x] == multiset(r)[x]
    {
      CountIsOne(l, x);
      CountIsOne(r, x);
      if lo <= x < hi {
        FillsHasAll(l, lo, hi, x);
        assert r[x - lo] == x;
      }
    }
  }

  lemma {:induction false} CountIsOne(l: seq<nat>, x: nat)
    requires NoDuplicates(l)
    ensures multiset(l)[x] == if x in l then 1 else 0
  {
    if l != [] {
      var n := |l| - 1;
      CountIsOne(l[..n], x);
      assert l == l[..n] + [l[n]];
      assert multiset(l) == multiset(l[..n]) + multiset{l[n]};
    }
  }

  /** Conservation: the elements collected while parsing are the comments set aside and the elements that the
      root reaches, none lost and none repeated. */
  lemma CommentsConserved(before: seq<string>, t: Node)
    ensures var calls := CommentCalls(before) + Calls(t);
      var r := Parse(calls);
      && r.Success? && Ordered(r.value.store) && r.value.root < |r.value.store|
      && multiset(Closed(FRESH, calls)) == multiset(r.value.prior) + multiset(IterAt(r.value.store, r.value.root))
      && NoDuplicates(Closed(FRESH, calls))
  {
    ParseDocument(before, t);
    RunToRoot(before, t);
    var calls := CommentCalls(before) + Calls(t);
    var m, n := |before|, |Run(FRESH, calls).state.store|;
    var first := Closed(Run(FRESH, CommentCalls(before)).state, Calls(t));
    hide Parse;
    FillsAppend(Range(0, m), first, 0, m, n);
    FillsIsPermutation(first, m, n);
    assert multiset(Range(0, m) + first) == multiset(Range(0, m)) + multiset(first);
  }

  /** parse returns the document element exactly when no comment follows it. */
  lemma ParseReturnsRoot(before: seq<string>, t: Node, after: seq<string>)
    requires t.tag.Name?
    ensures var r := Parse(DocumentCalls(before, t, after));
      && r.Success? && Ordered(r.value.store) && r.value.root < |r.value.store|
      && (TreeAt(r.value.store, r.value.root) == t.(tail := None) <==> after == [])
  {
    if after == [] {
      assert DocumentCalls(before, t, after) == CommentCalls(before) + Calls(t);
      ParseDocument(before, t);
    } else {
      ParseTrailing(before, t, after);
    }
  }

  /** parse gives the same result, the same error included, however the character data was cut into pieces. */
  lemma ParseIgnoresCuts(xs: seq<Call>, ys: seq<Call>)
    requires Coalesce(xs) == Coalesce(ys)
    ensures Parse(xs) == Parse(ys)
  {
    RunCoalesced(FRESH, xs);
    RunCoalesced(FRESH, ys);
    ParseIs(xs);
    ParseIs(ys);
    hide Parse;
    hide Run;
    hide Closed;
    hide Coalesce;
    hide Ordered;
    hide Without;
    hide IterAt;
  }
}
