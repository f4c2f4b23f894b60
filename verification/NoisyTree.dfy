/** The comment-keeping parser and the tree with comments before its root, as objects. */
module NoisyTree {
  import opened Basics
  import opened Elements
  import opened Reader
  import opened FrontEnd
  import opened Builder
  import opened Parsing
  import opened TreeBuilders

  // ---------------------------------------------------------------------------
  // Objects for indices
  // ---------------------------------------------------------------------------

  ghost predicate Below(ks: seq<nat>, n: nat) {
    forall i :: 0 <= i < |ks| ==> ks[i] < n
  }

  /** The elements that stand for some indices. */
  ghost function Objects(order: seq<Element>, ks: seq<nat>): seq<Element>
    requires Below(ks, |order|)
  {
    seq(|ks|, i requires 0 <= i < |ks| => order[ks[i]])
  }

  lemma ObjectsAppend(order: seq<Element>, a: seq<nat>, b: seq<nat>)
    requires Below(a, |order|) && Below(b, |order|)
    ensures Below(a + b, |order|) && Objects(order, a + b) == Objects(order, a) + Objects(order, b)
  {
  }

  lemma ObjectsGrow(order: seq<Element>, more: seq<Element>, ks: seq<nat>)
    requires Below(ks, |order|) && order <= more
    ensures Below(ks, |more|) && Objects(more, ks) == Objects(order, ks)
  {
  }

  lemma ObjectsHas(order: seq<Element>, ks: seq<nat>, k: nat)
    requires NoDuplicates(order) && Below(ks, |order|) && k < |order|
    ensures order[k] in Objects(order, ks) <==> k in ks
  {
    var es := Objects(order, ks);
    if k in ks {
      var j :| 0 <= j < |ks| && ks[j] == k;
      assert es[j] == order[k];
    }
    if order[k] in es {
      var j :| 0 <= j < |es| && es[j] == order[k];
      assert order[ks[j]] == order[k];
    }
  }

  lemma StandsDistinct(order: seq<Element>, store: Store)
    requires Stands(order, store)
    ensures NoDuplicates(order) && |order| == |store|
  {
  }

  lemma {:induction false} IterBelow(s: Store, k: nat)
    requires Ordered(s) && k < |s|
    ensures Below(IterAt(s, k), |s|)
    decreases |s| - k, |s[k].children| + 1
  {
    KidsBelow(s, k, 0);
  }

  lemma {:induction false} KidsBelow(s: Store, k: nat, i: nat)
    requires Ordered(s) && k < |s| && i <= |s[k].children|
    ensures Below(IterKids(s, k, i), |s|)
    decreases |s| - k, |s[k].children| - i
  {
    if i < |s[k].children| {
      IterBelow(s, s[k].children[i]);
      KidsBelow(s, k, i + 1);
    }
  }

  /** Element.iter without a tag: the element and everything below it, in document order. */
  method IterElements(e: Element, ghost order: seq<Element>, ghost store: Store, ghost k: nat) returns (r: seq<Element>)
    requires Stands(order, store) && Ordered(store) && k < |store| && e == order[k]
    ensures Below(IterAt(store, k), |order|) && r == Objects(order, IterAt(store, k))
    decreases |store| - k
  {
    r := [e];
    IterBelow(store, k);
    KidsBelow(store, k, 0);
    var n := |e.children|;
    ghost var done: seq<nat> := [k];
    assert Mirrors(order, e, store[k]);
    hide NoDuplicates;
    for i := 0 to n
      invariant Mirrors(order, e, store[k])
      invariant Below(done, |order|) && r == Objects(order, done)
      invariant done + IterKids(store, k, i) == IterAt(store, k)
    {
      ghost var c := store[k].children[i];
      var more := IterElements(e.children[i], order, store, c);
      ObjectsAppend(order, done, IterAt(store, c));
      Assoc(done, IterAt(store, c), IterKids(store, k, i + 1));
      r, done := r + more, done + IterAt(store, c);
    }
    assert done == IterAt(store, k);
  }

  // ---------------------------------------------------------------------------
  // CommentTreeBuilder
  // ---------------------------------------------------------------------------

  class CommentTreeBuilder {
    var target: TreeBuilder
    var names: map<string, string>
    var commentElemList: seq<Element>
    ghost var closed: seq<nat>

    ghost predicate Valid()
      reads this, target, target.order
    {
      && target.Valid()
      && (forall k <- names :: names[k] == FixName(k))
      && Below(closed, |target.order|)
      && commentElemList == Objects(target.order, closed)
    }

    constructor (target: TreeBuilder)
      requires target.Valid()
      ensures Valid() && this.target == target && closed == []
    {
      this.target := target;
      names, commentElemList, closed := map[], [], [];
    }

    /** _fixname with its memo. */
    method FixNameMemo(key: string) returns (name: string)
      requires forall k <- names :: names[k] == FixName(k)
      modifies `names
      ensures name == FixName(key)
      ensures forall k <- names :: names[k] == FixName(k)
    {
      if key in names {
        return names[key];
      }
      name := key;
      if '}' in name {
        name := "{" + name;
      }
      names := names[key := name];
    }

    /** The dictionary of attributes for a start tag, as _start_list fills it. */
    method FillAttribs(attribs: seq<(string, string)>) returns (attrib: map<string, string>)
      requires forall k <- names :: names[k] == FixName(k)
      modifies `names
      ensures attrib == AttribMap(attribs)
      ensures forall k <- names :: names[k] == FixName(k)
    {
      attrib := map[];
      for i := 0 to |attribs|
        invariant forall k <- names :: names[k] == FixName(k)
        invariant attrib == AttribMap(attribs[..i])
      {
        var name := FixNameMemo(attribs[i].0);
        assert attribs[..i + 1][..i] == attribs[..i];
        attrib := attrib[name := attribs[i].1];
      }
      assert attribs[..|attribs|] == attribs;
    }

    /** The end handler: the closed element is collected. */
    method CloseElement(tag: Tag) returns (error: Option<Error>)
      requires Valid()
      modifies this, target, target.order
      ensures Valid() && target == old(target) && target.order == old(target.order)
      ensures target.model == Run(old(target.model), [End(tag)]).state
      ensures error == Run(old(target.model), [End(tag)]).error
      ensures closed == old(closed) + Closed(old(target.model), [End(tag)])
    {
      RunOne(target.model, End(tag));
      hide Run;
      hide Closed;
      hide Stands;
      var e;
      e, error := target.EndElement(tag);
      if error.None? {
        ghost var k := target.model.last.value;
        ObjectsAppend(target.order, closed, [k]);
        commentElemList := commentElemList + [e];
        closed := closed + [k];
      }
    }

    method OpenElement(tag: Tag, attrib: map<string, string>) returns (error: Option<Error>)
      requires Valid()
      modifies this, target, target.order
      ensures Valid() && target == old(target) && old(target.order) <= target.order
      ensures fresh(target.order[|old(target.order)|..])
      ensures target.model == Run(old(target.model), [Start(tag, attrib)]).state
      ensures error == Run(old(target.model), [Start(tag, attrib)]).error
      ensures closed == old(closed) + Closed(old(target.model), [Start(tag, attrib)])
    {
      ghost var calls := [Start(tag, attrib)];
      assert calls[1..] == [];
      ghost var before := target.order;
      var e;
      e, error := target.StartElement(tag, attrib);
      ObjectsGrow(before, target.order, closed);
    }

    method AddData(text: string)
      requires Valid()
      modifies this, target
      ensures Valid() && target == old(target) && target.order == old(target.order)
      ensures target.model == Run(old(target.model), [Data(text)]).state
      ensures closed == old(closed) + Closed(old(target.model), [Data(text)])
    {
      ghost var calls := [Data(text)];
      assert calls[1..] == [];
      target.AddData(text);
    }

    /** handle_comment. */
    method HandleComment(text: string) returns (error: Option<Error>)
      requires Valid()
      modifies this, target, target.order
      ensures Valid() && target == old(target) && old(target.order) <= target.order
      ensures fresh(target.order[|old(target.order)|..])
      ensures target.model == Run(old(target.model), EventCalls(CommentEvent(text))).state
      ensures error == Run(old(target.model), EventCalls(CommentEvent(text))).error
      ensures closed == old(closed) + Closed(old(target.model), EventCalls(CommentEvent(text)))
    {
      ghost var b := target.model;
      ghost var a, c, d := [Start(Comment, map[])], [Data(text)], [End(Comment)];
      ghost var before := closed;
      assert EventCalls(CommentEvent(text)) == a + c + d;
      hide Run;
      hide Closed;
      hide InStore;
      error := OpenElement(Comment, map[]);
      if error.Some? {
        ThreeRuns(b, a, c, d);
        return error;
      }
      ghost var b1 := target.model;
      AddData(text);
      ghost var b2 := target.model;
      error := CloseElement(Comment);
      ThreeRuns(b, a, c, d);
      Assoc(before, Closed(b, a), Closed(b1, c));
      Assoc(before, Closed(b, a) + Closed(b1, c), Closed(b2, d));
    }

    method HandleEvent(e: Event) returns (error: Option<Error>)
      requires Valid()
      modifies this, target, target.order
      ensures Valid() && target == old(target) && old(target.order) <= target.order
      ensures fresh(target.order[|old(target.order)|..])
      ensures target.model == Run(old(target.model), EventCalls(e)).state
      ensures error == Run(old(target.model), EventCalls(e)).error
      ensures closed == old(closed) + Closed(old(target.model), EventCalls(e))
    {
      match e {
        case StartEvent(name, attribs) =>
          var tag := FixNameMemo(name);
          var attrib := FillAttribs(attribs);
          error := OpenElement(Name(tag), attrib);
        case EndEvent(name) =>
          var tag := FixNameMemo(name);
          error := CloseElement(Name(tag));
        case DataEvent(text) =>
          AddData(text);
          error := None;
        case CommentEvent(text) =>
          error := HandleComment(text);
      }
    }

    /** feed: the events are handled in turn until a handler raises an exception. */
    method Feed(es: seq<Event>) returns (error: Option<Error>)
      requires Valid()
      modifies this, target, target.order
      ensures Valid() && target == old(target)
      ensures target.model == Run(old(target.model), AllCalls(es)).state
      ensures error == Run(old(target.model), AllCalls(es)).error
      ensures closed == old(closed) + Closed(old(target.model), AllCalls(es))
    {
      hide Run;
      hide Closed;
      hide EventCalls;
      hide InStore;
      hide Stands;
      hide Objects;
      hide AllCalls;
      ghost var b, before := target.model, closed;
      StartOfRun(b);
      for i := 0 to |es|
        invariant Valid() && target == old(target) && old(target.order) <= target.order
        invariant fresh(target.order[|old(target.order)|..])
        invariant InStore(b) && Run(b, AllCalls(es[..i])) == Outcome(target.model, None)
        invariant closed == before + Closed(b, AllCalls(es[..i]))
      {
        ghost var b1 := target.model;
        assert forall e <- target.order :: e in old(target.order) || e in target.order[|old(target.order)|..];
        NextEvent(b, es, i);
        Assoc(before, Closed(b, AllCalls(es[..i])), Closed(b1, EventCalls(es[i])));
        ghost var mid := target.order;
        error := HandleEvent(es[i]);
        assert target.order[|old(target.order)|..] == mid[|old(target.order)|..] + target.order[|mid|..];
        if error.Some? {
          StoppedAt(b, es, i + 1);
          return;
        }
      }
      assert es[..|es|] == es;
      error := None;
    }
  }

  lemma StartOfRun(b: State)
    requires InStore(b)
    ensures InStore(b) && Run(b, AllCalls([])) == Outcome(b, None) && Closed(b, AllCalls([])) == []
  {
  }

  /** One more event in a run that has raised no exception so far. */
  lemma NextEvent(b: State, es: seq<Event>, i: nat)
    requires InStore(b) && i < |es| && Run(b, AllCalls(es[..i])).error.None?
    ensures var b1 := Run(b, AllCalls(es[..i])).state;
      && Run(b, AllCalls(es[..i + 1])) == Run(b1, EventCalls(es[i]))
      && Closed(b, AllCalls(es[..i + 1])) == Closed(b, AllCalls(es[..i])) + Closed(b1, EventCalls(es[i]))
  {
    hide *;
    assert es[..i + 1] == es[..i] + [es[i]];
    AllCallsAppend(es[..i], [es[i]]);
    AllCallsOne(es[i]);
    RunAppend(b, AllCalls(es[..i]), EventCalls(es[i]));
  }

  /** After an exception nothing more is handled. */
  lemma StoppedAt(b: State, es: seq<Event>, i: nat)
    requires InStore(b) && i <= |es| && Run(b, AllCalls(es[..i])).error.Some?
    ensures Run(b, AllCalls(es)) == Run(b, AllCalls(es[..i])) && Closed(b, AllCalls(es)) == Closed(b, AllCalls(es[..i]))
  {
    hide *;
    assert es == es[..i] + es[i..];
    AllCallsAppend(es[..i], es[i..]);
    RunStops(b, AllCalls(es[..i]), AllCalls(es[i..]));
  }

  lemma {:induction false} RunStops(b: State, xs: seq<Call>, ys: seq<Call>)
    requires InStore(b) && Run(b, xs).error.Some?
    ensures Run(b, xs + ys) == Run(b, xs) && Closed(b, xs + ys) == Closed(b, xs)
    decreases xs
  {
    if xs != [] {
      assert (xs + ys)[1..] == xs[1..] + ys;
      if Step(b, xs[0]).error.None? {
        RunStops(Step(b, xs[0]).state, xs[1..], ys);
      }
    }
  }

  lemma ThreeRuns(b: State, xs: seq<Call>, ys: seq<Call>, zs: seq<Call>)
    requires InStore(b)
    ensures Run(b, xs).error.Some? ==> Run(b, xs + ys + zs) == Run(b, xs) && Closed(b, xs + ys + zs) == Closed(b, xs)
    ensures Run(b, xs).error.None? && Run(Run(b, xs).state, ys).error.None? ==>
      var b1 := Run(b, xs).state;
      var b2 := Run(b1, ys).state;
      && Run(b, xs + ys + zs) == Run(b2, zs)
      && Closed(b, xs + ys + zs) == Closed(b, xs) + Closed(b1, ys) + Closed(b2, zs)
  {
    if Run(b, xs).error.Some? {
      RunStops(b, xs, ys);
      RunStops(b, xs + ys, zs);
    } else if Run(Run(b, xs).state, ys).error.None? {
      RunAppend(b, xs, ys);
      RunAppend(b, xs + ys, zs);
    }
  }

  // ---------------------------------------------------------------------------
  // NoisyElementTree
  // ---------------------------------------------------------------------------

  lemma {:induction false} WithoutBelow(xs: seq<nat>, ys: seq<nat>, n: nat)
    requires Below(xs, n)
    ensures Below(Without(xs, ys), n)
  {
    if xs != [] {
      WithoutBelow(xs[1..], ys, n);
    }
  }

  class NoisyElementTree {
    var root: Element?
    var commentsPriorRoot: seq<Element>

    constructor ()
      ensures root == null && commentsPriorRoot == []
    {
      root, commentsPriorRoot := null, [];
    }

    /** The elements that are not among those of inRoot; elements are compared by identity. */
    method Outside(elems: seq<Element>, inRoot: seq<Element>,
                   ghost order: seq<Element>, ghost xs: seq<nat>, ghost ys: seq<nat>)
        returns (r: seq<Element>)
      requires NoDuplicates(order) && Below(xs, |order|) && Below(ys, |order|)
      requires elems == Objects(order, xs) && inRoot == Objects(order, ys)
      ensures Below(Without(xs, ys), |order|) && r == Objects(order, Without(xs, ys))
    {
      r := [];
      ghost var kept: seq<nat> := [];
      WithoutBelow(xs, ys, |order|);
      for i := 0 to |elems|
        invariant Below(kept, |order|) && r == Objects(order, kept)
        invariant kept + Without(xs[i..], ys) == Without(xs, ys)
      {
        assert xs[i..][1..] == xs[i + 1..];
        ObjectsHas(order, ys, xs[i]);
        if elems[i] !in inRoot {
          ObjectsAppend(order, kept, [xs[i]]);
          Assoc(kept, [xs[i]], Without(xs[i + 1..], ys));
          r, kept := r + [elems[i]], kept + [xs[i]];
        }
      }
      assert kept + [] == kept;
    }

    /** parse: the parser is fed the events of the document and closed; then the elements that it has
        collected and that the root does not reach are set aside. */
    method ParseEvents(es: seq<Event>, parser: CommentTreeBuilder) returns (error: Option<ParseError>)
      requires parser.Valid() && parser.target.model == FRESH && parser.closed == []
      modifies this, parser, parser.target, parser.target.order
      ensures parser.Valid() && parser.target == old(parser.target)
      ensures var r := Parse(AllCalls(es));
        if r.Failure? then error == Some(r.error)
        else
          && error == None && parser.target.model.store == r.value.store
          && r.value.root < |parser.target.order| && root == parser.target.order[r.value.root]
          && Below(r.value.prior, |parser.target.order|)
          && commentsPriorRoot == Objects(parser.target.order, r.value.prior)
    {
      hide Stands;
      ghost var calls := AllCalls(es);
      RunKeepsInv(FRESH, calls);
      assert Run(FRESH, calls).error.None? ==> Ordered(Run(FRESH, calls).state.store);
      hide AllCalls;
      hide Run;
      hide Closed;
      hide Inv;
      hide InStore;
      hide IterAt;
      hide Without;
      hide Parse;
      ParseIs(calls);
      var e := parser.Feed(es);
      if e.Some? {
        return Some(Build(e.value));
      }
      assert [] + Closed(FRESH, calls) == Closed(FRESH, calls);
      error := Finish(parser);
    }

    /** The rest of parse, when all events have been delivered: the root, and the comments outside of it. */
    method Finish(parser: CommentTreeBuilder) returns (error: Option<ParseError>)
      requires parser.Valid() && Ordered(parser.target.model.store)
      modifies this
      ensures parser.Valid() && parser.target == old(parser.target)
      ensures var r := Finished(parser.target.model, parser.closed);
        if r.Failure? then error == Some(r.error)
        else
          && error == None && parser.target.model.store == r.value.store
          && r.value.root < |parser.target.order| && root == parser.target.order[r.value.root]
          && Below(r.value.prior, |parser.target.order|)
          && commentsPriorRoot == Objects(parser.target.order, r.value.prior)
    {
      hide Stands;
      hide IterAt;
      hide Without;
      hide Ordered;
      var element, missingEndTags := parser.target.Close();
      if missingEndTags {
        return Some(MissingEndTags);
      }
      if element == null {
        return Some(MissingToplevel);
      }
      root := element;
      ghost var order, store, k := parser.target.order, parser.target.model.store, parser.target.model.last.value;
      StandsDistinct(order, store);
      var inRoot := IterElements(element, order, store, k);
      commentsPriorRoot := Outside(parser.commentElemList, inRoot, order, parser.closed, IterAt(store, k));
      error := None;
    }
  }
}
