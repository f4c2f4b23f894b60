/** The tree builder as a machine on values.

    Elements live in a store; an element's index is the order in which it was created.
    Class TreeBuilders.TreeBuilder is proved to move exactly as this machine does. */
module Builder {
  import opened Basics
  import opened Elements

  /** The fields of one element; children are indices into the store. */
  datatype Rec = Rec(
    tag: Tag,
    attrib: map<string, string>,
    text: Option<string>,
    tail: Option<string>,
    children: seq<nat>)

  type Store = seq<Rec>

  /** data, stack, last and tail are _data, _elem, _last and _tail of the source. */
  datatype State = State(store: Store, data: seq<string>, stack: seq<nat>, last: Option<nat>, tail: bool)

  const FRESH := State([], [], [], None, false)

  /** NoOpenElement is the pop from an empty stack; the two Internal errors are the assertions in _flush. */
  datatype Error = NoOpenElement | EndMismatch | InternalText | InternalTail

  /** The state after a call, and the exception it raised, if any. */
  datatype Outcome = Outcome(state: State, error: Option<Error>)

  /** Indices that occur in a state are indices of its store. */
  predicate InStore(b: State) {
    && (forall i :: 0 <= i < |b.stack| ==> b.stack[i] < |b.store|)
    && (b.last.Some? ==> b.last.value < |b.store|)
  }

  function Flush(b: State): (o: Outcome)
    requires InStore(b)
    ensures InStore(o.state) && |o.state.store| == |b.store|
    ensures o.state.stack == b.stack && o.state.last == b.last && o.state.tail == b.tail
  {
    if b.data == [] then Outcome(b, None)
    else if b.last.None? then Outcome(b.(data := []), None)
    else
      var k := b.last.value;
      if b.tail then
        if b.store[k].tail.Some? then Outcome(b, Some(InternalTail))
        else Outcome(b.(store := b.store[k := b.store[k].(tail := Some(Join(b.data)))], data := []), None)
      else
        if b.store[k].text.Some? then Outcome(b, Some(InternalText))
        else Outcome(b.(store := b.store[k := b.store[k].(text := Some(Join(b.data)))], data := []), None)
  }

  /** Appends k to the children of the element on top of the stack. */
  function Attach(s: Store, stack: seq<nat>, k: nat): (r: Store)
    requires forall i :: 0 <= i < |stack| ==> stack[i] < |s|
    ensures |r| == |s|
  {
    if stack == [] then s
    else
      var top := stack[|stack| - 1];
      s[top := s[top].(children := s[top].children + [k])]
  }

  function DoStart(b: State, tag: Tag, attrib: map<string, string>): (o: Outcome)
    requires InStore(b)
    ensures InStore(o.state)
  {
    var f := Flush(b);
    if f.error.Some? then f
    else
      var k := |b.store|;
      Outcome(State(Attach(f.state.store, b.stack, k) + [Rec(tag, attrib, None, None, [])],
                    f.state.data, b.stack + [k], Some(k), false), None)
  }

  function DoEnd(b: State, tag: Tag): (o: Outcome)
    requires InStore(b)
    ensures InStore(o.state)
  {
    var f := Flush(b);
    if f.error.Some? then f
    else if b.stack == [] then Outcome(f.state, Some(NoOpenElement))
    else
      var k := b.stack[|b.stack| - 1];
      var popped := f.state.(stack := b.stack[..|b.stack| - 1], last := Some(k));
      if popped.store[k].tag != tag then Outcome(popped, Some(EndMismatch))
      else Outcome(popped.(tail := true), None)
  }

  function Step(b: State, c: Call): (o: Outcome)
    requires InStore(b)
    ensures InStore(o.state)
  {
    match c
    case Start(tag, attrib) => DoStart(b, tag, attrib)
    case Data(text) => Outcome(b.(data := b.data + [text]), None)
    case End(tag) => DoEnd(b, tag)
  }

  /** A run of calls; it stops at the first exception. */
  function Run(b: State, calls: seq<Call>): (o: Outcome)
    requires InStore(b)
    ensures InStore(o.state)
    decreases calls
  {
    if calls == [] then Outcome(b, None)
    else
      var o := Step(b, calls[0]);
      if o.error.Some? then o else Run(o.state, calls[1..])
  }

  /** What the successful end calls of a run return, in order: every element as it is closed. */
  function Closed(b: State, calls: seq<Call>): seq<nat>
    requires InStore(b)
    decreases calls
  {
    if calls == [] then []
    else
      var o := Step(b, calls[0]);
      if o.error.Some? then []
      else (if calls[0].End? then [o.state.last.value] else []) + Closed(o.state, calls[1..])
  }

  lemma RunOne(b: State, c: Call)
    requires InStore(b)
    ensures var o := Step(b, c);
      Run(b, [c]) == o && Closed(b, [c]) == if c.End? && o.error.None? then [o.state.last.value] else []
  {
    assert [c][1..] == [];
    assert Closed(Step(b, c).state, []) == [];
    hide Step;
  }

  lemma {:induction false} RunAppend(b: State, xs: seq<Call>, ys: seq<Call>)
    requires InStore(b)
    requires Run(b, xs).error.None?
    ensures Run(b, xs + ys) == Run(Run(b, xs).state, ys)
    ensures Closed(b, xs + ys) == Closed(b, xs) + Closed(Run(b, xs).state, ys)
    decreases xs
  {
    hide Step;
    if xs == [] {
      assert xs + ys == ys;
    } else {
      assert (xs + ys)[1..] == xs[1..] + ys;
      RunAppend(Step(b, xs[0]).state, xs[1..], ys);
    }
  }

  // ---------------------------------------------------------------------------
  // The run invariant
  // ---------------------------------------------------------------------------

  /** Children are created after their parent. */
  ghost predicate Ordered(s: Store) {
    forall i, j :: 0 <= i < |s| && 0 <= j < |s[i].children| ==> i < s[i].children[j] < |s|
  }

  /** The pair (last, tail) names the one slot that is not filled yet. */
  ghost predicate SlotFree(b: State)
    requires InStore(b)
  {
    b.last.Some? ==>
      if b.tail then b.store[b.last.value].tail.None? else b.store[b.last.value].text.None?
  }

  ghost predicate Increasing(s: seq<nat>) {
    forall i, j :: 0 <= i < j < |s| ==> s[i] < s[j]
  }

  ghost predicate Inv(b: State) {
    && InStore(b)
    && Ordered(b.store)
    && SlotFree(b)
    && Increasing(b.stack)
    && (forall i :: 0 <= i < |b.stack| ==> b.store[b.stack[i]].tail.None?)
    && (b.last.None? ==> b.stack == [] && b.store == [] && !b.tail)
    && (b.last.Some? && !b.tail ==> b.stack != [] && b.last.value == b.stack[|b.stack| - 1])
    && (b.last.Some? && !b.tail ==> b.store[b.last.value].children == [])
    && (b.tail ==> b.last.Some? && forall i :: 0 <= i < |b.stack| ==> b.stack[i] < b.last.value)
  }

  lemma FlushKeepsInv(b: State)
    requires Inv(b)
    ensures var f := Flush(b); f.error.None? && Ordered(f.state.store) && f.state.data == []
    ensures forall i :: 0 <= i < |b.stack| ==> Flush(b).state.store[b.stack[i]].tail.None?
    ensures forall i :: 0 <= i < |b.store| ==> Flush(b).state.store[i].children == b.store[i].children
  {
    var f := Flush(b);
    assert forall i :: 0 <= i < |b.store| ==> f.state.store[i].children == b.store[i].children;
  }

  lemma AttachKeepsOrdered(s: Store, stack: seq<nat>, r: Rec)
    requires Ordered(s) && r.children == []
    requires forall i :: 0 <= i < |stack| ==> stack[i] < |s|
    ensures Ordered(Attach(s, stack, |s|) + [r])
  {
  }

  lemma StartKeepsInv(b: State, tag: Tag, attrib: map<string, string>)
    requires Inv(b)
    ensures DoStart(b, tag, attrib).error.None? && Inv(DoStart(b, tag, attrib).state)
  {
    FlushKeepsInv(b);
    AttachKeepsOrdered(Flush(b).state.store, b.stack, Rec(tag, attrib, None, None, []));
  }

  lemma EndKeepsInv(b: State, tag: Tag)
    requires Inv(b)
    ensures var o := DoEnd(b, tag);
      if o.error.None? then Inv(o.state) else o.error.value in {NoOpenElement, EndMismatch}
  {
    FlushKeepsInv(b);
  }

  /** Every call that raises nothing keeps the invariant, and no call can reach an assertion of _flush. */
  lemma StepKeepsInv(b: State, c: Call)
    requires Inv(b)
    ensures var o := Step(b, c);
      if o.error.None? then Inv(o.state) else o.error.value in {NoOpenElement, EndMismatch}
  {
    match c
    case Start(tag, attrib) => StartKeepsInv(b, tag, attrib);
    case Data(text) =>
    case End(tag) => EndKeepsInv(b, tag);
  }

  /** Over every run from a state that satisfies the invariant: the only exceptions are a pop from an empty
      stack and an end tag that does not match. */
  lemma {:induction false} RunKeepsInv(b: State, calls: seq<Call>)
    requires Inv(b)
    ensures var o := Run(b, calls);
      if o.error.None? then Inv(o.state) else o.error.value in {NoOpenElement, EndMismatch}
    decreases calls
  {
    if calls != [] {
      StepKeepsInv(b, calls[0]);
      if Step(b, calls[0]).error.None? {
        RunKeepsInv(Step(b, calls[0]).state, calls[1..]);
      }
    }
  }

  /** No element stands twice among the children of the elements. */
  ghost predicate Unshared(s: Store) {
    forall i, m, j, n ::
      0 <= i < |s| && 0 <= m < |s[i].children| && 0 <= j < |s| && 0 <= n < |s[j].children| ==>
      s[i].children[m] == s[j].children[n] ==> i == j && m == n
  }

  lemma AttachKeepsUnshared(s: Store, stack: seq<nat>, r: Rec)
    requires Ordered(s) && Unshared(s) && r.children == []
    requires forall i :: 0 <= i < |stack| ==> stack[i] < |s|
    ensures Unshared(Attach(s, stack, |s|) + [r])
  {
  }

  lemma StepKeepsUnshared(b: State, c: Call)
    requires Inv(b) && Unshared(b.store) && Step(b, c).error.None?
    ensures Unshared(Step(b, c).state.store)
  {
    FlushKeepsInv(b);
    var s := Flush(b).state.store;
    assert Unshared(s);
    if c.Start? {
      AttachKeepsUnshared(s, b.stack, Rec(c.tag, c.attrib, None, None, []));
    }
    hide Inv;
    hide Attach;
    hide Unshared;
  }

  /** Over every run: no element is put in two places. */
  lemma {:induction false} RunKeepsUnshared(b: State, calls: seq<Call>)
    requires Inv(b) && Unshared(b.store) && Run(b, calls).error.None?
    ensures Unshared(Run(b, calls).state.store)
    decreases calls
  {
    if calls != [] {
      StepKeepsInv(b, calls[0]);
      StepKeepsUnshared(b, calls[0]);
      hide Inv;
      hide Unshared;
      hide Step;
      RunKeepsUnshared(Step(b, calls[0]).state, calls[1..]);
    }
  }

  // ---------------------------------------------------------------------------
  // Which runs succeed
  // ---------------------------------------------------------------------------

  /** The tags of the open elements, the innermost one last. */
  function OpenTags(b: State): seq<Tag>
    requires InStore(b)
  {
    seq(|b.stack|, i requires 0 <= i < |b.stack| => b.store[b.stack[i]].tag)
  }

  /** Bracket matching, without a tree: the tags left open after the calls, or the first fault. */
  function Match(tags: seq<Tag>, calls: seq<Call>): Result<seq<Tag>, Error>
    decreases calls
  {
    if calls == [] then Success(tags)
    else
      match calls[0]
      case Start(tag, _) => Match(tags + [tag], calls[1..])
      case Data(_) => Match(tags, calls[1..])
      case End(tag) =>
        if tags == [] then Failure(NoOpenElement)
        else if tags[|tags| - 1] != tag then Failure(EndMismatch)
        else Match(tags[..|tags| - 1], calls[1..])
  }

  /** Every end tag closes the innermost tag that is open. */
  predicate Nested(tags: seq<Tag>, calls: seq<Call>) {
    Match(tags, calls).Success?
  }

  lemma FlushKeepsTags(b: State)
    requires Inv(b)
    ensures OpenTags(Flush(b).state) == OpenTags(b)
  {
  }

  lemma StartOpens(b: State, tag: Tag, attrib: map<string, string>)
    requires Inv(b)
    ensures OpenTags(DoStart(b, tag, attrib).state) == OpenTags(b) + [tag]
  {
    FlushKeepsInv(b);
    FlushKeepsTags(b);
    hide Inv;
    var s := Flush(b).state.store;
    assert forall i :: 0 <= i < |s| ==> Attach(s, b.stack, |b.store|)[i].tag == s[i].tag;
    assert forall i :: 0 <= i < |b.stack| ==> s[b.stack[i]].tag == OpenTags(Flush(b).state)[i];
  }

  lemma EndCloses(b: State, tag: Tag)
    requires Inv(b)
    ensures var tags, o := OpenTags(b), DoEnd(b, tag);
      if tags == [] then o.error == Some(NoOpenElement)
      else if tags[|tags| - 1] != tag then o.error == Some(EndMismatch)
      else o.error == None && OpenTags(o.state) == tags[..|tags| - 1]
  {
    FlushKeepsInv(b);
    FlushKeepsTags(b);
    hide Inv;
    var s := Flush(b).state.store;
    assert forall i :: 0 <= i < |b.stack| ==> s[b.stack[i]].tag == OpenTags(Flush(b).state)[i];
  }

  /** Over every run: it raises nothing exactly when the calls are nested, and otherwise the first fault; and the
      tags left open are those that matching leaves open. */
  lemma {:induction false} RunMatches(b: State, calls: seq<Call>)
    requires Inv(b)
    ensures var o := Run(b, calls);
      Match(OpenTags(b), calls) == if o.error.None? then Success(OpenTags(o.state)) else Failure(o.error.value)
    ensures Run(b, calls).error.None? <==> Nested(OpenTags(b), calls)
    decreases calls
  {
    if calls != [] {
      StepKeepsInv(b, calls[0]);
      match calls[0] {
        case Start(tag, attrib) =>
          StartOpens(b, tag, attrib);
        case Data(text) =>
          assert OpenTags(Step(b, calls[0]).state) == OpenTags(b);
        case End(tag) =>
          EndCloses(b, tag);
      }
      hide Inv;
      hide DoStart;
      hide DoEnd;
      hide OpenTags;
      if Step(b, calls[0]).error.None? {
        RunMatches(Step(b, calls[0]).state, calls[1..]);
      }
    }
  }

  /** An element has been created exactly when the run has a start call or one was created before. */
  lemma {:induction false} RunHasLast(b: State, calls: seq<Call>)
    requires Inv(b) && Run(b, calls).error.None?
    ensures Run(b, calls).state.last.Some? <==> b.last.Some? || exists c <- calls :: c.Start?
    decreases calls
  {
    if calls != [] {
      StepKeepsInv(b, calls[0]);
      var b1 := Step(b, calls[0]).state;
      assert b1.last.Some? <==> b.last.Some? || calls[0].Start?;
      assert calls == [calls[0]] + calls[1..];
      hide Inv;
      hide Step;
      RunHasLast(b1, calls[1..]);
    }
  }

  // ---------------------------------------------------------------------------
  // Reading a tree out of the store
  // ---------------------------------------------------------------------------

  ghost function TreeAt(s: Store, k: nat): Node
    requires Ordered(s) && k < |s|
    decreases |s| - k
  {
    Node(s[k].tag, s[k].attrib, s[k].text,
         seq(|s[k].children|, i requires 0 <= i < |s[k].children| => TreeAt(s, s[k].children[i])),
         s[k].tail)
  }

  /** Element.iter on the store: indices in document order. */
  function IterAt(s: Store, k: nat): seq<nat>
    requires Ordered(s) && k < |s|
    decreases |s| - k, |s[k].children| + 1
  {
    [k] + IterKids(s, k, 0)
  }

  function IterKids(s: Store, k: nat, i: nat): seq<nat>
    requires Ordered(s) && k < |s| && i <= |s[k].children|
    decreases |s| - k, |s[k].children| - i
  {
    if i == |s[k].children| then [] else IterAt(s, s[k].children[i]) + IterKids(s, k, i + 1)
  }

  /** A tree does not change when the store grows or changes before it. */
  lemma {:induction false} TreeFrame(s: Store, s': Store, k: nat)
    requires Ordered(s) && Ordered(s') && k < |s| <= |s'|
    requires forall j :: k <= j < |s| ==> s'[j] == s[j]
    ensures TreeAt(s', k) == TreeAt(s, k)
    ensures IterAt(s', k) == IterAt(s, k)
    decreases |s| - k, |s[k].children| + 1
  {
    forall i | 0 <= i < |s[k].children|
      ensures TreeAt(s', s[k].children[i]) == TreeAt(s, s[k].children[i])
    {
      TreeFrame(s, s', s[k].children[i]);
    }
    KidsFrame(s, s', k, 0);
  }

  lemma {:induction false} KidsFrame(s: Store, s': Store, k: nat, i: nat)
    requires Ordered(s) && Ordered(s') && k < |s| <= |s'| && i <= |s[k].children|
    requires s'[k].children == s[k].children
    requires forall j :: k < j < |s| ==> s'[j] == s[j]
    ensures IterKids(s', k, i) == IterKids(s, k, i)
    decreases |s| - k, |s[k].children| - i
  {
    if i < |s[k].children| {
      TreeFrame(s, s', s[k].children[i]);
      KidsFrame(s, s', k, i + 1);
    }
  }

  // ---------------------------------------------------------------------------
  // The builder inverts the traversal
  // ---------------------------------------------------------------------------

  /** The run from b to o built exactly t, in the next free slots of the store. */
  ghost predicate Built(b: State, o: Outcome, t: Node)
    requires Inv(b)
  {
    var k := |b.store|;
    && o.error.None? && Inv(o.state)
    && o.state.data == [] && o.state.stack == b.stack && o.state.last == Some(k) && o.state.tail
    && k < |o.state.store|
    && o.state.store[..k] == Attach(Flush(b).state.store, b.stack, k)
    && TreeAt(o.state.store, k) == t.(tail := None)
    && IterAt(o.state.store, k) == Range(k, |o.state.store|)
  }

  /** Store s' is store s with the trees ts added below the element p, in the next free slots. */
  ghost predicate Grown(s: Store, s': Store, p: nat, ts: seq<Node>)
    requires Ordered(s) && p < |s|
  {
    && Ordered(s')
    && |s| <= |s'|
    && |s'[p].children| == |s[p].children| + |ts|
    && s'[p].children[..|s[p].children|] == s[p].children
    && s'[..|s|] == s[p := s[p].(children := s'[p].children)]
    && (forall i :: 0 <= i < |ts| ==> TreeAt(s', s'[p].children[|s[p].children| + i]) == ts[i])
    && IterKids(s', p, |s[p].children|) == Range(|s|, |s'|)
  }

  /** The run from b to o added the trees ts as children of the open element. */
  ghost predicate BuiltAll(b: State, o: Outcome, ts: seq<Node>)
    requires Inv(b) && b.stack != []
  {
    && o.error.None? && Inv(o.state) && o.state.stack == b.stack
    && Ordered(Flush(b).state.store)
    && Grown(Flush(b).state.store, Flush(o.state).state.store, b.stack[|b.stack| - 1], ts)
  }

  /** The state in which the children of t are about to be built. */
  function Opened(b: State, t: Node): State
    requires InStore(b)
  {
    DoStart(b, t.tag, t.attrib).state.(data := if t.text.None? then [] else [t.text.value])
  }

  lemma OpenNode(b: State, t: Node)
    requires Inv(b)
    ensures Inv(Opened(b, t)) && Opened(b, t).stack == b.stack + [|b.store|]
    ensures Flush(Opened(b, t)).state.store
            == Attach(Flush(b).state.store, b.stack, |b.store|) + [Rec(t.tag, t.attrib, t.text, None, [])]
  {
    FlushKeepsInv(b);
    StartKeepsInv(b, t.tag, t.attrib);
    if t.text.Some? {
      JoinOne(t.text.value);
    }
  }

  lemma OpenNodeRun(b: State, t: Node)
    requires Inv(b)
    ensures Run(b, [Start(t.tag, t.attrib)] + TextCalls(t.text)) == Outcome(Opened(b, t), None)
  {
    hide Inv;
    assert Flush(b).error.None? && Flush(b).state.data == [] by {
      FlushKeepsInv(b);
    }
    var b1 := DoStart(b, t.tag, t.attrib).state;
    var calls := [Start(t.tag, t.attrib)] + TextCalls(t.text);
    assert calls[1..] == TextCalls(t.text);
    RunText(b1, t.text);
  }

  lemma RunText(b: State, text: Option<string>)
    requires InStore(b) && b.data == []
    ensures Run(b, TextCalls(text)) == Outcome(b.(data := if text.None? then [] else [text.value]), None)
  {
    if text.Some? {
      assert TextCalls(text)[1..] == [];
      assert b.data + [text.value] == [text.value];
    }
  }

  lemma JoinOne(s: string)
    ensures Join([s]) == s
  {
    assert [s][1..] == [];
  }

  /** A record without children, grown by its children's trees, is the whole tree. */
  lemma CloseGrown(a: Store, r: Rec, s': Store, ts: seq<Node>)
    requires r.children == [] && Ordered(a + [r])
    requires Grown(a + [r], s', |a|, ts)
    ensures s'[..|a|] == a
    ensures s'[|a|] == r.(children := s'[|a|].children)
    ensures TreeAt(s', |a|) == Node(r.tag, r.attrib, r.text, ts, r.tail)
    ensures IterAt(s', |a|) == Range(|a|, |s'|)
  {
    assert (a + [r])[|a|] == r;
    GrownTrees(a + [r], s', |a|, ts);
    LastReplaced(a, r, r.(children := s'[|a|].children), s');
    hide Grown;
    SameChildren(s', |a|, ts);
    RangeCons(|a|, |s'|);
  }

  /** What growing adds below an element without children. */
  lemma GrownTrees(s: Store, s': Store, p: nat, ts: seq<Node>)
    requires Ordered(s) && p < |s| && s[p].children == [] && Grown(s, s', p, ts)
    ensures Ordered(s') && |s| <= |s'| && s'[..|s|] == s[p := s[p].(children := s'[p].children)]
    ensures |s'[p].children| == |ts| && forall i :: 0 <= i < |ts| ==> TreeAt(s', s'[p].children[i]) == ts[i]
    ensures IterKids(s', p, 0) == Range(|s|, |s'|)
  {
    hide TreeAt;
    hide IterKids;
    forall i | 0 <= i < |ts|
      ensures TreeAt(s', s'[p].children[i]) == ts[i]
    {
      assert TreeAt(s', s'[p].children[|s[p].children| + i]) == ts[i];
    }
  }

  lemma LastReplaced(a: Store, r: Rec, r': Rec, s': Store)
    requires |a| < |s'| && s'[..|a| + 1] == (a + [r])[|a| := r']
    ensures s'[..|a|] == a && s'[|a|] == r'
  {
    assert (a + [r])[|a| := r'] == a + [r'];
    assert s'[..|a|] == s'[..|a| + 1][..|a|];
    assert s'[|a|] == s'[..|a| + 1][|a|];
  }

  lemma SameChildren(s: Store, k: nat, ts: seq<Node>)
    requires Ordered(s) && k < |s| && |s[k].children| == |ts|
    requires forall i :: 0 <= i < |ts| ==> TreeAt(s, s[k].children[i]) == ts[i]
    ensures TreeAt(s, k) == Node(s[k].tag, s[k].attrib, s[k].text, ts, s[k].tail)
  {
    forall i | 0 <= i < |ts|
      ensures TreeAt(s, k).children[i] == ts[i]
    {
      assert TreeAt(s, s[k].children[i]) == ts[i];
    }
    assert TreeAt(s, k).children == ts;
  }

  lemma CloseNode(b: State, t: Node, o: Outcome)
    requires Inv(b)
    requires Inv(Opened(b, t)) && Opened(b, t).stack == b.stack + [|b.store|]
    requires Flush(Opened(b, t)).state.store
             == Attach(Flush(b).state.store, b.stack, |b.store|) + [Rec(t.tag, t.attrib, t.text, None, [])]
    requires BuiltAll(Opened(b, t), o, t.children)
    ensures Built(b, DoEnd(o.state, t.tag), t)
  {
    hide Grown;
    hide Attach;
    CloseGrown(Attach(Flush(b).state.store, b.stack, |b.store|), Rec(t.tag, t.attrib, t.text, None, []),
               Flush(o.state).state.store, t.children);
    FlushKeepsInv(o.state);
    EndKeepsInv(o.state, t.tag);
    hide Inv;
    assert (b.stack + [|b.store|])[..|b.stack|] == b.stack;
  }

  lemma {:induction false} BuildNode(b: State, t: Node)
    requires Inv(b)
    ensures Built(b, Run(b, Calls(t)), t)
    decreases t, 1
  {
    OpenNode(b, t);
    OpenNodeRun(b, t);
    BuildAll(Opened(b, t), t.children);
    var o := Run(Opened(b, t), CallsAll(t.children));
    CloseNode(b, t, o);
    var xs := [Start(t.tag, t.attrib)] + TextCalls(t.text);
    RunAppend(b, xs, CallsAll(t.children));
    RunAppend(b, xs + CallsAll(t.children), [End(t.tag)]);
    assert [End(t.tag)][1..] == [];
    assert Run(o.state, [End(t.tag)]) == DoEnd(o.state, t.tag);
  }

  /** The state after a node and its tail. */
  function Tailed(b: State, t: Node): State {
    b.(data := if t.tail.None? then [] else [t.tail.value])
  }

  /** Filling the tail of the last element of a grown store. */
  lemma TailGrown(s: Store, s1: Store, p: nat, t: Node)
    requires Ordered(s) && p < |s| < |s1| && Ordered(s1)
    requires s1[..|s|] == s[p := s[p].(children := s[p].children + [|s|])]
    requires TreeAt(s1, |s|) == t.(tail := None) && IterAt(s1, |s|) == Range(|s|, |s1|)
    ensures var s' := s1[|s| := s1[|s|].(tail := t.tail)]; Ordered(s') && Grown(s, s', p, [t])
  {
    var k, m := |s|, |s[p].children|;
    var s' := s1[k := s1[k].(tail := t.tail)];
    assert s'[..k] == s1[..k];
    assert s'[p] == s'[..k][p];
    forall i | 0 <= i < |s1[k].children|
      ensures TreeAt(s', s1[k].children[i]) == TreeAt(s1, s1[k].children[i])
    {
      TreeFrame(s1, s', s1[k].children[i]);
    }
    KidsFrame(s1, s', k, 0);
    assert TreeAt(s', k).children == TreeAt(s1, k).children;
    assert TreeAt(s', k) == t;
    assert IterKids(s', p, m) == IterAt(s', k) + IterKids(s', p, m + 1);
  }

  /** A node with its tail is a list of one tree. */
  lemma TailNode(b: State, t: Node, o: Outcome)
    requires Inv(b) && b.stack != [] && Built(b, o, t)
    ensures Run(o.state, TextCalls(t.tail)) == Outcome(Tailed(o.state, t), None)
    ensures BuiltAll(b, Outcome(Tailed(o.state, t), None), [t])
  {
    RunText(o.state, t.tail);
    FlushKeepsInv(b);
    var b1 := Tailed(o.state, t);
    if t.tail.Some? {
      JoinOne(t.tail.value);
    }
    var s1 := o.state.store;
    assert TreeAt(s1, |b.store|).tail == s1[|b.store|].tail;
    assert Flush(b1).state.store == s1[|b.store| := s1[|b.store|].(tail := t.tail)];
    TailGrown(Flush(b).state.store, s1, b.stack[|b.stack| - 1], t);
  }

  /** What two steps of growth leave of the store, and of the children of p. */
  lemma GrownTwice(s: Store, s1: Store, s2: Store, p: nat, t: Node, ts: seq<Node>)
    requires Ordered(s) && p < |s|
    requires Grown(s, s1, p, [t]) && Grown(s1, s2, p, ts)
    ensures var m := |s[p].children|;
      && s2[..|s|] == s[p := s[p].(children := s2[p].children)]
      && s2[p].children[..m] == s[p].children
      && s2[p].children[m] == s1[p].children[m] > p
  {
    var m := |s[p].children|;
    hide IterKids;
    hide TreeAt;
    assert forall j :: 0 <= j < |s1| ==> s2[j] == s2[..|s1|][j];
    assert forall j :: 0 <= j < |s| ==> s1[j] == s1[..|s|][j];
    assert forall j :: 0 <= j <= m ==> s2[p].children[j] == s2[p].children[..m + 1][j];
    assert forall j :: 0 <= j < m ==> s1[p].children[j] == s1[p].children[..m][j];
  }

  lemma GrownTransitive(s: Store, s1: Store, s2: Store, p: nat, t: Node, ts: seq<Node>)
    requires Ordered(s) && p < |s|
    requires Grown(s, s1, p, [t]) && Grown(s1, s2, p, ts)
    ensures Grown(s, s2, p, [t] + ts)
  {
    var m := |s[p].children|;
    GrownTwice(s, s1, s2, p, t, ts);
    var k := s1[p].children[m];
    TreeFrame(s1, s2, k);
    forall i | 0 <= i < 1 + |ts|
      ensures TreeAt(s2, s2[p].children[m + i]) == ([t] + ts)[i]
    {
      if i > 0 {
        assert s2[p].children[m + i] == s2[p].children[m + 1 + (i - 1)];
      } else {
        assert TreeAt(s1, s1[p].children[m + 0]) == [t][0];
      }
    }
    assert IterKids(s1, p, m) == IterAt(s1, k) + IterKids(s1, p, m + 1);
    assert IterKids(s2, p, m) == IterAt(s2, k) + IterKids(s2, p, m + 1);
    assert IterKids(s1, p, m + 1) == [];
    RangeAppend(|s|, |s1|, |s2|);
    hide IterKids;
    hide TreeAt;
    hide IterAt;
  }

  /** Lists of trees built one after the other. */
  lemma ChainAll(b: State, o1: Outcome, t: Node, o2: Outcome, ts: seq<Node>)
    requires Inv(b) && b.stack != []
    requires BuiltAll(b, o1, [t])
    requires BuiltAll(o1.state, o2, ts)
    ensures BuiltAll(b, o2, [t] + ts)
  {
    hide Grown;
    hide Inv;
    GrownTransitive(Flush(b).state.store, Flush(o1.state).state.store, Flush(o2.state).state.store,
                    b.stack[|b.stack| - 1], t, ts);
  }

  lemma BuildNone(b: State)
    requires Inv(b) && b.stack != []
    ensures BuiltAll(b, Outcome(b, None), [])
  {
    FlushKeepsInv(b);
    var p := b.stack[|b.stack| - 1];
    var s := Flush(b).state.store;
    assert s[p := s[p].(children := s[p].children)] == s;
  }

  lemma {:induction false} BuildAll(b: State, ts: seq<Node>)
    requires Inv(b) && b.stack != []
    ensures BuiltAll(b, Run(b, CallsAll(ts)), ts)
    decreases ts, 0
  {
    if ts == [] {
      BuildNone(b);
    } else {
      hide BuiltAll;
      hide Built;
      hide Inv;
      var t := ts[0];
      BuildNode(b, t);
      var o := Run(b, Calls(t));
      TailNode(b, t, o);
      var o1 := Outcome(Tailed(o.state, t), None);
      BuildAll(o1.state, ts[1..]);
      ChainAll(b, o1, t, Run(o1.state, CallsAll(ts[1..])), ts[1..]);
      RunAppend(b, Calls(t), TextCalls(t.tail));
      RunAppend(b, Calls(t) + TextCalls(t.tail), CallsAll(ts[1..]));
      assert ts == [t] + ts[1..];
    }
  }

  // ---------------------------------------------------------------------------
  // What the end calls return
  // ---------------------------------------------------------------------------

  /** The list names every index from lo up to hi exactly once. */
  ghost predicate Fills(l: seq<nat>, lo: nat, hi: nat) {
    && lo <= hi && |l| == hi - lo
    && NoDuplicates(l)
    && (forall i :: 0 <= i < |l| ==> lo <= l[i] < hi)
  }

  /** The run closes each element it creates exactly once. */
  ghost predicate ClosesItsOwn(b: State, calls: seq<Call>)
    requires InStore(b)
  {
    && Run(b, calls).error.None?
    && Fills(Closed(b, calls), |b.store|, |Run(b, calls).state.store|)
  }

  lemma FillsAppend(xs: seq<nat>, ys: seq<nat>, lo: nat, mid: nat, hi: nat)
    requires Fills(xs, lo, mid) && Fills(ys, mid, hi)
    ensures Fills(xs + ys, lo, hi) && Fills(ys + xs, lo, hi)
  {
  }

  lemma ClosesAppend(b: State, xs: seq<Call>, ys: seq<Call>)
    requires InStore(b) && ClosesItsOwn(b, xs) && ClosesItsOwn(Run(b, xs).state, ys)
    ensures ClosesItsOwn(b, xs + ys)
  {
    var b1 := Run(b, xs).state;
    RunAppend(b, xs, ys);
    FillsAppend(Closed(b, xs), Closed(b1, ys), |b.store|, |b1.store|, |Run(b1, ys).state.store|);
  }

  lemma TextCloses(b: State, text: Option<string>)
    requires InStore(b)
    ensures ClosesItsOwn(b, TextCalls(text)) && Closed(b, TextCalls(text)) == []
    ensures |Run(b, TextCalls(text)).state.store| == |b.store|
  {
    if text.Some? {
      assert TextCalls(text)[1..] == [];
    }
  }

  lemma OpeningClosesNothing(b: State, t: Node)
    requires Inv(b)
    ensures Closed(b, [Start(t.tag, t.attrib)] + TextCalls(t.text)) == []
  {
    var calls := [Start(t.tag, t.attrib)] + TextCalls(t.text);
    assert calls[1..] == TextCalls(t.text);
    StartKeepsInv(b, t.tag, t.attrib);
    TextCloses(DoStart(b, t.tag, t.attrib).state, t.text);
  }

  lemma SplitCalls(b: State, b2: State, t: Node)
    requires InStore(b) && InStore(b2)
    requires Run(b, [Start(t.tag, t.attrib)] + TextCalls(t.text)) == Outcome(b2, None)
    requires Closed(b, [Start(t.tag, t.attrib)] + TextCalls(t.text)) == []
    requires Run(b2, CallsAll(t.children)).error.None?
    requires DoEnd(Run(b2, CallsAll(t.children)).state, t.tag).error.None?
    ensures var o := DoEnd(Run(b2, CallsAll(t.children)).state, t.tag);
      Run(b, Calls(t)) == o && Closed(b, Calls(t)) == Closed(b2, CallsAll(t.children)) + [o.state.last.value]
  {
    var xs := [Start(t.tag, t.attrib)] + TextCalls(t.text);
    var b3 := Run(b2, CallsAll(t.children)).state;
    assert Calls(t) == xs + CallsAll(t.children) + [End(t.tag)];
    hide Run;
    hide Closed;
    hide DoEnd;
    hide Calls;
    hide CallsAll;
    hide TextCalls;
    assert Step(b3, End(t.tag)) == DoEnd(b3, t.tag);
    hide Step;
    RunAppend(b, xs, CallsAll(t.children));
    RunAppend(b, xs + CallsAll(t.children), [End(t.tag)]);
    RunOne(b3, End(t.tag));
    hide InStore;
  }

  /** What the pieces of a node's run do. */
  ghost predicate Pieces(b: State, t: Node)
    requires InStore(b) && InStore(Opened(b, t))
  {
    var o := Run(Opened(b, t), CallsAll(t.children));
    && o.error.None?
    && |Opened(b, t).store| == |b.store| + 1
    && Run(b, Calls(t)).error.None?
    && Closed(b, Calls(t)) == Closed(Opened(b, t), CallsAll(t.children)) + [|b.store|]
    && |Run(b, Calls(t)).state.store| == |o.state.store|
  }

  lemma ClosedPieces(b: State, t: Node)
    requires Inv(b)
    ensures Inv(Opened(b, t)) && Pieces(b, t)
  {
    OpenNode(b, t);
    OpenNodeRun(b, t);
    BuildAll(Opened(b, t), t.children);
    OpeningClosesNothing(b, t);
    assert |Opened(b, t).store| == |b.store| + 1;
    hide Run;
    hide Closed;
    hide Opened;
    hide Grown;
    hide Inv;
    hide Flush;
    hide Attach;
    hide TreeAt;
    hide IterAt;
    var o := Run(Opened(b, t), CallsAll(t.children));
    CloseNode(b, t, o);
    SplitCalls(b, Opened(b, t), t);
    EndKeepsSize(o.state, t.tag);
    hide DoEnd;
  }

  lemma EndKeepsSize(b: State, tag: Tag)
    requires InStore(b)
    ensures |DoEnd(b, tag).state.store| == |b.store|
  {
  }

  /** The end calls of an element return every element created for it exactly once. */
  lemma {:induction false} NodeCloses(b: State, t: Node)
    requires Inv(b)
    ensures ClosesItsOwn(b, Calls(t))
    decreases t, 1
  {
    ClosedPieces(b, t);
    OpenNode(b, t);
    var b2 := Opened(b, t);
    AllClose(b2, t.children);
    hide Inv;
    FillsAppend([|b.store|], Closed(b2, CallsAll(t.children)),
                |b.store|, |b2.store|, |Run(b2, CallsAll(t.children)).state.store|);
  }

  lemma {:induction false} AllClose(b: State, ts: seq<Node>)
    requires Inv(b) && b.stack != []
    ensures ClosesItsOwn(b, CallsAll(ts))
    decreases ts, 0
  {
    if ts != [] {
      hide Built;
      hide BuiltAll;
      hide Inv;
      hide ClosesItsOwn;
      var t := ts[0];
      BuildNode(b, t);
      NodeCloses(b, t);
      var o := Run(b, Calls(t));
      TailNode(b, t, o);
      TextCloses(o.state, t.tail);
      ClosesAppend(b, Calls(t), TextCalls(t.tail));
      AllClose(Tailed(o.state, t), ts[1..]);
      RunAppend(b, Calls(t), TextCalls(t.tail));
      ClosesAppend(b, Calls(t) + TextCalls(t.tail), CallsAll(ts[1..]));
    }
  }
}
