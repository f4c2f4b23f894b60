/** How a parser cuts character data into data calls makes no difference to the tree that is built. */
module Chunks {
  import opened Basics
  import opened Elements
  import opened Builder

  /** Calls with every run of neighbouring data calls joined into one. */
  function Coalesce(calls: seq<Call>): seq<Call>
    decreases |calls|
  {
    if |calls| <= 1 then calls
    else if calls[0].Data? && calls[1].Data? then
      Coalesce([Data(calls[0].text + calls[1].text)] + calls[2..])
    else [calls[0]] + Coalesce(calls[1..])
  }

  /** States that differ at most in how the pending character data is cut. */
  ghost predicate SameUpToCuts(b: State, c: State) {
    && b.(data := []) == c.(data := [])
    && Join(b.data) == Join(c.data)
    && (b.data == [] <==> c.data == [])
  }

  lemma StepUpToCuts(b: State, c: State, call: Call)
    requires InStore(b) && SameUpToCuts(b, c)
    ensures Step(b, call).error == Step(c, call).error
    ensures SameUpToCuts(Step(b, call).state, Step(c, call).state)
  {
    if call.Data? {
      JoinAppend(b.data, [call.text]);
      JoinAppend(c.data, [call.text]);
    }
  }

  lemma {:induction false} RunUpToCuts(b: State, c: State, calls: seq<Call>)
    requires InStore(b) && SameUpToCuts(b, c)
    ensures Run(b, calls).error == Run(c, calls).error
    ensures SameUpToCuts(Run(b, calls).state, Run(c, calls).state)
    ensures Closed(b, calls) == Closed(c, calls)
    decreases calls
  {
    if calls != [] {
      StepUpToCuts(b, c, calls[0]);
      if Step(b, calls[0]).error.None? {
        RunUpToCuts(Step(b, calls[0]).state, Step(c, calls[0]).state, calls[1..]);
      }
    }
  }

  lemma {:induction false} RunCoalesced(b: State, calls: seq<Call>)
    requires InStore(b)
    ensures Run(b, Coalesce(calls)).error == Run(b, calls).error
    ensures SameUpToCuts(Run(b, Coalesce(calls)).state, Run(b, calls).state)
    ensures Closed(b, Coalesce(calls)) == Closed(b, calls)
    decreases |calls|
  {
    if |calls| <= 1 {
    } else if calls[0].Data? && calls[1].Data? {
      var s, t, rest := calls[0].text, calls[1].text, calls[2..];
      RunCoalesced(b, [Data(s + t)] + rest);
      assert calls == [Data(s), Data(t)] + rest;
      JoinTwoCuts(b, s, t, rest);
      hide Run;
      hide Closed;
    } else {
      assert ([calls[0]] + Coalesce(calls[1..]))[1..] == Coalesce(calls[1..]);
      if Step(b, calls[0]).error.None? {
        RunCoalesced(Step(b, calls[0]).state, calls[1..]);
      }
      hide Step;
      hide SameUpToCuts;
    }
  }

  /** Two chunks in a row do what the joined chunk does. */
  lemma JoinTwoCuts(b: State, s: string, t: string, rest: seq<Call>)
    requires InStore(b)
    ensures var joined, cut := [Data(s + t)] + rest, [Data(s), Data(t)] + rest;
      && Run(b, joined).error == Run(b, cut).error
      && SameUpToCuts(Run(b, joined).state, Run(b, cut).state)
      && Closed(b, joined) == Closed(b, cut)
  {
    var b1, b2 := b.(data := b.data + [s + t]), b.(data := b.data + [s] + [t]);
    JoinCut(b.data, s, t);
    assert SameUpToCuts(b1, b2);
    hide Run;
    hide Closed;
    hide Join;
    hide SameUpToCuts;
    RunUpToCuts(b1, b2, rest);
    DataFirst(b, s + t, rest);
    DataFirst(b, s, [Data(t)] + rest);
    DataFirst(b.(data := b.data + [s]), t, rest);
    assert [Data(s), Data(t)] + rest == [Data(s)] + ([Data(t)] + rest);
  }

  lemma JoinCut(parts: seq<string>, s: string, t: string)
    ensures Join(parts + [s + t]) == Join(parts + [s] + [t])
  {
    hide Join;
    JoinOne(s + t);
    JoinOne(s);
    JoinOne(t);
    JoinAppend(parts, [s + t]);
    JoinAppend(parts, [s]);
    JoinAppend(parts + [s], [t]);
    Assoc(Join(parts), s, t);
  }

  lemma DataFirst(b: State, s: string, rest: seq<Call>)
    requires InStore(b)
    ensures var b1 := b.(data := b.data + [s]);
      Run(b, [Data(s)] + rest) == Run(b1, rest) && Closed(b, [Data(s)] + rest) == Closed(b1, rest)
  {
    assert ([Data(s)] + rest)[1..] == rest;
  }

  /** Two call sequences that carry the same markup and the same text raise the same exception, close the
      same elements and, once the pending text is flushed, leave the same store. */
  lemma CutsDoNotMatter(b: State, xs: seq<Call>, ys: seq<Call>)
    requires InStore(b) && Coalesce(xs) == Coalesce(ys)
    ensures Run(b, xs).error == Run(b, ys).error
    ensures Closed(b, xs) == Closed(b, ys)
    ensures Flush(Run(b, xs).state).state == Flush(Run(b, ys).state).state
            || (Flush(Run(b, xs).state).error.Some? && Flush(Run(b, ys).state).error.Some?)
  {
    RunCoalesced(b, xs);
    RunCoalesced(b, ys);
  }
}
