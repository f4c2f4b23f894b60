/** The incremental parser's iterator: a buffer of events that is delivered, refilled and closed. */
module IterParse {
  import opened Basics

  /** What feeding the parser one block of the file does: the events it reports, and the error it raises after them. */
  datatype Feed<E> = Feed(events: seq<E>, error: Option<nat>)

  /** What a call of next yields. */
  datatype Item<E> = Item(event: E) | Raise(error: nat) | Stop

  /** All events of some feeds. */
  function Events<E>(fs: seq<Feed<E>>): seq<E> {
    if fs == [] then [] else fs[0].events + Events(fs[1..])
  }

  function ErrorOf<E>(f: Feed<E>): seq<nat> {
    if f.error.Some? then [f.error.value] else []
  }

  /** All errors of some feeds. */
  function Errors<E>(fs: seq<Feed<E>>): seq<nat> {
    if fs == [] then [] else ErrorOf(fs[0]) + Errors(fs[1..])
  }

  lemma OneMoreFeed<E>(fs: seq<Feed<E>>, f: Feed<E>)
    ensures Events(fs + [f]) == Events(fs) + f.events
    ensures Errors(fs + [f]) == Errors(fs) + ErrorOf(f)
  {
    EventsOneMore(fs, f);
    ErrorsOneMore(fs, f);
  }

  lemma {:induction false} EventsOneMore<E>(fs: seq<Feed<E>>, f: Feed<E>)
    ensures Events(fs + [f]) == Events(fs) + f.events
  {
    if fs == [] {
      assert ([] + [f])[1..] == [];
    } else {
      assert (fs + [f])[1..] == fs[1..] + [f];
      EventsOneMore(fs[1..], f);
      Assoc(fs[0].events, Events(fs[1..]), f.events);
    }
  }

  lemma {:induction false} ErrorsOneMore<E>(fs: seq<Feed<E>>, f: Feed<E>)
    ensures Errors(fs + [f]) == Errors(fs) + ErrorOf(f)
  {
    if fs == [] {
      assert ([] + [f])[1..] == [];
    } else {
      assert (fs + [f])[1..] == fs[1..] + [f];
      ErrorsOneMore(fs[1..], f);
      hide ErrorOf;
      Assoc(ErrorOf(fs[0]), Errors(fs[1..]), ErrorOf(f));
    }
  }

  // ---------------------------------------------------------------------------
  // The answers of a whole run, as a function of the file
  // ---------------------------------------------------------------------------

  /** One answer of next, with all events that the parser had produced when it was given. */
  datatype Answer<E> = Answer(item: Item<E>, produced: seq<E>)

  /** The delivery of some events. */
  function Deliveries<E>(events: seq<E>, produced: seq<E>): seq<Answer<E>> {
    seq(|events|, i requires 0 <= i < |events| => Answer(Item(events[i]), produced))
  }

  /** The raising of the error that is held back, if there is one. */
  function RaiseHeld<E>(error: Option<nat>, produced: seq<E>): seq<Answer<E>> {
    if error.Some? then [Answer(Raise(error.value), produced)] else []
  }

  /** The answers for some blocks: the events of each, and then its error. */
  function BlockAnswers<E>(fs: seq<Feed<E>>, before: seq<E>): seq<Answer<E>>
    decreases fs
  {
    if fs == [] then []
    else
      var produced := before + fs[0].events;
      Deliveries(fs[0].events, produced) + RaiseHeld(fs[0].error, produced) + BlockAnswers(fs[1..], produced)
  }

  /** The answers for closing the parser: its error, and then its events. */
  function CloseAnswers<E>(ending: Feed<E>, before: seq<E>): seq<Answer<E>> {
    RaiseHeld(ending.error, before + ending.events) + Deliveries(ending.events, before + ending.events)
  }

  /** The answers before they repeat. */
  function Varied<E>(script: seq<Feed<E>>, ending: Feed<E>): seq<Answer<E>> {
    BlockAnswers(script, []) + CloseAnswers(ending, Events(script))
  }

  /** The answer to call n, counted from 0. When all has been delivered, the end is reported for ever, or, if
      closing fails, its error is raised for ever. */
  function Nth<E>(script: seq<Feed<E>>, ending: Feed<E>, n: nat): Answer<E> {
    if n < |Varied(script, ending)| then Varied(script, ending)[n]
    else Answer(if ending.error.Some? then Raise(ending.error.value) else Stop, Events(script) + ending.events)
  }

  function FirstAnswers<E>(script: seq<Feed<E>>, ending: Feed<E>, n: nat): seq<Answer<E>> {
    seq(n, i requires 0 <= i < n => Nth(script, ending, i))
  }

  /** The events among some answers. */
  function Delivered<E>(answers: seq<Answer<E>>): seq<E> {
    if answers == [] then []
    else (if answers[0].item.Item? then [answers[0].item.event] else []) + Delivered(answers[1..])
  }

  /** Call n raises an error although an event has been produced that is not delivered yet. */
  predicate Early<E(==)>(script: seq<Feed<E>>, ending: Feed<E>, n: nat) {
    Nth(script, ending, n).item.Raise?
    && Delivered(FirstAnswers(script, ending, n)) != Nth(script, ending, n).produced
  }

  lemma {:induction false} DeliveredAppend<E>(a: seq<Answer<E>>, b: seq<Answer<E>>)
    ensures Delivered(a + b) == Delivered(a) + Delivered(b)
  {
    if a == [] {
      assert a + b == b;
    } else {
      assert (a + b)[1..] == a[1..] + b;
      DeliveredAppend(a[1..], b);
      Assoc(if a[0].item.Item? then [a[0].item.event] else [], Delivered(a[1..]), Delivered(b));
    }
  }

  lemma {:induction false} DeliveriesDeliver<E>(events: seq<E>, produced: seq<E>)
    ensures Delivered(Deliveries(events, produced)) == events
    decreases events
  {
    if events != [] {
      assert Deliveries(events, produced)[1..] == Deliveries(events[1..], produced);
      DeliveriesDeliver(events[1..], produced);
    }
  }

  lemma {:induction false} BlocksDeliver<E>(fs: seq<Feed<E>>, before: seq<E>)
    ensures Delivered(BlockAnswers(fs, before)) == Events(fs)
    decreases fs
  {
    if fs != [] {
      var produced := before + fs[0].events;
      var a, b := Deliveries(fs[0].events, produced), RaiseHeld(fs[0].error, produced);
      BlocksDeliver(fs[1..], produced);
      DeliveriesDeliver(fs[0].events, produced);
      assert Delivered(b) == [];
      DeliveredAppend(a, b);
      DeliveredAppend(a + b, BlockAnswers(fs[1..], produced));
    }
  }

  /** When the error of a block is raised, all events produced so far have been delivered. */
  lemma {:induction false} BlocksOnTime<E>(fs: seq<Feed<E>>, before: seq<E>, i: nat)
    requires i < |BlockAnswers(fs, before)| && BlockAnswers(fs, before)[i].item.Raise?
    ensures before + Delivered(BlockAnswers(fs, before)[..i]) == BlockAnswers(fs, before)[i].produced
    decreases fs
  {
    var produced := before + fs[0].events;
    var a, b := Deliveries(fs[0].events, produced), RaiseHeld(fs[0].error, produced);
    var rest := BlockAnswers(fs[1..], produced);
    var all := BlockAnswers(fs, before);
    assert all == a + b + rest;
    DeliveriesDeliver(fs[0].events, produced);
    assert Delivered(b) == [];
    DeliveredAppend(a, b);
    hide BlockAnswers;
    if i < |a + b| {
      assert i == |a|;
      assert all[..i] == a;
    } else {
      var j := i - |a + b|;
      assert all[..i] == a + b + rest[..j];
      BlocksOnTime(fs[1..], produced, j);
      DeliveredAppend(a + b, rest[..j]);
      Assoc(before, fs[0].events, Delivered(rest[..j]));
    }
  }

  lemma FirstOfVaried<E>(script: seq<Feed<E>>, ending: Feed<E>, n: nat)
    ensures n <= |Varied(script, ending)| ==> FirstAnswers(script, ending, n) == Varied(script, ending)[..n]
  {
  }

  lemma VariedDelivers<E>(script: seq<Feed<E>>, ending: Feed<E>)
    ensures Delivered(Varied(script, ending)) == Events(script) + ending.events
  {
    var a, produced := BlockAnswers(script, []), Events(script) + ending.events;
    var b, c := RaiseHeld(ending.error, produced), Deliveries(ending.events, produced);
    assert Delivered(b) == [];
    hide Delivered;
    hide BlockAnswers;
    hide Deliveries;
    hide RaiseHeld;
    DeliveredAppend(a, b + c);
    DeliveredAppend(b, c);
    BlocksDeliver(script, []);
    DeliveriesDeliver(ending.events, produced);
  }

  lemma {:induction false} NothingMore<E>(script: seq<Feed<E>>, ending: Feed<E>, n: nat)
    requires n >= |Varied(script, ending)|
    ensures Delivered(FirstAnswers(script, ending, n)) == Events(script) + ending.events
    decreases n
  {
    if n == |Varied(script, ending)| {
      FirstOfVaried(script, ending, n);
      VariedDelivers(script, ending);
      assert Varied(script, ending)[..n] == Varied(script, ending);
    } else {
      NothingMore(script, ending, n - 1);
      var more := [Nth(script, ending, n - 1)];
      assert !more[0].item.Item? && more[1..] == [];
      assert FirstAnswers(script, ending, n) == FirstAnswers(script, ending, n - 1) + more;
      DeliveredAppend(FirstAnswers(script, ending, n - 1), more);
    }
    hide Varied;
    hide Events;
  }

  /** Over every run, exactly one raise can be early: that of closing the parser, right after the answers for the
      blocks, and it is early exactly if closing has also produced an event. */
  lemma EarlyIff<E>(script: seq<Feed<E>>, ending: Feed<E>, n: nat)
    ensures Early(script, ending, n) <==>
      n == |BlockAnswers(script, [])| && ending.error.Some? && ending.events != []
  {
    var a, c := BlockAnswers(script, []), CloseAnswers(ending, Events(script));
    var all := Varied(script, ending);
    FirstOfVaried(script, ending, n);
    if n < |a| {
      assert all[n] == a[n] && all[..n] == a[..n];
      if a[n].item.Raise? {
        BlocksOnTime(script, [], n);
      }
    } else if n < |all| {
      assert all[n] == c[n - |a|];
      if n == |a| {
        assert all[..n] == a;
        BlocksDeliver(script, []);
      }
    } else {
      NothingMore(script, ending, n);
    }
  }

  /** So a parse error always comes after the events before it if and only if closing the parser does not fail
      or produces no event. */
  lemma NeverEarlyIff<E>(script: seq<Feed<E>>, ending: Feed<E>)
    ensures (forall n: nat :: !Early(script, ending, n)) <==> ending.error.None? || ending.events == []
  {
    EarlyIff(script, ending, |BlockAnswers(script, [])|);
    forall n: nat
      ensures Early(script, ending, n) ==> ending.error.Some? && ending.events != []
    {
      EarlyIff(script, ending, n);
    }
  }

  /** The errors among some answers. */
  function Raised<E>(answers: seq<Answer<E>>): seq<nat> {
    if answers == [] then []
    else (if answers[0].item.Raise? then [answers[0].item.error] else []) + Raised(answers[1..])
  }

  lemma {:induction false} RaisedAppend<E>(a: seq<Answer<E>>, b: seq<Answer<E>>)
    ensures Raised(a + b) == Raised(a) + Raised(b)
  {
    if a == [] {
      assert a + b == b;
    } else {
      assert (a + b)[1..] == a[1..] + b;
      RaisedAppend(a[1..], b);
      Assoc(if a[0].item.Raise? then [a[0].item.error] else [], Raised(a[1..]), Raised(b));
    }
  }

  lemma {:induction false} DeliveriesRaiseNothing<E>(events: seq<E>, produced: seq<E>)
    ensures Raised(Deliveries(events, produced)) == []
    decreases events
  {
    if events != [] {
      assert Deliveries(events, produced)[1..] == Deliveries(events[1..], produced);
      DeliveriesRaiseNothing(events[1..], produced);
    }
  }

  lemma RaiseHeldRaises<E>(f: Feed<E>, produced: seq<E>)
    ensures Raised(RaiseHeld(f.error, produced)) == ErrorOf(f)
  {
    var b := RaiseHeld(f.error, produced);
    assert b != [] ==> b[1..] == [];
  }

  lemma {:induction false} BlocksRaise<E>(fs: seq<Feed<E>>, before: seq<E>)
    ensures Raised(BlockAnswers(fs, before)) == Errors(fs)
    decreases fs
  {
    if fs != [] {
      var produced := before + fs[0].events;
      var a, b := Deliveries(fs[0].events, produced), RaiseHeld(fs[0].error, produced);
      BlocksRaise(fs[1..], produced);
      DeliveriesRaiseNothing(fs[0].events, produced);
      RaiseHeldRaises(fs[0], produced);
      RaisedAppend(a, b);
      RaisedAppend(a + b, BlockAnswers(fs[1..], produced));
    }
  }

  /** Before the answers repeat, the error of each block and of closing is raised once, in order; and after them
      nothing is raised, so that each error is raised once in the whole run, exactly if closing does not fail. */
  lemma RaisedOnceIff<E>(script: seq<Feed<E>>, ending: Feed<E>)
    ensures Raised(Varied(script, ending)) == Errors(script) + ErrorOf(ending)
    ensures (forall n: nat :: n >= |Varied(script, ending)| ==> Nth(script, ending, n).item.Stop?)
            <==> ending.error.None?
    ensures (exists n: nat :: Nth(script, ending, n).item.Stop?) <==> ending.error.None?
  {
    var a, produced := BlockAnswers(script, []), Events(script) + ending.events;
    var b, c := RaiseHeld(ending.error, produced), Deliveries(ending.events, produced);
    RaisedAppend(a, b + c);
    RaisedAppend(b, c);
    BlocksRaise(script, []);
    RaiseHeldRaises(ending, produced);
    DeliveriesRaiseNothing(ending.events, produced);
    assert Nth(script, ending, |Varied(script, ending)|).item ==
      if ending.error.Some? then Raise(ending.error.value) else Stop;
    forall n: nat
      ensures Nth(script, ending, n).item.Stop? ==> ending.error.None?
    {
      NoStopAmong(script, ending, n);
    }
  }

  lemma NoStopAmong<E>(script: seq<Feed<E>>, ending: Feed<E>, n: nat)
    ensures Nth(script, ending, n).item.Stop? ==> n >= |Varied(script, ending)| && ending.error.None?
  {
    BlocksDoNotStop(script, []);
  }

  lemma {:induction false} BlocksDoNotStop<E>(fs: seq<Feed<E>>, before: seq<E>)
    ensures forall a <- BlockAnswers(fs, before) :: !a.item.Stop?
    decreases fs
  {
    if fs != [] {
      BlocksDoNotStop(fs[1..], before + fs[0].events);
    }
  }

  /** An event that an error overtakes: a file of one block that is without an event yet, whose closing produces
      one event and fails. The first call raises the error, and the second one delivers the event. */
  lemma Overtaken<E>(e: E)
    ensures var script, ending := [Feed([], None)], Feed([e], Some(1));
      && Nth(script, ending, 0).item == Raise(1) && Nth(script, ending, 1).item == Item(e)
      && Early(script, ending, 0)
  {
    var script: seq<Feed<E>> := [Feed([], None)];
    var ending := Feed([e], Some(1));
    assert script[1..] == [] && Events(script) == [] && Events(script) + [e] == [e];
    assert BlockAnswers(script, []) == [];
    assert Varied(script, ending) == [Answer(Raise(1), [e]), Answer(Item(e), [e])];
    EarlyIff(script, ending, 0);
  }

  // ---------------------------------------------------------------------------
  // The iterator
  // ---------------------------------------------------------------------------

  lemma NextInLine<E>(done: seq<E>, events: seq<E>, i: nat)
    requires i < |events|
    ensures done + [events[i]] + events[i + 1..] == done + events[i..]
  {
  }

  /** The answers from call n on, until they repeat. */
  function VariedFrom<E>(script: seq<Feed<E>>, ending: Feed<E>, n: nat): seq<Answer<E>> {
    if n <= |Varied(script, ending)| then Varied(script, ending)[n..] else []
  }

  /** One call: the first of the answers that remain, and what remains after it. */
  lemma CallOneMore<E>(script: seq<Feed<E>>, ending: Feed<E>, n: nat)
    ensures var left := VariedFrom(script, ending, n);
      if left != [] then Nth(script, ending, n) == left[0] && VariedFrom(script, ending, n + 1) == left[1..]
      else
        && VariedFrom(script, ending, n + 1) == []
        && Nth(script, ending, n)
           == Answer(if ending.error.Some? then Raise(ending.error.value) else Stop, Events(script) + ending.events)
    ensures Delivered(FirstAnswers(script, ending, n + 1)) == Delivered(FirstAnswers(script, ending, n))
      + if Nth(script, ending, n).item.Item? then [Nth(script, ending, n).item.event] else []
  {
    hide Varied;
    var a := Nth(script, ending, n);
    assert FirstAnswers(script, ending, n + 1) == FirstAnswers(script, ending, n) + [a];
    DeliveredAppend(FirstAnswers(script, ending, n), [a]);
    assert [a][1..] == [];
  }

  /** The answers that a state of the iterator still holds: the buffer, the error held back, and, unless the parser
      has been closed, what the blocks to come and the closing add. */
  function Pending<E>(buffer: seq<E>, error: Option<nat>, produced: seq<E>, toCome: seq<Feed<E>>,
                      ending: Feed<E>, inBlocks: seq<E>, closed: bool): seq<Answer<E>> {
    Deliveries(buffer, produced) + (RaiseHeld(error, produced) +
    if closed then [] else BlockAnswers(toCome, produced) + CloseAnswers(ending, inBlocks))
  }

  lemma PendingEvent<E>(buffer: seq<E>, error: Option<nat>, produced: seq<E>, toCome: seq<Feed<E>>,
                        ending: Feed<E>, inBlocks: seq<E>, closed: bool)
    requires buffer != []
    ensures Pending(buffer, error, produced, toCome, ending, inBlocks, closed)
      == [Answer(Item(buffer[0]), produced)] + Pending(buffer[1..], error, produced, toCome, ending, inBlocks, closed)
  {
    var more := RaiseHeld(error, produced)
      + if closed then [] else BlockAnswers(toCome, produced) + CloseAnswers(ending, inBlocks);
    assert Deliveries(buffer, produced) == [Answer(Item(buffer[0]), produced)] + Deliveries(buffer[1..], produced);
    Assoc([Answer(Item(buffer[0]), produced)], Deliveries(buffer[1..], produced), more);
  }

  lemma PendingError<E>(error: nat, produced: seq<E>, toCome: seq<Feed<E>>,
                        ending: Feed<E>, inBlocks: seq<E>, closed: bool)
    ensures Pending([], Some(error), produced, toCome, ending, inBlocks, closed)
      == [Answer(Raise(error), produced)] + Pending([], None, produced, toCome, ending, inBlocks, closed)
  {
  }

  lemma PendingBlock<E>(produced: seq<E>, toCome: seq<Feed<E>>, ending: Feed<E>, inBlocks: seq<E>)
    requires toCome != []
    ensures Pending([], None, produced, toCome, ending, inBlocks, false)
      == Pending(toCome[0].events, toCome[0].error, produced + toCome[0].events, toCome[1..], ending, inBlocks, false)
  {
    var after := produced + toCome[0].events;
    var a, b := Deliveries(toCome[0].events, after), RaiseHeld(toCome[0].error, after);
    var c, d := BlockAnswers(toCome[1..], after), CloseAnswers(ending, inBlocks);
    assert BlockAnswers(toCome, produced) == a + b + c;
    Assoc(a, b, c);
    Assoc(a, b + c, d);
    Assoc(b, c, d);
  }

  lemma PendingClose<E>(ending: Feed<E>, inBlocks: seq<E>)
    ensures Pending([], None, inBlocks, [], ending, inBlocks, false)
      == RaiseHeld(ending.error, inBlocks + ending.events)
         + Pending(ending.events, None, inBlocks + ending.events, [], ending, inBlocks, true)
  {
  }

  lemma PendingNothing<E>(produced: seq<E>, toCome: seq<Feed<E>>, ending: Feed<E>, inBlocks: seq<E>)
    ensures Pending([], None, produced, toCome, ending, inBlocks, true) == []
  {
  }

  lemma PendingAtFirst<E>(script: seq<Feed<E>>, ending: Feed<E>)
    ensures Pending([], None, [], script, ending, Events(script), false) == VariedFrom(script, ending, 0)
    ensures Delivered(FirstAnswers(script, ending, 0)) == []
  {
  }

  class IterParseIterator<E> {
    const script: seq<Feed<E>>     // what the blocks of the file do to the parser
    const ending: Feed<E>          // what closing the parser does
    var events: seq<E>
    var index: nat
    var error: Option<nat>
    var parsing: bool              // _parser is not None
    var blocks: nat                // how many blocks have been read
    var closeFailed: bool          // closing has raised an error; closing again raises it again
    ghost var fed: seq<Feed<E>>    // what the parser has done so far
    ghost var delivered: seq<E>
    ghost var raised: seq<nat>
    ghost var calls: nat           // how many calls of next have been answered

    /** The events delivered and the events buffered are all events produced so far, in order; the errors raised
        and the error held back are all errors so far, in order; and the parser has done what the file says. */
    ghost predicate Valid()
      reads this
    {
      && index <= |events|
      && delivered + events[index..] == Events(fed)
      && raised + (if error.Some? then [error.value] else []) == Errors(fed)
      && blocks <= |script| && blocks <= |fed| && fed[..blocks] == script[..blocks]
      && (|fed| > blocks ==> blocks == |script| && fed[blocks] == ending)
      && (forall i :: blocks < i < |fed| ==> fed[i] == Feed([], ending.error))
      && (!parsing ==> |fed| == |script| + 1 && error.None? && ending.error.None?)
      && (parsing ==> (closeFailed <==> |fed| > blocks))
      && (closeFailed ==> parsing && ending.error.Some? && error.None?)
    }

    /** The answers that the state still holds. */
    ghost function Left(): seq<Answer<E>>
      requires Valid()
      reads this
    {
      Pending(events[index..], error, Events(fed), script[blocks..], ending, Events(script), !parsing || closeFailed)
    }

    /** The run so far is the run that the file determines. */
    ghost predicate OnTrack()
      requires Valid()
      reads this
    {
      && Left() == VariedFrom(script, ending, calls)
      && delivered == Delivered(FirstAnswers(script, ending, calls))
      && (!parsing || closeFailed ==> Events(fed) == Events(script) + ending.events)
    }

    constructor (script: seq<Feed<E>>, ending: Feed<E>)
      ensures Valid() && OnTrack() && this.script == script && this.ending == ending
      ensures fed == [] && delivered == [] && raised == [] && calls == 0
    {
      this.script, this.ending := script, ending;
      events, index, error, parsing, blocks, closeFailed := [], 0, None, true, 0, false;
      fed, delivered, raised, calls := [], [], [], 0;
      new;
      PendingAtFirst(script, ending);
      assert script[0..] == script;
    }

    /** next. It gives the answer that the file determines, as long as it is called. In terms of the parser: an
        error from a block is raised after every event produced before it has been delivered; an error from
        closing the parser is raised at once, early if closing has produced an event. The end is reported only
        when the file has been read, the parser closed, and everything delivered and raised. */
    method Next() returns (r: Item<E>)
      requires Valid() && OnTrack()
      modifies this
      ensures Valid() && OnTrack() && calls == old(calls) + 1 && old(fed) <= fed
      ensures Nth(script, ending, old(calls)) == Answer(r, Events(fed))
      ensures r.Item? ==> delivered == old(delivered) + [r.event] && raised == old(raised)
      ensures r.Raise? ==> delivered == old(delivered) && raised == old(raised) + [r.error] == Errors(fed)
      ensures r.Raise? ==> (delivered == Events(fed) <==> (|fed| == |script| + 1 ==> ending.events == []))
      ensures r.Stop? ==> fed == script + [ending] && delivered == old(delivered) == Events(fed)
      ensures r.Stop? ==> raised == old(raised) == Errors(fed)
    {
      hide Events;
      hide Errors;
      hide Pending;
      hide VariedFrom;
      hide Delivered;
      hide FirstAnswers;
      hide Nth;
      hide Varied;
      hide RaiseHeld;
      hide Valid;
      CallOneMore(script, ending, calls);
      while true
        invariant Valid() && OnTrack() && old(fed) <= fed && calls == old(calls)
        invariant delivered == old(delivered) && raised == old(raised)
        decreases |script| - blocks, parsing
      {
        AtMost();
        if index < |events| {
          r := Deliver();
          Answered();
          return;
        }
        if error.Some? {
          r := RaiseError();
          Answered();
          return;
        }
        if !parsing {
          AtTheEnd();
          Answered();
          return Stop;
        }
        var e := LoadMore();
        if e.Some? {
          Answered();
          return Raise(e.value);
        }
      }
    }

    /** One more call has been answered. */
    ghost method Answered()
      requires Valid()
      modifies `calls
      ensures Valid() && calls == old(calls) + 1 && Left() == old(Left())
    {
      calls := calls + 1;
    }

    lemma AtMost()
      requires Valid()
      ensures index <= |events|
    {
    }

    /** When the parser is gone and the buffer is empty, everything has been delivered and raised. */
    lemma AtTheEnd()
      requires Valid() && !parsing && index == |events| && error.None?
      ensures fed == script + [ending] && delivered == Events(fed) && raised == Errors(fed)
      ensures Left() == [] && ending.error.None?
    {
      assert events[index..] == [];
      PendingNothing(Events(fed), script[blocks..], ending, Events(script));
      hide Events;
      hide Errors;
      hide Pending;
    }

    /** The event buffer is loaded from the next block, or from closing the parser, whose error is raised at once. */
    method LoadMore() returns (e: Option<nat>)
      requires Valid() && OnTrack() && index == |events| && error.None? && parsing
      modifies `events, `index, `error, `parsing, `blocks, `closeFailed, `fed, `raised
      ensures Valid() && old(fed) <= fed && old(blocks) <= |script|
      ensures e.None? ==> OnTrack() && raised == old(raised)
      ensures e.None? ==> |script| - blocks < |script| - old(blocks) || (blocks == old(blocks) && !parsing)
      ensures e.Some? ==> Nth(script, ending, calls) == Answer(Raise(e.value), Events(fed))
      ensures e.Some? ==> Left() == VariedFrom(script, ending, calls + 1)
      ensures e.Some? ==> parsing && closeFailed && Events(fed) == Events(script) + ending.events
      ensures e.Some? ==> raised == old(raised) + [e.value] == Errors(fed)
      ensures e.Some? ==> (delivered == Events(fed) <==> (|fed| == |script| + 1 ==> ending.events == []))
    {
      hide Events;
      hide Errors;
      hide Pending;
      hide VariedFrom;
      hide Delivered;
      hide FirstAnswers;
      hide Nth;
      hide Varied;
      CallOneMore(script, ending, calls);
      e := None;
      if blocks < |script| {
        FeedBlock();
      } else {
        e := CloseParser();
      }
    }

    /** The next event of the buffer is delivered. */
    method Deliver() returns (r: Item<E>)
      requires Valid() && index < |events|
      modifies `index, `delivered
      ensures Valid() && r.Item? && delivered == old(delivered) + [r.event]
      ensures old(Left()) == [Answer(r, Events(fed))] + Left()
    {
      hide Events;
      hide Errors;
      hide Pending;
      assert events[index..][1..] == events[index + 1..];
      PendingEvent(events[index..], error, Events(fed), script[blocks..], ending, Events(script),
                   !parsing || closeFailed);
      NextInLine(delivered, events, index);
      r := Item(events[index]);
      delivered := delivered + [events[index]];
      index := index + 1;
    }

    /** The error that is held back is raised. */
    method RaiseError() returns (r: Item<E>)
      requires Valid() && index == |events| && error.Some?
      modifies `error, `raised
      ensures Valid() && r.Raise? && error.None? && raised == old(raised) + [r.error] == Errors(fed)
      ensures old(Left()) == [Answer(r, Events(fed))] + Left()
      ensures delivered == Events(fed) && |fed| <= |script|
    {
      hide Events;
      hide Errors;
      hide Pending;
      assert events[index..] == [];
      PendingError(error.value, Events(fed), script[blocks..], ending, Events(script), !parsing || closeFailed);
      r := Raise(error.value);
      raised := raised + [error.value];
      error := None;
    }

    /** The buffer is emptied and the next block is fed to the parser; an error is held back. */
    method FeedBlock()
      requires Valid() && index == |events| && error.None? && parsing && blocks < |script|
      modifies `events, `index, `error, `blocks, `fed
      ensures Valid() && fed == old(fed) + [script[old(blocks)]] && blocks == old(blocks) + 1
      ensures Left() == old(Left())
    {
      var feed := script[blocks];
      assert events[index..] == [] && script[blocks..][1..] == script[blocks + 1..];
      PendingBlock(Events(fed), script[blocks..], ending, Events(script));
      OneMoreFeed(fed, feed);
      hide Pending;
      hide Events;
      hide Errors;
      assert script[..blocks + 1] == script[..blocks] + [feed];
      fed := fed + [feed];
      blocks := blocks + 1;
      events, index, error := feed.events, 0, feed.error;
      assert events[index..] == events;
    }

    /** The buffer is emptied and the parser is closed; an error is raised at once. Closing again after a failure
        produces nothing and raises the same error. */
    method CloseParser() returns (e: Option<nat>)
      requires Valid() && index == |events| && error.None? && parsing && blocks == |script|
      requires closeFailed ==> Events(fed) == Events(script) + ending.events
      modifies `events, `index, `parsing, `closeFailed, `fed, `raised
      ensures Valid() && |fed| == |old(fed)| + 1 && old(fed) <= fed
      ensures Events(fed) == Events(script) + ending.events
      ensures Events(fed) == Events(old(fed)) + if old(closeFailed) then [] else ending.events
      ensures e == ending.error && closeFailed == e.Some?
      ensures e.None? ==> !parsing && raised == old(raised)
      ensures e.Some? ==> raised == old(raised) + [e.value] == Errors(fed) && delivered == Events(old(fed))
      ensures !old(closeFailed) ==>
        old(Left()) == (if e.Some? then [Answer(Raise(e.value), Events(fed))] else []) + Left()
      ensures old(closeFailed) ==> old(Left()) == Left() == []
    {
      hide Events;
      hide Errors;
      hide Pending;
      assert events[index..] == [] && script[blocks..] == [];
      var feed := if closeFailed then Feed([], ending.error) else ending;
      assert !closeFailed ==> fed == script;
      PendingClose(ending, Events(script));
      PendingNothing(Events(fed), [], ending, Events(script));
      OneMoreFeed(fed, feed);
      fed := fed + [feed];
      events, index := feed.events, 0;
      assert events[index..] == events;
      if feed.error.Some? {
        closeFailed := true;
        raised := raised + [feed.error.value];
        return feed.error;
      }
      parsing := false;
      return None;
    }
  }
}
