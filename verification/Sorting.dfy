/** Python's sorted on the items of a dictionary: pairs of strings in lexical order. */
module Sorting {

  /** The order on strings, by code points. */
  predicate StringLeq(a: string, b: string) {
    a == [] || (b != [] && (a[0] < b[0] || (a[0] == b[0] && StringLeq(a[1..], b[1..]))))
  }

  /** The order on pairs: the first components decide unless they are equal. */
  predicate PairLeq(x: (string, string), y: (string, string)) {
    if x.0 == y.0 then StringLeq(x.1, y.1) else StringLeq(x.0, y.0)
  }

  lemma {:induction false} StringTotal(a: string, b: string)
    ensures StringLeq(a, b) || StringLeq(b, a)
    ensures StringLeq(a, b) && StringLeq(b, a) ==> a == b
  {
    if a != [] && b != [] {
      StringTotal(a[1..], b[1..]);
      assert a == [a[0]] + a[1..] && b == [b[0]] + b[1..];
    }
  }

  lemma {:induction false} StringTransitive(a: string, b: string, c: string)
    requires StringLeq(a, b) && StringLeq(b, c)
    ensures StringLeq(a, c)
  {
    if a != [] && a[0] == b[0] == c[0] {
      StringTransitive(a[1..], b[1..], c[1..]);
    }
  }

  lemma PairTotal(x: (string, string), y: (string, string))
    ensures PairLeq(x, y) || PairLeq(y, x)
    ensures PairLeq(x, y) && PairLeq(y, x) ==> x == y
  {
    StringTotal(x.0, y.0);
    StringTotal(x.1, y.1);
  }

  lemma PairTransitive(x: (string, string), y: (string, string), z: (string, string))
    requires PairLeq(x, y) && PairLeq(y, z)
    ensures PairLeq(x, z)
  {
    if x.0 == y.0 == z.0 {
      StringTransitive(x.1, y.1, z.1);
    } else if x.0 != y.0 && y.0 != z.0 {
      StringTransitive(x.0, y.0, z.0);
      StringTotal(x.0, y.0);
    }
  }

  predicate IsLeast(x: (string, string), s: set<(string, string)>) {
    x in s && forall y <- s :: PairLeq(x, y)
  }

  lemma {:induction false} LeastExists(s: set<(string, string)>)
    requires s != {}
    ensures exists x :: IsLeast(x, s)
    decreases |s|
  {
    var x :| x in s;
    if s == {x} {
      PairTotal(x, x);
      assert IsLeast(x, s);
    } else {
      var r := s - {x};
      assert s == r + {x};
      LeastExists(r);
      var y :| IsLeast(y, r);
      PairTotal(x, y);
      PairTotal(x, x);
      if PairLeq(y, x) {
        assert IsLeast(y, s);
      } else {
        forall z <- s
          ensures PairLeq(x, z)
        {
          if z != x {
            PairTransitive(x, y, z);
          }
        }
        assert IsLeast(x, s);
      }
    }
  }

  lemma LeastIsUnique(x: (string, string), y: (string, string), s: set<(string, string)>)
    requires IsLeast(x, s) && IsLeast(y, s)
    ensures x == y
  {
    PairTotal(x, y);
  }

  function Least(s: set<(string, string)>): (x: (string, string))
    requires s != {}
    ensures IsLeast(x, s)
  {
    LeastExists(s);
    assert forall x, y :: IsLeast(x, s) && IsLeast(y, s) ==> x == y by {
      forall x, y | IsLeast(x, s) && IsLeast(y, s)
        ensures x == y
      {
        LeastIsUnique(x, y, s);
      }
    }
    var x :| IsLeast(x, s);
    x
  }

  /** The pairs of s in order, each once. */
  /** a and b agree up to i, and there a has the smaller character. */
  ghost predicate LessAt(a: string, b: string, i: nat) {
    i < |a| && i < |b| && a[..i] == b[..i] && a[i] < b[i]
  }

  lemma PrefixCons(a: string, b: string)
    requires a != [] && b != []
    ensures a <= b <==> a[0] == b[0] && a[1..] <= b[1..]
  {
    assert a == [a[0]] + a[1..] && b == [b[0]] + b[1..];
    if a <= b {
      assert b[..|a|][1..] == b[1..][..|a| - 1];
      assert b[..|a|][0] == b[0];
    }
    if a[0] == b[0] && a[1..] <= b[1..] {
      assert b[..|a|] == [b[0]] + b[1..][..|a| - 1];
    }
  }

  lemma LessAtCons(a: string, b: string, i: nat)
    requires a != [] && b != []
    ensures LessAt(a, b, i + 1) <==> a[0] == b[0] && LessAt(a[1..], b[1..], i)
  {
    if i + 1 <= |a| && i + 1 <= |b| {
      PrefixSplits(a, i);
      PrefixSplits(b, i);
    }
  }

  lemma PrefixSplits(a: string, i: nat)
    requires i + 1 <= |a|
    ensures a[..i + 1] == [a[0]] + a[1..][..i] && a[..i + 1][0] == a[0] && a[..i + 1][1..] == a[1..][..i]
  {
  }

  lemma LessAtFirst(a: string, b: string)
    requires a != [] && b != []
    ensures LessAt(a, b, 0) <==> a[0] < b[0]
  {
    assert a[..0] == b[..0];
  }

  /** The order on strings: a prefix comes first, and otherwise the smaller character at the first difference. */
  lemma {:induction false} StringLeqIff(a: string, b: string)
    ensures StringLeq(a, b) <==> a <= b || exists i: nat :: LessAt(a, b, i)
    decreases |a|
  {
    if a != [] && b != [] {
      var c, d := a[1..], b[1..];
      StringLeqIff(c, d);
      PrefixCons(a, b);
      LessAtFirst(a, b);
      if i: nat :| LessAt(c, d, i) {
        LessAtCons(a, b, i);
      }
      if i: nat :| LessAt(a, b, i) {
        if i > 0 {
          LessAtCons(a, b, i - 1);
        }
      }
      hide LessAt;
    }
  }

  /** The order on pairs: by the first string, and then by the second. */
  lemma PairLeqIff(x: (string, string), y: (string, string))
    ensures PairLeq(x, y) <==>
      if x.0 == y.0 then x.1 <= y.1 || exists i: nat :: LessAt(x.1, y.1, i)
      else x.0 <= y.0 || exists i: nat :: LessAt(x.0, y.0, i)
  {
    StringLeqIff(x.0, y.0);
    StringLeqIff(x.1, y.1);
    hide StringLeq;
    hide LessAt;
  }

  lemma SortedOne(x: (string, string))
    ensures Sorted({x}) == [x]
  {
    var r := Sorted({x});
    hide Sorted;
    assert |r| == 1 && r[0] in r;
  }

  /** Sorting two items. */
  lemma SortedTwo(x: (string, string), y: (string, string))
    requires PairLeq(x, y) && x != y
    ensures Sorted({x, y}) == [x, y]
  {
    var r := Sorted({x, y});
    hide Sorted;
    assert r[0] in r && r[1] in r;
    if r[0] == y {
      assert r[1] == x;
      PairTotal(x, y);
    }
  }

  function Sorted(s: set<(string, string)>): (r: seq<(string, string)>)
    ensures |r| == |s|
    ensures forall x :: x in r <==> x in s
    ensures forall i, j :: 0 <= i < j < |r| ==> PairLeq(r[i], r[j]) && r[i] != r[j]
    decreases |s|
  {
    if s == {} then []
    else
      var x := Least(s);
      var rest := Sorted(s - {x});
      ConsSorted(x, rest, s);
      [x] + rest
  }

  lemma ConsSorted(x: (string, string), rest: seq<(string, string)>, s: set<(string, string)>)
    requires IsLeast(x, s) && (forall y :: y in rest <==> y in s - {x}) && |rest| == |s - {x}|
    requires forall i, j :: 0 <= i < j < |rest| ==> PairLeq(rest[i], rest[j]) && rest[i] != rest[j]
    ensures var r := [x] + rest;
      && |r| == |s| && (forall y :: y in r <==> y in s)
      && (forall i, j :: 0 <= i < j < |r| ==> PairLeq(r[i], r[j]) && r[i] != r[j])
  {
    hide PairLeq;
    assert s == {x} + (s - {x});
    forall i | 0 <= i < |rest|
      ensures PairLeq(x, rest[i]) && rest[i] != x
    {
      assert rest[i] in rest;
    }
  }

  function Items(m: map<string, string>): (r: set<(string, string)>)
    ensures forall k, v :: (k, v) in r <==> k in m && m[k] == v
  {
    set k <- m :: (k, m[k])
  }
}
