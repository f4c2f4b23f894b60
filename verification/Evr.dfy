/** Epoch, version and release of a package: parsing and formatting. */
module Evr {
  import opened Basics

  /** stringToEVR. */
  function StringToEvr(s: string): (string, string, string) {
    var i := Find(s, ':');
    var epoch, rest := if i == |s| then "" else s[..i], if i == |s| then s else s[i + 1..];
    var p := SplitRelease(rest);
    (epoch, p.0, p.1)
  }

  /** The formatting expression in main. */
  function FormatEvr(e: string, v: string, r: string): string {
    (if e != "" then e + ":" else "") + (v + if r != "" then "-" + r else "")
  }

  lemma FindAbsent(s: string, c: char)
    ensures Find(s, c) == |s| <==> c !in s
  {
  }

  /** The version and release part. */
  function SplitRelease(rest: string): (string, string) {
    var j := Find(rest, '-');
    if j == |rest| then (rest, "") else (rest[..j], rest[j + 1..])
  }

  lemma ReleaseSplits(v: string, r: string)
    ensures SplitRelease(v + if r != "" then "-" + r else "") == (v, r) <==> '-' !in v
  {
    var rest := v + if r != "" then "-" + r else "";
    var j := Find(rest, '-');
    if '-' !in v {
      if r != "" {
        FindIn(v, '-', r);
        assert rest == v + (['-'] + r);
      } else {
        assert rest == v;
      }
    } else {
      var i :| 0 <= i < |v| && v[i] == '-';
      assert rest[i] == '-';
      assert j <= i;
    }
  }

  /** Parsing undoes formatting exactly when the separators are where the parser looks for them. */
  lemma FormatThenParse(e: string, v: string, r: string)
    ensures StringToEvr(FormatEvr(e, v, r)) == (e, v, r) <==>
      ':' !in e && '-' !in v && (e == "" ==> ':' !in v && ':' !in r)
  {
    var rest := v + if r != "" then "-" + r else "";
    ReleaseSplits(v, r);
    if e != "" {
      EpochSplits(e, rest);
    } else {
      assert FormatEvr(e, v, r) == rest;
      assert ':' in rest <==> ':' in v || ':' in r;
      if ':' in rest {
        ColonInVersion(v, r);
      } else {
        NoEpoch(rest);
      }
    }
    hide StringToEvr;
    hide SplitRelease;
  }

  lemma NoEpoch(rest: string)
    requires ':' !in rest
    ensures StringToEvr(rest) == ("", SplitRelease(rest).0, SplitRelease(rest).1)
  {
    FindAbsent(rest, ':');
    hide Find;
  }

  lemma EpochSplits(e: string, rest: string)
    ensures var p := StringToEvr(e + ":" + rest);
      if ':' in e then p.0 != e else p == (e, SplitRelease(rest).0, SplitRelease(rest).1)
  {
    var s := e + ":" + rest;
    Assoc(e, ":", rest);
    if ':' !in e {
      FindIn(e, ':', rest);
      hide Find;
    } else {
      ColonInEpoch(e, rest);
    }
  }

  /** An epoch with a colon is cut short. */
  lemma ColonInEpoch(e: string, rest: string)
    requires ':' in e
    ensures |StringToEvr(e + ":" + rest).0| < |e|
  {
    var s := e + (":" + rest);
    Assoc(e, ":", rest);
    Cut(e, ":" + rest);
    var i :| 0 <= i < |e| && e[i] == ':';
    assert s[i] == ':';
    assert Find(s, ':') <= i;
    hide Find;
  }

  /** Without an epoch, a colon in the version or the release is taken for the end of an epoch. */
  lemma ColonInVersion(v: string, r: string)
    requires ':' in v + if r != "" then "-" + r else ""
    ensures StringToEvr(v + if r != "" then "-" + r else "") != ("", v, r)
  {
    var s := v + if r != "" then "-" + r else "";
    FindAbsent(s, ':');
    var i := Find(s, ':');
    if i == 0 {
      var rest := s[1..];
      var j := Find(rest, '-');
      if r != "" {
        assert v != [];
        assert rest[|v| - 1] == s[|v|] == '-';
        assert j <= |v| - 1;
      }
    }
  }

  lemma ReleaseJoins(rest: string)
    ensures var (v, r) := SplitRelease(rest);
      var out := v + if r != "" then "-" + r else "";
      if Find(rest, '-') + 1 == |rest| then |out| < |rest| else out == rest
  {
    var j := Find(rest, '-');
    hide Find;
    if j < |rest| {
      CutAt(rest, j);
      assert "-" == [rest[j]];
    }
  }

  lemma EpochJoins(e: string, rest: string, out: string)
    requires |out| <= |rest|
    ensures (if e != "" then e + ":" else "") + out == e + ":" + rest <==> e != "" && out == rest
  {
    if e != "" {
      Cut(e + ":", out);
      Cut(e + ":", rest);
    } else {
      assert |"" + ":" + rest| == 1 + |rest|;
      assert |"" + out| == |out|;
    }
  }

  /** What formatting makes of the parts after the epoch. */
  function Rejoined(rest: string): string {
    SplitRelease(rest).0 + if SplitRelease(rest).1 != "" then "-" + SplitRelease(rest).1 else ""
  }

  /** Parsing and formatting again, in terms of the epoch and the rest. */
  lemma Reformatted(s: string)
    ensures var i := Find(s, ':');
      var (e, v, r) := StringToEvr(s);
      FormatEvr(e, v, r) ==
        if i == |s| then "" + Rejoined(s)
        else (if s[..i] != "" then s[..i] + ":" else "") + Rejoined(s[i + 1..])
  {
    hide *;
    var i := Find(s, ':');
    PartsOf(s);
    if i == |s| {
      FormatParts("", s);
    } else {
      FormatParts(s[..i], s[i + 1..]);
    }
  }

  lemma PartsOf(s: string)
    ensures var i := Find(s, ':');
      var p := SplitRelease(if i == |s| then s else s[i + 1..]);
      StringToEvr(s) == (if i == |s| then "" else s[..i], p.0, p.1)
  {
    hide Find;
    hide SplitRelease;
  }

  lemma FormatParts(e: string, rest: string)
    ensures FormatEvr(e, SplitRelease(rest).0, SplitRelease(rest).1)
            == (if e != "" then e + ":" else "") + Rejoined(rest)
  {
    hide SplitRelease;
  }

  /** Formatting undoes parsing exactly when the string does not start with a colon and the separator of the
      release, if there is one, is not its last character. */
  lemma ParseThenFormat(s: string)
    ensures var (e, v, r) := StringToEvr(s);
      FormatEvr(e, v, r) == s <==> !(s != "" && s[0] == ':') && !ReleaseIsEmpty(s)
  {
    Reformatted(s);
    hide StringToEvr;
    hide FormatEvr;
    var i := Find(s, ':');
    if i < |s| {
      var rest := s[i + 1..];
      ReleaseJoins(rest);
      assert s == s[..i] + ":" + rest;
      assert s[..i] != "" <==> s[0] != ':';
      hide Find;
      hide SplitRelease;
      EpochJoins(s[..i], rest, Rejoined(rest));
    } else {
      ReleaseJoins(s);
      assert "" + Rejoined(s) == Rejoined(s);
    }
  }

  /** The first dash after the epoch is the last character. */
  predicate ReleaseIsEmpty(s: string) {
    var i := Find(s, ':');
    var rest := if i == |s| then s else s[i + 1..];
    Find(rest, '-') + 1 == |rest|
  }
}
