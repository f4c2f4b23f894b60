/** The grub script: a pass over grub.conf that adds a missing initrd line after each kernel line. */
module Grub {
  import opened Basics

  // ---------------------------------------------------------------------------
  // Lines
  // ---------------------------------------------------------------------------

  /** grep "^[[:space:]]*word". */
  predicate IsTitle(line: string) {
    "title" <= StripLeft(line)
  }

  predicate IsKernel(line: string) {
    "kernel" <= StripLeft(line)
  }

  predicate IsInitrd(line: string) {
    "initrd" <= StripLeft(line)
  }

  /** The length of the run of characters that are not spaces at the start of s. */
  function WordLength(s: string): (n: nat)
    ensures n <= |s|
  {
    if s == [] || IsBlank(s[0]) then 0 else 1 + WordLength(s[1..])
  }

  /** The first sed: the word after "kernel" and one space, if another space follows it; otherwise the line. */
  function KernelPath(line: string): string {
    var s := StripLeft(line);
    if "kernel" <= s && |s| > 6 && IsBlank(s[6]) && WordLength(s[7..]) < |s[7..]| then s[7..][..WordLength(s[7..])]
    else line
  }

  /** The second sed: the first "vmlinuz" becomes "initramfs". */
  function ReplaceImage(s: string): string {
    if "vmlinuz" <= s then "initramfs" + s[7..]
    else if s == [] then []
    else [s[0]] + ReplaceImage(s[1..])
  }

  function InitrdName(line: string): string {
    ReplaceImage(KernelPath(line))
  }

  function InitrdLine(name: string): string {
    "\tinitrd " + name + ".img"
  }

  /** An argument that bash's echo takes for options. */
  predicate IsOption(line: string) {
    |line| > 1 && line[0] == '-' && forall i :: 1 <= i < |line| ==> line[i] in {'n', 'e', 'E'}
  }

  /** echo "$line": what it writes, as lines. Of a line of options nothing is left but the line end, and with n
      among them not even that. */
  function Echo(line: string): seq<string> {
    if !IsOption(line) then [line] else if 'n' in line then [] else [""]
  }

  predicate IsLost(line: string) {
    Echo(line) == []
  }

  /** Some lines, each passed through echo. */
  function EchoAll(ls: seq<string>): seq<string> {
    if ls == [] then [] else Echo(ls[0]) + EchoAll(ls[1..])
  }

  predicate NoOptions(ls: seq<string>) {
    forall l <- ls :: !IsOption(l)
  }

  /** echo copies exactly the files in which no line is a list of options. */
  lemma {:induction false} EchoCopiesIff(ls: seq<string>)
    ensures |EchoAll(ls)| <= |ls|
    ensures EchoAll(ls) == ls <==> NoOptions(ls)
    decreases ls
  {
    if ls != [] {
      EchoCopiesIff(ls[1..]);
      assert ls == [ls[0]] + ls[1..];
      if IsOption(ls[0]) && 'n' !in ls[0] {
        assert EchoAll(ls)[0] == "";
      }
    }
  }

  /** echo changes only lines of no kind, and makes them lines of no kind. */
  lemma EchoKinds(line: string)
    ensures Echo(line) == [line] || Echo(line) == [""] || Echo(line) == []
    ensures IsTitle(line) || IsKernel(line) || IsInitrd(line) ==> Echo(line) == [line]
    ensures !IsTitle("") && !IsKernel("") && !IsInitrd("")
    ensures forall l <- Echo(line) :: !IsOption(l)
  {
    assert "title"[0] == 't' && "kernel"[0] == 'k' && "initrd"[0] == 'i';
    assert IsOption(line) ==> StripLeft(line) == line && line[0] == '-';
  }

  lemma KindsDiffer(line: string)
    ensures !(IsTitle(line) && IsKernel(line))
    ensures !(IsTitle(line) && IsInitrd(line))
    ensures !(IsKernel(line) && IsInitrd(line))
  {
    assert "title"[0] == 't' && "kernel"[0] == 'k' && "initrd"[0] == 'i';
    var s := StripLeft(line);
    assert IsTitle(line) ==> s[0] == 't';
    assert IsKernel(line) ==> s[0] == 'k';
    assert IsInitrd(line) ==> s[0] == 'i';
  }

  lemma InitrdLineIsInitrd(name: string)
    ensures IsInitrd(InitrdLine(name)) && !IsKernel(InitrdLine(name)) && !IsTitle(InitrdLine(name))
    ensures !IsOption(InitrdLine(name))
  {
    var line := InitrdLine(name);
    var r := "initrd " + name + ".img";
    assert line[1..] == r;
    assert StripLeft(r) == r;
    assert StripLeft(line) == r;
    assert r[..6] == "initrd";
    KindsDiffer(line);
  }

  /** The word stands at i, with nothing but white space before it. */
  ghost predicate StandsAt(line: string, word: string, i: nat) {
    && i + |word| <= |line| && line[i..i + |word|] == word
    && forall j :: 0 <= j < i ==> line[j] in {' ', '\t', '\n', 11 as char, 12 as char, '\r'}
  }

  lemma {:induction false} PatternIs(line: string, word: string)
    requires word != [] && !IsBlank(word[0])
    ensures word <= StripLeft(line) <==> exists i: nat :: StandsAt(line, word, i)
    decreases |line|
  {
    if line != [] && IsBlank(line[0]) {
      var rest := line[1..];
      PatternIs(rest, word);
      if i: nat :| StandsAt(rest, word, i) {
        assert line[i + 1..i + 1 + |word|] == rest[i..i + |word|];
        assert forall j :: 0 < j < i + 1 ==> line[j] == rest[j - 1];
        assert StandsAt(line, word, i + 1);
      }
      if i: nat :| StandsAt(line, word, i) {
        assert i > 0 by {
          assert line[i..i + |word|][0] == line[i] == word[0];
        }
        assert line[i..i + |word|] == rest[i - 1..i - 1 + |word|];
        assert forall j :: 0 <= j < i - 1 ==> rest[j] == line[j + 1];
        assert StandsAt(rest, word, i - 1);
      }
    } else {
      if word <= line {
        assert line[0..|word|] == word;
        assert StandsAt(line, word, 0);
      }
      if i: nat :| StandsAt(line, word, i) {
        assert i == 0;
        assert line[0..|word|] == line[..|word|];
      }
    }
  }

  /** The three kinds of lines, as the patterns of the script have them. */
  lemma LineKinds(line: string)
    ensures IsTitle(line) <==> exists i: nat :: StandsAt(line, "title", i)
    ensures IsKernel(line) <==> exists i: nat :: StandsAt(line, "kernel", i)
    ensures IsInitrd(line) <==> exists i: nat :: StandsAt(line, "initrd", i)
  {
    assert "title"[0] == 't' && "kernel"[0] == 'k' && "initrd"[0] == 'i';
    PatternIs(line, "title");
    PatternIs(line, "kernel");
    PatternIs(line, "initrd");
  }

  // ---------------------------------------------------------------------------
  // The pass
  // ---------------------------------------------------------------------------

  /** A line of the output, with whether the script has added it. */
  datatype Out = Out(line: string, added: bool)

  /** A line of the file, copied. */
  function Copied(line: string): (os: seq<Out>)
    ensures LinesOf(os) == Echo(line) && forall o <- os :: !o.added
  {
    seq(|Echo(line)|, i requires 0 <= i < |Echo(line)| => Out(Echo(line)[i], false))
  }

  /** What the script still writes: seen says that the first title has been met, due is the name for the
      initrd line that is expected next. */
  function Emit(ls: seq<string>, seen: bool, due: Option<string>): seq<Out>
    decreases ls
  {
    if ls == [] then
      if due.Some? then [Out(InitrdLine(due.value), true)] else []
    else
      var own := Copied(ls[0]);
      if !seen && !IsTitle(ls[0]) then own + Emit(ls[1..], false, due)
      else if due.Some? then
        (if IsInitrd(ls[0]) then [] else [Out(InitrdLine(due.value), true)]) + own + Emit(ls[1..], true, None)
      else own + Emit(ls[1..], true, if IsKernel(ls[0]) then Some(InitrdName(ls[0])) else None)
  }

  function LinesOf(os: seq<Out>): (r: seq<string>)
    ensures |r| == |os|
  {
    seq(|os|, i requires 0 <= i < |os| => os[i].line)
  }

  /** The file that the script writes. */
  function Fix(ls: seq<string>): seq<string> {
    LinesOf(Emit(ls, false, None))
  }

  /** The plain lines still to be written. */
  function Rest(ls: seq<string>, seen: bool, due: Option<string>): seq<string> {
    LinesOf(Emit(ls, seen, due))
  }

  /** The read loop with its two flags. Flag is true until the first title, flag2 is false while an initrd line
      is due. */
  method FixFile(ls: seq<string>) returns (tmp: seq<string>)
    ensures tmp == Fix(ls)
  {
    tmp := [];
    var flag, flag2, initrdName := true, true, "";
    assert ls[0..] == ls;
    assert Rest(ls, false, None) == Fix(ls);
    hide Rest;
    hide Fix;
    hide IsTitle;
    hide IsKernel;
    hide IsInitrd;
    hide InitrdName;
    hide InitrdLine;
    hide Echo;
    for i := 0 to |ls|
      invariant flag ==> flag2
      invariant tmp + Rest(ls[i..], !flag, if flag2 then None else Some(initrdName)) == Fix(ls)
    {
      var line := ls[i];
      assert ls[i..][1..] == ls[i + 1..];
      RestOne(ls[i..], !flag, if flag2 then None else Some(initrdName));
      if flag {
        if IsTitle(line) {
          flag := false;
        } else {
          Assoc(tmp, Echo(line), Rest(ls[i + 1..], false, None));
          tmp := tmp + Echo(line);
          continue;
        }
      }
      if !flag2 {
        if !IsInitrd(line) {
          Assoc(tmp, [InitrdLine(initrdName)], Echo(line) + Rest(ls[i + 1..], true, None));
          tmp := tmp + [InitrdLine(initrdName)];
        }
        flag2 := true;
      } else if IsKernel(line) {
        initrdName := InitrdName(line);
        flag2 := false;
      }
      Assoc(tmp, Echo(line), Rest(ls[i + 1..], true, if flag2 then None else Some(initrdName)));
      tmp := tmp + Echo(line);
    }
    assert ls[|ls|..] == [];
    RestNone(!flag, if flag2 then None else Some(initrdName));
    if !flag2 {
      tmp := tmp + [InitrdLine(initrdName)];
    }
  }

  lemma RestNone(seen: bool, due: Option<string>)
    ensures Rest([], seen, due) == if due.Some? then [InitrdLine(due.value)] else []
  {
  }

  /** The first step of Emit, on plain lines. */
  lemma RestOne(ls: seq<string>, seen: bool, due: Option<string>)
    requires ls != [] && (!seen ==> due.None?)
    ensures Rest(ls, seen, due) ==
      if !seen && !IsTitle(ls[0]) then Echo(ls[0]) + Rest(ls[1..], false, None)
      else if due.Some? then
        (if IsInitrd(ls[0]) then Echo(ls[0]) + Rest(ls[1..], true, None)
         else [InitrdLine(due.value)] + (Echo(ls[0]) + Rest(ls[1..], true, None)))
      else Echo(ls[0]) + Rest(ls[1..], true, if IsKernel(ls[0]) then Some(InitrdName(ls[0])) else None)
  {
    hide IsTitle;
    hide IsKernel;
    hide IsInitrd;
    hide InitrdLine;
    hide InitrdName;
    hide Echo;
  }

  // ---------------------------------------------------------------------------
  // Nothing is lost
  // ---------------------------------------------------------------------------

  /** The lines that the script has not added. */
  function Original(os: seq<Out>): seq<string> {
    if os == [] then [] else (if os[0].added then [] else [os[0].line]) + Original(os[1..])
  }

  lemma {:induction false} OriginalCopied(line: string, rest: seq<Out>)
    ensures Original(Copied(line) + rest) == Echo(line) + Original(rest)
  {
    var own := Copied(line);
    if own == [] {
      assert own + rest == rest;
    } else {
      assert (own + rest)[1..] == rest;
      assert LinesOf(own)[0] == own[0].line;
    }
  }

  lemma OriginalAdded(o: Out, rest: seq<Out>)
    requires o.added
    ensures Original([o] + rest) == Original(rest)
  {
    assert ([o] + rest)[1..] == rest;
  }

  /** What is written for one line and after it. */
  lemma EmitCons(ls: seq<string>, seen: bool, due: Option<string>)
    requires ls != []
    ensures var now := seen || IsTitle(ls[0]);
      var next := if !now then due else if due.Some? || !IsKernel(ls[0]) then None else Some(InitrdName(ls[0]));
      var tail := Copied(ls[0]) + Emit(ls[1..], now, next);
      Emit(ls, seen, due) ==
        if now && due.Some? && !IsInitrd(ls[0]) then [Out(InitrdLine(due.value), true)] + tail else tail
  {
    hide IsTitle;
    hide IsKernel;
    hide IsInitrd;
    hide InitrdName;
    hide InitrdLine;
    hide Copied;
    var now := seen || IsTitle(ls[0]);
    var next := if !now then due else if due.Some? || !IsKernel(ls[0]) then None else Some(InitrdName(ls[0]));
    if now && due.Some? {
      Assoc(if IsInitrd(ls[0]) then [] else [Out(InitrdLine(due.value), true)], Copied(ls[0]),
            Emit(ls[1..], now, next));
    }
  }

  /** Deleting the added lines gives back the file, line by line, as echo copies it. */
  lemma {:induction false} AddedLinesErase(ls: seq<string>, seen: bool, due: Option<string>)
    ensures Original(Emit(ls, seen, due)) == EchoAll(ls)
    decreases ls
  {
    hide IsTitle;
    hide IsKernel;
    hide IsInitrd;
    hide InitrdName;
    hide InitrdLine;
    hide Echo;
    hide Copied;
    if ls == [] {
      if due.Some? {
        OriginalAdded(Out(InitrdLine(due.value), true), []);
      }
    } else {
      EmitCons(ls, seen, due);
      hide Emit;
      hide Original;
      var now := seen || IsTitle(ls[0]);
      var next := if !now then due else if due.Some? || !IsKernel(ls[0]) then None else Some(InitrdName(ls[0]));
      AddedLinesErase(ls[1..], now, next);
      OriginalCopied(ls[0], Emit(ls[1..], now, next));
      if due.Some? {
        OriginalAdded(Out(InitrdLine(due.value), true), Copied(ls[0]) + Emit(ls[1..], now, next));
      }
    }
  }

  /** Deleting the added lines gives back the file itself exactly when echo takes none of its lines for options. */
  lemma ErasureIff(ls: seq<string>)
    ensures Original(Emit(ls, false, None)) == ls <==> NoOptions(ls)
  {
    AddedLinesErase(ls, false, None);
    EchoCopiesIff(ls);
  }

  lemma NoTitle(line: string)
    requires line != [] && !IsBlank(line[0]) && line[0] != 't'
    ensures !IsTitle(line)
  {
    assert "title"[0] == 't';
  }

  lemma FixIsRest(ls: seq<string>)
    ensures Fix(ls) == Rest(ls, false, None)
  {
  }

  /** A line that is a list of options does not get through: one with n is lost, any other is blanked. */
  lemma OptionsAreLost()
    ensures Fix(["-n", "default=0"]) == ["default=0"] && Fix(["-e"]) == [""]
    ensures Echo("-ne") == [] && Echo("-E") == [""] && Echo("-x") == ["-x"] && Echo("-") == ["-"]
  {
    assert "-x"[1] == 'x';
    NoTitle("-n");
    NoTitle("default=0");
    NoTitle("-e");
    RestOne(["-n", "default=0"], false, None);
    RestOne(["default=0"], false, None);
    RestOne(["-e"], false, None);
    RestNone(false, None);
    hide IsTitle;
    hide Rest;
    assert ["-n", "default=0"][1..] == ["default=0"] && ["default=0"][1..] == [] && ["-e"][1..] == [];
    assert Echo("-n") == [] && Echo("-e") == [""] && Echo("default=0") == ["default=0"];
    FixIsRest(["-n", "default=0"]);
    FixIsRest(["-e"]);
    hide Fix;
    hide Echo;
  }

  /** The lines, none of them added. */
  function CopiedAll(ls: seq<string>): seq<Out> {
    if ls == [] then [] else Copied(ls[0]) + CopiedAll(ls[1..])
  }

  /** Up to the first title the file is copied. */
  lemma {:induction false} BeforeTitle(ls: seq<string>, t: nat)
    requires t <= |ls| && forall i :: 0 <= i < t ==> !IsTitle(ls[i])
    ensures Emit(ls, false, None) == CopiedAll(ls[..t]) + Emit(ls[t..], false, None)
    decreases t
  {
    hide IsTitle;
    hide IsKernel;
    hide IsInitrd;
    hide Copied;
    if t == 0 {
      assert ls[0..] == ls;
    } else {
      BeforeTitle(ls[1..], t - 1);
      assert ls[1..][t - 1..] == ls[t..];
      assert ls[..t][1..] == ls[1..][..t - 1];
      Assoc(Copied(ls[0]), CopiedAll(ls[1..][..t - 1]), Emit(ls[t..], false, None));
    }
  }

  // ---------------------------------------------------------------------------
  // Every kernel line gets its initrd line
  // ---------------------------------------------------------------------------

  /** Every kernel line from the first title on is immediately followed by an initrd line. */
  predicate Complete(ls: seq<string>, seen: bool)
    decreases ls
  {
    ls == [] ||
    var now := seen || IsTitle(ls[0]);
    && (now && IsKernel(ls[0]) ==> |ls| > 1 && IsInitrd(ls[1]))
    && Complete(ls[1..], now)
  }

  /** The same, line by line. */
  lemma {:induction false} CompleteFrom(ls: seq<string>, i: nat, seen: bool)
    requires i <= |ls|
    ensures Complete(ls[i..], seen) <==>
      forall j :: i <= j < |ls| && (seen || TitleAmong(ls, i, j)) && IsKernel(ls[j]) ==>
        j + 1 < |ls| && IsInitrd(ls[j + 1])
    decreases |ls| - i
  {
    hide IsTitle;
    hide IsKernel;
    hide IsInitrd;
    if i < |ls| {
      var now := seen || IsTitle(ls[i]);
      CompleteFrom(ls, i + 1, now);
      assert ls[i..][1..] == ls[i + 1..] && ls[i..][0] == ls[i];
      assert i + 1 < |ls| ==> ls[i..][1] == ls[i + 1];
      forall j | i <= j < |ls|
        ensures seen || TitleAmong(ls, i, j) <==> now || (j > i && TitleAmong(ls, i + 1, j))
      {
      }
      hide TitleAmong;
    }
  }

  /** A title stands among the lines from i to j. */
  ghost predicate TitleAmong(ls: seq<string>, i: nat, j: nat) {
    exists k :: i <= k <= j && k < |ls| && IsTitle(ls[k])
  }

  lemma CompleteMeans(ls: seq<string>)
    ensures Complete(ls, false) <==> forall j :: 0 <= j < |ls| && TitleAmong(ls, 0, j) && IsKernel(ls[j]) ==>
      j + 1 < |ls| && IsInitrd(ls[j + 1])
  {
    CompleteFrom(ls, 0, false);
    assert ls[0..] == ls;
  }

  /** The index of the first title, or |ls|. */
  function FirstTitle(ls: seq<string>): (t: nat)
    ensures t <= |ls| && (forall i :: 0 <= i < t ==> !IsTitle(ls[i])) && (t < |ls| ==> IsTitle(ls[t]))
  {
    if ls == [] || IsTitle(ls[0]) then 0 else 1 + FirstTitle(ls[1..])
  }

  /** How many kernel lines, from line t on, stand next to each other and end with line i. */
  function KernelRun(ls: seq<string>, t: nat, i: nat): nat
    requires i < |ls|
  {
    if i < t || !IsKernel(ls[i]) then 0 else if i == 0 then 1 else 1 + KernelRun(ls, t, i - 1)
  }

  /** The first line that echo does not lose is an initrd line. */
  predicate StartsWithInitrd(ls: seq<string>) {
    ls != [] && (IsInitrd(ls[0]) || (IsLost(ls[0]) && StartsWithInitrd(ls[1..])))
  }

  /** The condition on the input: a kernel line in an even place among neighbouring kernel lines has an initrd
      line of its own already. It holds in particular when no two kernel lines are neighbours. */
  predicate EvenOnesServed(ls: seq<string>) {
    forall i :: FirstTitle(ls) <= i < |ls| && IsKernel(ls[i]) && KernelRun(ls, FirstTitle(ls), i) % 2 == 0 ==>
      StartsWithInitrd(ls[i + 1..])
  }

  /** The same condition read from line to line; odd says that the line before is in an odd place. */
  predicate Served(ls: seq<string>, seen: bool, odd: bool)
    decreases ls
  {
    ls == [] ||
    if !seen && !IsTitle(ls[0]) then Served(ls[1..], false, false)
    else
      && (IsKernel(ls[0]) && odd ==> StartsWithInitrd(ls[1..]))
      && Served(ls[1..], true, IsKernel(ls[0]) && !odd)
  }

  lemma {:induction false} RestStarts(ls: seq<string>, seen: bool, due: Option<string>)
    requires !seen ==> due.None?
    ensures due.Some? ==> Rest(ls, seen, due) != [] && IsInitrd(Rest(ls, seen, due)[0])
    ensures due.None? ==> (Rest(ls, seen, due) != [] && IsInitrd(Rest(ls, seen, due)[0]) <==> StartsWithInitrd(ls))
    decreases ls
  {
    if ls == [] {
      RestNone(seen, due);
    } else {
      RestOne(ls, seen, due);
      EchoKinds(ls[0]);
      if due.None? && IsLost(ls[0]) {
        RestStarts(ls[1..], seen, None);
      }
    }
    if due.Some? {
      InitrdLineIsInitrd(due.value);
    }
    hide IsInitrd;
    hide IsTitle;
    hide IsKernel;
    hide InitrdLine;
    hide Rest;
  }

  /** One line in front of complete ones. */
  lemma CompleteOne(line: string, rest: seq<string>, seen: bool)
    ensures Complete([line] + rest, seen) <==>
      ((seen || IsTitle(line)) && IsKernel(line) ==> rest != [] && IsInitrd(rest[0]))
      && Complete(rest, seen || IsTitle(line))
  {
    assert ([line] + rest)[1..] == rest;
  }

  /** The same when the line has gone through echo. */
  lemma CompleteEchoed(line: string, rest: seq<string>, seen: bool)
    ensures Complete(Echo(line) + rest, seen) <==>
      ((seen || IsTitle(line)) && IsKernel(line) ==> rest != [] && IsInitrd(rest[0]))
      && Complete(rest, seen || IsTitle(line))
  {
    EchoKinds(line);
    CompleteOne(line, rest, seen);
    CompleteOne("", rest, seen);
    assert [] + rest == rest;
    hide Complete;
    hide IsTitle;
    hide IsKernel;
    hide IsInitrd;
  }

  /** The output is complete exactly when the input meets the condition. */
  lemma {:induction false} EmitComplete(ls: seq<string>, seen: bool, due: Option<string>)
    requires !seen ==> due.None?
    ensures Complete(Rest(ls, seen, due), seen) <==> Served(ls, seen, due.Some?)
    decreases ls
  {
    if ls == [] {
      RestNone(seen, due);
      if due.Some? {
        InitrdLineIsInitrd(due.value);
        assert [InitrdLine(due.value)][1..] == [];
      }
    } else {
      var line, more := ls[0], ls[1..];
      KindsDiffer(line);
      RestOne(ls, seen, due);
      hide IsTitle;
      hide IsKernel;
      hide IsInitrd;
      hide Rest;
      hide Echo;
      hide Complete;
      if !seen && !IsTitle(line) {
        EmitComplete(more, false, None);
        CompleteEchoed(line, Rest(more, false, None), false);
      } else if due.Some? {
        EmitComplete(more, true, None);
        RestStarts(more, true, None);
        CompleteEchoed(line, Rest(more, true, None), seen);
        if !IsInitrd(line) {
          InitrdLineIsInitrd(due.value);
          CompleteOne(InitrdLine(due.value), Echo(line) + Rest(more, true, None), seen);
        }
      } else {
        var next := if IsKernel(line) then Some(InitrdName(line)) else None;
        EmitComplete(more, true, next);
        RestStarts(more, true, next);
        CompleteEchoed(line, Rest(more, true, next), seen);
      }
    }
  }

  lemma KernelRunBefore(ls: seq<string>, t: nat, i: nat)
    requires i < |ls|
    ensures KernelRun(ls, t, i) % 2 == 1 <==> t <= i && IsKernel(ls[i]) && !(i > 0 && KernelRun(ls, t, i - 1) % 2 == 1)
  {
    if i > 0 && t == i {
      assert KernelRun(ls, t, i - 1) == 0;
    }
  }

  /** The condition for line j. */
  predicate ServedAt(ls: seq<string>, t: nat, j: nat)
    requires j < |ls|
  {
    t <= j && IsKernel(ls[j]) && KernelRun(ls, t, j) % 2 == 0 ==> StartsWithInitrd(ls[j + 1..])
  }

  /** The condition from line i on. */
  ghost predicate ServedFrom(ls: seq<string>, t: nat, i: nat) {
    forall j :: i <= j < |ls| ==> ServedAt(ls, t, j)
  }

  lemma ServedFromNext(ls: seq<string>, t: nat, i: nat)
    requires i < |ls|
    ensures ServedFrom(ls, t, i) <==> ServedAt(ls, t, i) && ServedFrom(ls, t, i + 1)
  {
    hide ServedAt;
  }

  /** From the title on, reading line to line keeps track of the places among neighbouring kernel lines. */
  lemma {:induction false} ServedRuns(ls: seq<string>, t: nat, i: nat)
    requires t <= i <= |ls|
    ensures Served(ls[i..], true, i > t && KernelRun(ls, t, i - 1) % 2 == 1) <==> ServedFrom(ls, t, i)
    decreases |ls| - i
  {
    hide IsKernel;
    hide IsTitle;
    hide StartsWithInitrd;
    if i < |ls| {
      ServedRuns(ls, t, i + 1);
      ServedFromNext(ls, t, i);
      hide ServedFrom;
      KernelRunBefore(ls, t, i);
      if i == t && i > 0 {
        assert KernelRun(ls, t, i - 1) == 0;
      }
      hide KernelRun;
      assert ls[i..][1..] == ls[i + 1..];
      assert ls[i..][0] == ls[i];
    }
  }

  lemma {:induction false} ServedSkips(ls: seq<string>, i: nat)
    requires i <= FirstTitle(ls)
    ensures Served(ls, false, false) <==> Served(ls[i..], false, false)
    decreases i
  {
    hide IsKernel;
    hide IsTitle;
    hide IsInitrd;
    if i == 0 {
      assert ls[0..] == ls;
    } else {
      ServedSkips(ls, i - 1);
      assert ls[i - 1..][1..] == ls[i..];
    }
  }

  lemma ServedIsEvenOnes(ls: seq<string>)
    ensures Served(ls, false, false) <==> EvenOnesServed(ls)
  {
    var t := FirstTitle(ls);
    ServedSkips(ls, t);
    ServedRuns(ls, t, t);
    if ServedFrom(ls, t, t) {
      forall i | t <= i < |ls|
        ensures IsKernel(ls[i]) && KernelRun(ls, t, i) % 2 == 0 ==> StartsWithInitrd(ls[i + 1..])
      {
        assert ServedAt(ls, t, i);
      }
    }
    if t < |ls| {
      KindsDiffer(ls[t]);
      assert Served(ls[t..], false, false) <==> Served(ls[t..], true, false);
    }
  }

  /** Completeness, exactly: every kernel line from the first title on is immediately followed by an initrd line
      in the output if and only if every kernel line in an even place among neighbouring kernel lines already has
      an initrd line of its own in the input. */
  lemma CompleteIff(ls: seq<string>)
    ensures Complete(Fix(ls), false) <==> EvenOnesServed(ls)
  {
    EmitComplete(ls, false, None);
    ServedIsEvenOnes(ls);
  }

  ghost predicate NoNeighbours(ls: seq<string>, t: nat) {
    forall i :: t <= i < |ls| - 1 ==> !(IsKernel(ls[i]) && IsKernel(ls[i + 1]))
  }

  /** In particular for a file without neighbouring kernel lines after its first title. */
  lemma NoNeighboursComplete(ls: seq<string>)
    requires NoNeighbours(ls, FirstTitle(ls))
    ensures Complete(Fix(ls), false)
  {
    var t := FirstTitle(ls);
    hide NoNeighbours;
    hide FirstTitle;
    forall i | t <= i < |ls| && IsKernel(ls[i])
      ensures KernelRun(ls, t, i) == 1
    {
      LoneKernel(ls, t, i);
    }
    hide IsKernel;
    hide IsInitrd;
    hide KernelRun;
    assert EvenOnesServed(ls);
    hide Complete;
    hide Fix;
    CompleteIff(ls);
  }

  lemma LoneKernel(ls: seq<string>, t: nat, i: nat)
    requires t <= i < |ls| && IsKernel(ls[i])
    requires NoNeighbours(ls, t)
    ensures KernelRun(ls, t, i) == 1
  {
    hide IsKernel;
    if i > t {
      assert !IsKernel(ls[i - 1]);
    }
  }

  /** The script misses the second of two neighbouring kernel lines. */
  lemma NeighbourMissed()
    ensures !Complete(Fix(["title a", "kernel /vmlinuz-1 x", "kernel /vmlinuz-2 x", "boot"]), false)
  {
    var ls := ["title a", "kernel /vmlinuz-1 x", "kernel /vmlinuz-2 x", "boot"];
    assert ls[0][..5] == "title" && ls[1][..6] == "kernel" && ls[2][..6] == "kernel" && ls[3][0] == 'b';
    assert "initrd"[0] == 'i';
    assert FirstTitle(ls) == 0;
    KindsDiffer(ls[0]);
    assert KernelRun(ls, 0, 0) == 0;
    assert KernelRun(ls, 0, 1) == 1;
    assert KernelRun(ls, 0, 2) == 2;
    assert !StartsWithInitrd(ls[2 + 1..]);
    CompleteIff(ls);
  }

  // ---------------------------------------------------------------------------
  // Running the script again
  // ---------------------------------------------------------------------------

  /** A line in front of lines that meet the condition. */
  lemma ServedOne(line: string, rest: seq<string>, seen: bool, odd: bool)
    ensures Served([line] + rest, seen, odd) <==>
      if !seen && !IsTitle(line) then Served(rest, false, false)
      else (IsKernel(line) && odd ==> StartsWithInitrd(rest)) && Served(rest, true, IsKernel(line) && !odd)
  {
    assert ([line] + rest)[1..] == rest;
  }

  /** The same when the line has gone through echo. */
  lemma ServedEchoed(line: string, rest: seq<string>, seen: bool, odd: bool)
    ensures Served(Echo(line) + rest, seen, odd) <==>
      if IsLost(line) then Served(rest, seen, odd)
      else if !seen && !IsTitle(line) then Served(rest, false, false)
      else (IsKernel(line) && odd ==> StartsWithInitrd(rest)) && Served(rest, true, IsKernel(line) && !odd)
  {
    EchoKinds(line);
    ServedOne(line, rest, seen, odd);
    ServedOne("", rest, seen, odd);
    assert [] + rest == rest;
    hide Served;
    hide IsTitle;
    hide IsKernel;
    hide IsInitrd;
  }

  /** What the script writes meets the condition, whatever it was given. */
  lemma {:induction false} OutputServed(ls: seq<string>, seen: bool, due: Option<string>, odd: bool)
    requires !seen ==> due.None? && !odd
    ensures Served(Rest(ls, seen, due), seen, odd)
    decreases ls
  {
    if ls == [] {
      RestNone(seen, due);
      if due.Some? {
        InitrdLineIsInitrd(due.value);
        assert [InitrdLine(due.value)][1..] == [];
      }
    } else {
      var line, more := ls[0], ls[1..];
      KindsDiffer(line);
      EchoKinds(line);
      RestOne(ls, seen, due);
      hide IsTitle;
      hide IsKernel;
      hide IsInitrd;
      hide Rest;
      hide Served;
      hide IsOption;
      if !seen && !IsTitle(line) {
        OutputServed(more, false, None, false);
        ServedEchoed(line, Rest(more, false, None), seen, odd);
      } else if due.Some? {
        if IsInitrd(line) {
          OutputServed(more, true, None, false);
          ServedEchoed(line, Rest(more, true, None), seen, odd);
        } else {
          InitrdLineIsInitrd(due.value);
          OutputServed(more, true, None, IsKernel(line));
          ServedEchoed(line, Rest(more, true, None), true, false);
          ServedOne(InitrdLine(due.value), Echo(line) + Rest(more, true, None), seen, odd);
        }
      } else {
        var next := if IsKernel(line) then Some(InitrdName(line)) else None;
        RestStarts(more, true, next);
        OutputServed(more, true, next, if IsLost(line) then odd else IsKernel(line) && !odd);
        ServedEchoed(line, Rest(more, true, next), seen, odd);
      }
    }
  }

  /** Running the script twice always completes the file. */
  lemma TwiceIsComplete(ls: seq<string>)
    ensures Complete(Fix(Fix(ls)), false)
  {
    OutputServed(ls, false, None, false);
    EmitComplete(Fix(ls), false, None);
  }

  /** What the script writes has no line of options. */
  lemma {:induction false} OutputHasNoOptions(ls: seq<string>, seen: bool, due: Option<string>)
    requires !seen ==> due.None?
    ensures NoOptions(Rest(ls, seen, due))
    decreases ls
  {
    if due.Some? {
      InitrdLineIsInitrd(due.value);
    }
    if ls == [] {
      RestNone(seen, due);
    } else {
      RestOne(ls, seen, due);
      EchoKinds(ls[0]);
      hide IsTitle;
      hide IsKernel;
      hide IsInitrd;
      hide Rest;
      hide Echo;
      hide IsOption;
      var now := seen || IsTitle(ls[0]);
      var next := if !now || due.Some? || !IsKernel(ls[0]) then None else Some(InitrdName(ls[0]));
      OutputHasNoOptions(ls[1..], now, next);
    }
  }

  /** A complete file is not changed. */
  lemma {:induction false} CompleteIsKept(ls: seq<string>, seen: bool, due: Option<string>)
    requires Complete(ls, seen) && NoOptions(ls) && (!seen ==> due.None?)
    requires due.Some? ==> ls != [] && IsInitrd(ls[0])
    ensures Rest(ls, seen, due) == ls
    decreases ls
  {
    if ls == [] {
      RestNone(seen, due);
    } else {
      KindsDiffer(ls[0]);
      RestOne(ls, seen, due);
      assert Echo(ls[0]) == [ls[0]];
      hide IsTitle;
      hide IsKernel;
      hide IsInitrd;
      hide Rest;
      hide Echo;
      hide IsOption;
      var now := seen || IsTitle(ls[0]);
      var next := if !now || due.Some? || !IsKernel(ls[0]) then None else Some(InitrdName(ls[0]));
      CompleteIsKept(ls[1..], now, next);
      assert ls == [ls[0]] + ls[1..];
    }
  }

  /** A file to which nothing is added is complete. */
  lemma {:induction false} NoneLackingIsComplete(ls: seq<string>, seen: bool, odd: bool)
    requires NoOptions(ls) && (!seen ==> !odd) && Lacking(ls, seen, odd) == 0
    requires Served(ls, seen, odd)
    ensures Complete(ls, seen)
    decreases ls
  {
    hide IsTitle;
    hide IsKernel;
    hide IsInitrd;
    hide IsOption;
    if ls != [] {
      assert !IsLost(ls[0]) && (|ls| > 1 ==> ls[1] in ls && !IsLost(ls[1]));
      hide Echo;
      KindsDiffer(ls[0]);
      var now := seen || IsTitle(ls[0]);
      NoneLackingIsComplete(ls[1..], now, now && IsKernel(ls[0]) && !odd);
    }
  }

  /** The script leaves a file alone exactly when the file is complete and echo copies it. */
  lemma UnchangedIff(ls: seq<string>)
    ensures Fix(ls) == ls <==> Complete(ls, false) && NoOptions(ls)
  {
    if Complete(ls, false) && NoOptions(ls) {
      CompleteIsKept(ls, false, None);
    }
    if Fix(ls) == ls {
      OutputHasNoOptions(ls, false, None);
      OutputServed(ls, false, None, false);
      AddedCount(ls, false, None);
      EchoCopiesIff(ls);
      NoneLackingIsComplete(ls, false, false);
    }
  }

  /** A second run changes nothing exactly when the condition holds; a third run never changes anything. */
  lemma IdempotentIff(ls: seq<string>)
    ensures Fix(Fix(ls)) == Fix(ls) <==> EvenOnesServed(ls)
    ensures Fix(Fix(Fix(ls))) == Fix(Fix(ls))
  {
    OutputHasNoOptions(ls, false, None);
    OutputHasNoOptions(Fix(ls), false, None);
    UnchangedIff(Fix(ls));
    CompleteIff(ls);
    TwiceIsComplete(ls);
    UnchangedIff(Fix(Fix(ls)));
  }

  // ---------------------------------------------------------------------------
  // What is added, and where
  // ---------------------------------------------------------------------------

  /** Each added line stands right after a kernel line of the file and has the name that the script makes of it. */
  ghost predicate AddedRight(os: seq<Out>, before: Option<string>) {
    && (os != [] && os[0].added ==> before.Some? && os[0].line == InitrdLine(before.value))
    && forall i :: 0 < i < |os| && os[i].added ==>
         !os[i - 1].added && IsKernel(os[i - 1].line) && os[i].line == InitrdLine(InitrdName(os[i - 1].line))
  }

  lemma {:induction false} AddedLinesAreRight(ls: seq<string>, seen: bool, due: Option<string>)
    requires !seen ==> due.None?
    ensures AddedRight(Emit(ls, seen, due), due)
    decreases ls
  {
    hide IsTitle;
    hide IsKernel;
    hide IsInitrd;
    hide InitrdName;
    hide InitrdLine;
    hide Copied;
    if ls != [] {
      EmitCons(ls, seen, due);
      hide Emit;
      var now := seen || IsTitle(ls[0]);
      var next := if !now then due else if due.Some? || !IsKernel(ls[0]) then None else Some(InitrdName(ls[0]));
      AddedLinesAreRight(ls[1..], now, next);
      var rest := Emit(ls[1..], now, next);
      AddedAfterCopied(ls[0], rest, next);
      if due.Some? {
        AddedFront(Out(InitrdLine(due.value), true), Copied(ls[0]) + rest, due);
      }
    }
  }

  lemma AddedAfterCopied(line: string, rest: seq<Out>, next: Option<string>)
    requires AddedRight(rest, next)
    requires next.Some? ==> IsKernel(line) && next.value == InitrdName(line)
    ensures AddedRight(Copied(line) + rest, None)
  {
    EchoKinds(line);
    assert LinesOf(Copied(line)) == Echo(line);
    hide IsKernel;
    hide InitrdName;
    hide InitrdLine;
    if Copied(line) == [] {
      assert Copied(line) + rest == rest;
    } else {
      var own := Copied(line)[0];
      assert LinesOf(Copied(line))[0] == own.line;
      assert Copied(line) == [own];
      AddedOne(own, rest, next);
    }
  }

  lemma AddedOne(own: Out, rest: seq<Out>, next: Option<string>)
    requires !own.added && AddedRight(rest, next)
    requires next.Some? ==> IsKernel(own.line) && next.value == InitrdName(own.line)
    ensures AddedRight([own] + rest, None)
  {
    hide IsKernel;
    hide InitrdName;
    hide InitrdLine;
    var os := [own] + rest;
    forall i | 0 <= i < |os| && os[i].added
      ensures i > 0 && !os[i - 1].added && IsKernel(os[i - 1].line)
      ensures os[i].line == InitrdLine(InitrdName(os[i - 1].line))
    {
      assert os[i] == rest[i - 1];
      if i == 1 {
        assert rest[0].added;
        assert os[0] == own && next.Some?;
      } else {
        assert os[i - 1] == rest[i - 1 - 1];
      }
    }
  }

  lemma AddedFront(added: Out, rest: seq<Out>, due: Option<string>)
    requires due.Some? && added == Out(InitrdLine(due.value), true) && AddedRight(rest, None)
    ensures AddedRight([added] + rest, due)
  {
    hide IsKernel;
    hide InitrdName;
    hide InitrdLine;
    var os := [added] + rest;
    forall i | 0 < i < |os| && os[i].added
      ensures !os[i - 1].added && IsKernel(os[i - 1].line)
      ensures os[i].line == InitrdLine(InitrdName(os[i - 1].line))
    {
      assert os[i] == rest[i - 1];
      assert os[i - 1] == rest[i - 2];
    }
  }

  // ---------------------------------------------------------------------------
  // What the added lines name
  // ---------------------------------------------------------------------------

  /** The image that a kernel line names: the first word after "kernel". */
  function ImageOf(line: string): string
    requires IsKernel(line)
  {
    var s := StripLeft(StripLeft(line)[6..]);
    s[..WordLength(s)]
  }

  /** The script can take the line apart: one blank, the image, and another blank after it; or no image at all, and
      two blanks or more in its place. */
  predicate TakesApart(line: string)
    requires IsKernel(line)
  {
    var s := StripLeft(line);
    |s| > 7 && IsBlank(s[6])
    && if IsBlank(s[7]) then StripLeft(s[6..]) == [] else WordLength(s[7..]) < |s[7..]|
  }

  lemma {:induction false} StripLeftShape(s: string)
    ensures |StripLeft(s)| <= |s| && (StripLeft(s) != [] ==> !IsBlank(StripLeft(s)[0]))
    ensures s != [] && !IsBlank(s[0]) ==> StripLeft(s) == s
  {
    if s != [] && IsBlank(s[0]) {
      StripLeftShape(s[1..]);
    }
  }

  /** The first sed finds the image exactly if it can take the line apart. */
  lemma KernelPathIff(line: string)
    requires IsKernel(line)
    ensures KernelPath(line) == ImageOf(line) <==> TakesApart(line)
    ensures !TakesApart(line) ==> |KernelPath(line)| >= |ImageOf(line)| + 6 || (KernelPath(line) == [] != ImageOf(line))
  {
    var s := StripLeft(line);
    StripLeftShape(line);
    var r := s[6..];
    StripLeftShape(r);
    if r != [] && IsBlank(r[0]) {
      assert r[1..] == s[7..];
      StripLeftShape(s[7..]);
      assert StripLeft(r) == StripLeft(s[7..]);
    }
  }

  /** s starts at i with the name that the second sed replaces. */
  predicate HasVmlinuzAt(s: string, i: nat) {
    i <= |s| && "vmlinuz" <= s[i..]
  }

  ghost predicate FirstVmlinuzAt(s: string, i: nat) {
    HasVmlinuzAt(s, i) && forall j: nat :: j < i ==> !HasVmlinuzAt(s, j)
  }

  lemma {:induction false} ReplaceImageSize(s: string)
    ensures |s| <= |ReplaceImage(s)| <= |s| + 2
    decreases |s|
  {
    if s != [] && !("vmlinuz" <= s) {
      ReplaceImageSize(s[1..]);
    }
  }

  lemma ReplaceLater(s: string)
    requires s != [] && !HasVmlinuzAt(s, 0)
    ensures ReplaceImage(s) == [s[0]] + ReplaceImage(s[1..])
  {
    assert s[0..] == s;
  }

  /** The second sed leaves a name without an occurrence as it is. */
  lemma {:induction false} ReplaceNone(s: string)
    requires forall i: nat :: !HasVmlinuzAt(s, i)
    ensures ReplaceImage(s) == s
    decreases |s|
  {
    if s != [] {
      assert !HasVmlinuzAt(s, 0);
      ReplaceLater(s);
      forall i: nat
        ensures !HasVmlinuzAt(s[1..], i)
      {
        HasVmlinuzLater(s, i);
      }
      hide HasVmlinuzAt;
      ReplaceNone(s[1..]);
      hide ReplaceImage;
    }
  }

  /** Otherwise it replaces the first occurrence, and nothing else. */
  lemma {:induction false} ReplaceFirst(s: string, i: nat)
    requires FirstVmlinuzAt(s, i)
    ensures i + 7 <= |s| && ReplaceImage(s) == s[..i] + ("initramfs" + s[i + 7..])
    decreases |s|
  {
    if i == 0 {
      assert s[0..] == s && s[..0] == [];
    } else {
      assert s != [] && !HasVmlinuzAt(s, 0);
      FirstVmlinuzLater(s, i);
      ReplaceLater(s);
      hide HasVmlinuzAt;
      hide FirstVmlinuzAt;
      ReplaceFirst(s[1..], i - 1);
      hide ReplaceImage;
      assert s[..i] == [s[0]] + s[1..][..i - 1];
      assert s[i + 7..] == s[1..][i - 1 + 7..];
      Assoc([s[0]], s[1..][..i - 1], "initramfs" + s[i + 7..]);
    }
  }

  lemma HasVmlinuzLater(s: string, i: nat)
    requires s != []
    ensures HasVmlinuzAt(s[1..], i) <==> HasVmlinuzAt(s, i + 1)
  {
    if i + 1 <= |s| {
      assert s[1..][i..] == s[i + 1..];
    }
  }

  lemma FirstVmlinuzLater(s: string, i: nat)
    requires s != [] && FirstVmlinuzAt(s, i) && !HasVmlinuzAt(s, 0)
    ensures i > 0 && FirstVmlinuzAt(s[1..], i - 1)
  {
    HasVmlinuzLater(s, i - 1);
    forall j: nat | j < i - 1
      ensures !HasVmlinuzAt(s[1..], j)
    {
      HasVmlinuzLater(s, j);
    }
  }

  /** The name in an added line is made from the image of the kernel line before it exactly if the script can take
      that line apart. */
  lemma AddedLinesNameImage(ls: seq<string>)
    ensures var os := Emit(ls, false, None);
      forall i :: 0 <= i < |os| && os[i].added ==>
        && i > 0 && IsKernel(os[i - 1].line)
        && (os[i].line == InitrdLine(ReplaceImage(ImageOf(os[i - 1].line))) <==> TakesApart(os[i - 1].line))
  {
    var os := Emit(ls, false, None);
    AddedLinesAreRight(ls, false, None);
    forall i | 0 <= i < |os| && os[i].added
      ensures i > 0 && IsKernel(os[i - 1].line)
      ensures os[i].line == InitrdLine(ReplaceImage(ImageOf(os[i - 1].line))) <==> TakesApart(os[i - 1].line)
    {
      var line := os[i - 1].line;
      NameIff(line);
      InitrdLineInjective(InitrdName(line), ReplaceImage(ImageOf(line)));
      hide *;
    }
  }

  lemma NameIff(line: string)
    requires IsKernel(line)
    ensures InitrdName(line) == ReplaceImage(ImageOf(line)) <==> TakesApart(line)
  {
    KernelPathIff(line);
    ReplaceImageSize(KernelPath(line));
    ReplaceImageSize(ImageOf(line));
    ReplaceImageSize([]);
    hide ReplaceImage;
    hide KernelPath;
    hide ImageOf;
    hide TakesApart;
    hide IsKernel;
  }

  lemma InitrdLineInjective(a: string, b: string)
    ensures InitrdLine(a) == InitrdLine(b) <==> a == b
  {
    if InitrdLine(a) == InitrdLine(b) {
      assert |a| == |b|;
      Assoc("\tinitrd ", a, ".img");
      Assoc("\tinitrd ", b, ".img");
      Cut("\tinitrd ", a + ".img");
      Cut("\tinitrd ", b + ".img");
      Cut(a, ".img");
      Cut(b, ".img");
    }
  }

  /** A kernel line without arguments cannot be taken apart: the added line repeats the whole line. */
  lemma BareKernel(p: string)
    requires forall c <- p :: !IsBlank(c)
    ensures IsKernel("kernel " + p) && !TakesApart("kernel " + p) && KernelPath("kernel " + p) == "kernel " + p
  {
    var line := "kernel " + p;
    assert "kernel"[0] == 'k' && line[..6] == "kernel" && line[0] == 'k';
    assert StripLeft(line) == line;
    assert line[7..] == p;
    NoBlanks(p);
    assert p != [] ==> line[7] == p[0] && p[0] in p;
  }

  lemma {:induction false} ReplaceAfter(a: string, b: string)
    requires 'v' !in a
    ensures ReplaceImage(a + ("vmlinuz" + b)) == a + ("initramfs" + b)
  {
    var s := a + ("vmlinuz" + b);
    if a == [] {
      assert s == "vmlinuz" + b;
      Cut("vmlinuz", b);
    } else {
      ReplaceAfter(a[1..], b);
      assert s[1..] == a[1..] + ("vmlinuz" + b);
      assert s[0] == a[0] != 'v' == "vmlinuz"[0];
      Assoc([a[0]], a[1..], "initramfs" + b);
      assert a == [a[0]] + a[1..];
    }
  }

  /** For example, where /initramfs-1.img would be right. */
  lemma BareKernelNamed()
    ensures var line := "kernel " + ("/" + ("vmlinuz" + "-1"));
      && IsKernel(line) && ImageOf(line) == "/" + ("vmlinuz" + "-1")
      && Fix(["title a", line]) == ["title a", line, InitrdLine("kernel " + ("/" + ("initramfs" + "-1")))]
  {
    hide *;
    TitleA();
    BareIs("/", "-1");
    AfterTitle("title a", "kernel " + ("/" + ("vmlinuz" + "-1")));
  }

  lemma TitleA()
    ensures IsTitle("title a") && !IsBlank('/') && !IsBlank('-') && !IsBlank('1')
  {
    assert "title a"[..5] == "title";
  }

  lemma BareIs(a: string, b: string)
    requires 'v' !in a && (forall c <- a :: !IsBlank(c)) && (forall c <- b :: !IsBlank(c))
    ensures var p := a + ("vmlinuz" + b);
      && IsKernel("kernel " + p) && ImageOf("kernel " + p) == p
      && InitrdName("kernel " + p) == "kernel " + (a + ("initramfs" + b))
  {
    var p := a + ("vmlinuz" + b);
    BareKernel(p);
    BareImage(p);
    assert 'v' !in "kernel " + a;
    ReplaceAfter("kernel " + a, b);
    hide IsKernel;
    hide ReplaceImage;
    hide KernelPath;
    hide ImageOf;
    Assoc("kernel ", a, "vmlinuz" + b);
    Assoc("kernel ", a, "initramfs" + b);
  }

  lemma BareImage(p: string)
    requires p != [] && forall c <- p :: !IsBlank(c)
    ensures IsKernel("kernel " + p) && ImageOf("kernel " + p) == p
  {
    BareKernel(p);
    var line := "kernel " + p;
    assert line[0] == "kernel"[0] == 'k' && StripLeft(line) == line;
    assert line[6..] == " " + p && (" " + p)[1..] == p;
    assert p[0] in p && StripLeft(" " + p) == StripLeft(p) == p;
    NoBlanks(p);
  }

  /** A file of a title and a kernel line. */
  lemma AfterTitle(title: string, line: string)
    requires IsTitle(title) && IsKernel(line)
    ensures Fix([title, line]) == [title, line, InitrdLine(InitrdName(line))]
  {
    KindsDiffer(title);
    EchoKinds(title);
    EchoKinds(line);
    var ls := [title, line];
    assert ls[1..] == [line] && [line][1..] == [];
    RestOne(ls, false, None);
    RestOne([line], true, None);
    RestNone(true, Some(InitrdName(line)));
    hide InitrdName;
    hide InitrdLine;
    hide IsTitle;
    hide IsKernel;
    hide IsInitrd;
    hide Rest;
    hide Echo;
  }

  lemma {:induction false} NoBlanks(s: string)
    requires forall c <- s :: !IsBlank(c)
    ensures WordLength(s) == |s|
  {
    if s != [] {
      assert s[0] in s && forall c <- s[1..] :: c in s;
      NoBlanks(s[1..]);
    }
  }

  /** An indented kernel line with an argument, as they usually are. */
  lemma IndentedKernelNamed()
    ensures Fix(["title a", "\tkernel /vmlinuz-1 ro"])
            == ["title a", "\tkernel /vmlinuz-1 ro", "\tinitrd /initramfs-1.img"]
  {
    hide *;
    IndentedPieces();
    TitleA();
    IndentedName("/" + ("vmlinuz" + "-1"), "ro");
    ReplaceAfter("/", "-1");
    AfterTitle("title a", "\tkernel /vmlinuz-1 ro");
    InitrdLineIs("/initramfs-1");
  }

  lemma IndentedPieces()
    ensures "\tkernel /vmlinuz-1 ro" == "\tkernel " + (("/" + ("vmlinuz" + "-1")) + (" " + "ro"))
    ensures "/initramfs-1" == "/" + ("initramfs" + "-1")
    ensures "\tinitrd /initramfs-1.img" == "\tinitrd " + "/initramfs-1" + ".img"
    ensures 'v' !in "/" && forall c <- "/" + ("vmlinuz" + "-1") :: !IsBlank(c)
  {
  }

  lemma InitrdLineIs(name: string)
    ensures InitrdLine(name) == "\tinitrd " + name + ".img"
  {
  }

  lemma IndentedName(p: string, args: string)
    requires p != [] && forall c <- p :: !IsBlank(c)
    ensures var line := "\tkernel " + (p + (" " + args)); IsKernel(line) && InitrdName(line) == ReplaceImage(p)
  {
    var line, s := "\tkernel " + (p + (" " + args)), "kernel " + (p + (" " + args));
    assert "kernel"[0] == 'k' && "\tkernel " == "\t" + "kernel ";
    assert line[1..] == s && s[0] == 'k' && s[..6] == "kernel";
    assert StripLeft(s) == s && StripLeft(line) == s;
    assert s[7..] == p + (" " + args);
    WordEnds(p, args);
    hide ReplaceImage;
  }

  lemma {:induction false} WordEnds(p: string, args: string)
    requires forall c <- p :: !IsBlank(c)
    ensures WordLength(p + (" " + args)) == |p| && (p + (" " + args))[..|p|] == p
  {
    if p == [] {
      assert [] + (" " + args) == " " + args;
    } else {
      assert p[0] in p && forall c <- p[1..] :: c in p;
      assert (p + (" " + args))[1..] == p[1..] + (" " + args);
      WordEnds(p[1..], args);
    }
  }

  /** Two blanks before the image: no name is left. */
  lemma DoubleBlankNamed()
    ensures IsKernel("kernel  /vmlinuz-1 ro") && InitrdName("kernel  /vmlinuz-1 ro") == ""
  {
    var line := "kernel  /vmlinuz-1 ro";
    assert "kernel"[0] == 'k' && line[..6] == "kernel";
    assert StripLeft(line) == line;
    assert line[7] == ' ';
    assert WordLength(line[7..]) == 0;
    assert KernelPath(line) == "";
  }

  // ---------------------------------------------------------------------------
  // How many lines are added
  // ---------------------------------------------------------------------------

  /** The number of lines that are added because of a kernel line in ls, read from line to line. */
  function Lacking(ls: seq<string>, seen: bool, odd: bool): nat
    decreases ls
  {
    if ls == [] then 0
    else if !seen && !IsTitle(ls[0]) then Lacking(ls[1..], false, false)
    else
      (if IsKernel(ls[0]) && !odd && !(|ls| > 1 && IsInitrd(ls[1])) then 1 else 0)
      + Lacking(ls[1..], true, IsKernel(ls[0]) && !odd)
  }

  lemma {:induction false} AddedCount(ls: seq<string>, seen: bool, due: Option<string>)
    requires !seen ==> due.None?
    ensures |Rest(ls, seen, due)| == |EchoAll(ls)| + Lacking(ls, seen, due.Some?)
                                     + if due.Some? && !(ls != [] && IsInitrd(ls[0])) then 1 else 0
    decreases ls
  {
    if ls == [] {
      RestNone(seen, due);
    } else {
      KindsDiffer(ls[0]);
      RestOne(ls, seen, due);
      hide IsTitle;
      hide IsKernel;
      hide IsInitrd;
      hide Rest;
      hide Echo;
      var now := seen || IsTitle(ls[0]);
      AddedCount(ls[1..], now, if !now || due.Some? || !IsKernel(ls[0]) then None else Some(InitrdName(ls[0])));
      assert |ls| > 1 ==> ls[1..][0] == ls[1];
    }
  }

  /** Line j is a kernel line that is not immediately followed by an initrd line. */
  predicate LacksInitrd(ls: seq<string>, j: nat) {
    j < |ls| && IsKernel(ls[j]) && !(j + 1 < |ls| && IsInitrd(ls[j + 1]))
  }

  /** The kernel lines from line i on that lack an initrd line and are in an odd place among neighbouring kernel
      lines after line t. */
  ghost function OddOnesLacking(ls: seq<string>, t: nat, i: nat): set<nat> {
    set j: nat | i <= j < |ls| && LacksInitrd(ls, j) && KernelRun(ls, t, j) % 2 == 1
  }

  lemma {:induction false} LackingAreOddOnes(ls: seq<string>, t: nat, i: nat)
    requires t <= i <= |ls|
    ensures Lacking(ls[i..], true, i > t && KernelRun(ls, t, i - 1) % 2 == 1) == |OddOnesLacking(ls, t, i)|
    decreases |ls| - i
  {
    hide IsKernel;
    hide IsTitle;
    hide IsInitrd;
    if i == |ls| {
      assert OddOnesLacking(ls, t, i) == {};
    } else {
      LackingAreOddOnes(ls, t, i + 1);
      KernelRunBefore(ls, t, i);
      if i == t && i > 0 {
        assert KernelRun(ls, t, i - 1) == 0;
      }
      assert ls[i..][1..] == ls[i + 1..];
      assert ls[i..][0] == ls[i];
      assert i + 1 < |ls| ==> ls[i..][1] == ls[i + 1];
      OddOnesFrom(ls, t, i);
    }
  }

  lemma OddOnesFrom(ls: seq<string>, t: nat, i: nat)
    requires i < |ls|
    ensures |OddOnesLacking(ls, t, i)| == |OddOnesLacking(ls, t, i + 1)|
      + if LacksInitrd(ls, i) && KernelRun(ls, t, i) % 2 == 1 then 1 else 0
  {
    hide LacksInitrd;
    hide KernelRun;
    var own := if LacksInitrd(ls, i) && KernelRun(ls, t, i) % 2 == 1 then {i} else {};
    assert OddOnesLacking(ls, t, i) == own + OddOnesLacking(ls, t, i + 1);
  }

  lemma {:induction false} LackingSkips(ls: seq<string>, i: nat)
    requires i <= FirstTitle(ls)
    ensures Lacking(ls, false, false) == Lacking(ls[i..], false, false)
    decreases i
  {
    hide IsKernel;
    hide IsTitle;
    hide IsInitrd;
    if i == 0 {
      assert ls[0..] == ls;
    } else {
      LackingSkips(ls, i - 1);
      assert ls[i - 1..][1..] == ls[i..];
    }
  }

  /** Exactly one line is added for each kernel line in an odd place, from the first title on, that lacks one. */
  lemma AddedOnesCounted(ls: seq<string>)
    ensures |Fix(ls)| == |EchoAll(ls)| + |OddOnesLacking(ls, FirstTitle(ls), FirstTitle(ls))|
  {
    var t := FirstTitle(ls);
    AddedCount(ls, false, None);
    LackingSkips(ls, t);
    LackingAreOddOnes(ls, t, t);
    if t < |ls| {
      KindsDiffer(ls[t]);
      assert Lacking(ls[t..], false, false) == Lacking(ls[t..], true, false);
    }
  }

  /** Without neighbouring kernel lines after the first title, exactly as many lines are added as kernel lines
      lack one. */
  lemma NoNeighboursCounted(ls: seq<string>)
    requires NoNeighbours(ls, FirstTitle(ls))
    ensures |Fix(ls)| == |EchoAll(ls)| + |set j: nat | FirstTitle(ls) <= j < |ls| && LacksInitrd(ls, j)|
  {
    var t := FirstTitle(ls);
    AddedOnesCounted(ls);
    hide FirstTitle;
    hide NoNeighbours;
    forall j | t <= j < |ls| && LacksInitrd(ls, j)
      ensures KernelRun(ls, t, j) == 1
    {
      LoneKernel(ls, t, j);
    }
    hide LacksInitrd;
    hide KernelRun;
    assert OddOnesLacking(ls, t, t) == set j: nat | t <= j < |ls| && LacksInitrd(ls, j);
  }
}
