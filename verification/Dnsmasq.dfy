/** The dnsmasq check: loading the configuration file and everything that it includes. */
module Dnsmasq {
  import opened Basics

  // ---------------------------------------------------------------------------
  // Removing comments
  // ---------------------------------------------------------------------------

  function StripRight(s: string): string {
    if s != [] && IsBlank(s[|s| - 1]) then StripRight(s[..|s| - 1]) else s
  }

  /** str.strip. */
  function Strip(s: string): string {
    StripRight(StripLeft(s))
  }

  /** A stripped line that is neither empty nor a comment. */
  predicate Kept(line: string) {
    line != [] && line[0] != '#'
  }

  function Filtered(lines: seq<string>): string {
    if lines == [] then []
    else (if Kept(Strip(lines[0])) then Strip(lines[0]) + "\n" else []) + Filtered(lines[1..])
  }

  lemma {:induction false} FilteredOneMore(lines: seq<string>, line: string)
    ensures Filtered(lines + [line]) == Filtered(lines) + if Kept(Strip(line)) then Strip(line) + "\n" else []
  {
    hide Strip;
    if lines == [] {
      assert ([] + [line])[1..] == [];
    } else {
      assert (lines + [line])[1..] == lines[1..] + [line];
      FilteredOneMore(lines[1..], line);
    }
  }

  /** remove_comments. */
  method RemoveComments(lines: seq<string>) returns (text: string)
    ensures text == Filtered(lines)
    ensures exists kept :: Picks(lines, kept) && text == TextOf(lines, kept)
  {
    FilteredPicks(lines);
    hide Picks;
    hide TextOf;
    hide Strip;
    text := "";
    for i := 0 to |lines|
      invariant text == Filtered(lines[..i])
    {
      var tmp := Strip(lines[i]);
      FilteredOneMore(lines[..i], lines[i]);
      assert lines[..i + 1] == lines[..i] + [lines[i]];
      if tmp != [] && tmp[0] != '#' {
        text := text + (tmp + "\n");
      }
    }
    assert lines[..|lines|] == lines;
  }

  /** kept lists, in order and once each, exactly the lines that are neither empty nor a comment when they are
      stripped. */
  ghost predicate Picks(lines: seq<string>, kept: seq<nat>) {
    && (forall i, j :: 0 <= i < j < |kept| ==> kept[i] < kept[j])
    && (forall k <- kept :: k < |lines|)
    && (forall k :: 0 <= k < |lines| ==> (k in kept <==> Strip(lines[k]) != "" && Strip(lines[k])[0] != '#'))
  }

  /** Some lines, stripped, one below the other. */
  function TextOf(lines: seq<string>, kept: seq<nat>): string
    requires forall k <- kept :: k < |lines|
  {
    if kept == [] then []
    else
      assert kept[0] in kept && forall k <- kept[1..] :: k in kept;
      Strip(lines[kept[0]]) + "\n" + TextOf(lines, kept[1..])
  }

  lemma {:induction false} TextOfOneMore(lines: seq<string>, kept: seq<nat>, k: nat)
    requires (forall i <- kept :: i < |lines|) && k < |lines|
    ensures TextOf(lines, kept + [k]) == TextOf(lines, kept) + (Strip(lines[k]) + "\n")
  {
    hide Strip;
    if kept == [] {
      assert ([] + [k])[1..] == [];
    } else {
      assert kept[0] in kept && forall i <- kept[1..] :: i in kept;
      assert (kept + [k])[1..] == kept[1..] + [k];
      TextOfOneMore(lines, kept[1..], k);
      Assoc(Strip(lines[kept[0]]) + "\n", TextOf(lines, kept[1..]), Strip(lines[k]) + "\n");
    }
  }

  lemma {:induction false} TextOfFirst(lines: seq<string>, line: string, kept: seq<nat>)
    requires forall k <- kept :: k < |lines|
    ensures TextOf(lines + [line], kept) == TextOf(lines, kept)
  {
    hide Strip;
    if kept != [] {
      assert kept[0] in kept && forall k <- kept[1..] :: k in kept;
      TextOfFirst(lines, line, kept[1..]);
    }
  }

  lemma PicksOneMore(lines: seq<string>, line: string, kept: seq<nat>)
    requires Picks(lines, kept)
    ensures Picks(lines + [line], if Strip(line) != "" && Strip(line)[0] != '#' then kept + [|lines|] else kept)
  {
    var wanted := Strip(line) != "" && Strip(line)[0] != '#';
    var kept' := if wanted then kept + [|lines|] else kept;
    PicksAreThese(lines, line, kept, kept', wanted);
    OneMoreIncreases(kept, |lines|);
    hide Strip;
    assert forall k :: k in kept' <==> k in kept || (wanted && k == |lines|);
  }

  lemma OneMoreIncreases(kept: seq<nat>, n: nat)
    requires (forall i, j :: 0 <= i < j < |kept| ==> kept[i] < kept[j]) && forall k <- kept :: k < n
    ensures forall i, j :: 0 <= i < j < |kept| + 1 ==> (kept + [n])[i] < (kept + [n])[j]
  {
    assert forall i :: 0 <= i < |kept| ==> kept[i] in kept;
  }

  lemma PicksAreThese(lines: seq<string>, line: string, kept: seq<nat>, kept': seq<nat>, wanted: bool)
    requires Picks(lines, kept) && (wanted <==> Strip(line) != "" && Strip(line)[0] != '#')
    requires kept' == if wanted then kept + [|lines|] else kept
    ensures var all := lines + [line];
      forall k :: 0 <= k < |all| ==> (k in kept' <==> Strip(all[k]) != "" && Strip(all[k])[0] != '#')
  {
    hide Strip;
    var all, n := lines + [line], |lines|;
    forall k | 0 <= k < |all|
      ensures k in kept' <==> Strip(all[k]) != "" && Strip(all[k])[0] != '#'
    {
      assert k in kept' <==> k in kept || (wanted && k == n);
      if k < n {
        assert all[k] == lines[k];
      } else {
        assert all[k] == line && k !in kept;
      }
    }
  }

  lemma {:induction false} FilteredPicks(lines: seq<string>)
    ensures exists kept :: Picks(lines, kept) && Filtered(lines) == TextOf(lines, kept)
    decreases |lines|
  {
    if lines == [] {
      assert Picks(lines, []) && Filtered(lines) == TextOf(lines, []);
    } else {
      var n := |lines| - 1;
      var init, last := lines[..n], lines[n];
      assert lines == init + [last];
      FilteredPicks(init);
      var kept :| Picks(init, kept) && Filtered(init) == TextOf(init, kept);
      FilteredOneMore(init, last);
      PicksOneMore(init, last, kept);
      TextOfFirst(init, last, kept);
      if Strip(last) != "" && Strip(last)[0] != '#' {
        TextOfOneMore(lines, kept, n);
        hide Strip;
        assert Picks(lines, kept + [n]) && Filtered(lines) == TextOf(lines, kept + [n]);
      } else {
        hide Strip;
        assert Filtered(init) + [] == Filtered(init);
        assert Picks(lines, kept) && Filtered(lines) == TextOf(lines, kept);
      }
    }
  }

  /** What is stripped. */
  lemma BlankIs(c: char)
    ensures IsBlank(c) <==> c in {' ', '\t', '\n', 11 as char, 12 as char, '\r'}
  {
  }

  /** A comment goes, a setting stays without the blanks around it. */
  lemma CommentGoes()
    ensures Filtered(["# a\n", " port=53\n"]) == "port=53\n"
  {
    var lines := ["# a\n", " port=53\n"];
    assert lines[1..] == [" port=53\n"] && [" port=53\n"][1..] == [];
    StripTo("", "# a", "\n");
    StripTo(" ", "port=53", "\n");
    assert "# a\n" == "" + "# a" + "\n" && " port=53\n" == " " + "port=53" + "\n";
    hide Strip;
    assert "port=53" + "\n" == "port=53\n";
  }

  /** Stripping a text that is put between blanks gives the text. */
  lemma StripTo(a: string, r: string, b: string)
    requires AllBlank(a) && AllBlank(b) && r != [] && !IsBlank(r[0]) && !IsBlank(r[|r| - 1])
    ensures Strip(a + r + b) == r
  {
    StripLeftTo(a, r + b);
    Assoc(a, r, b);
    StripRightTo(r, b);
    hide IsBlank;
    hide AllBlank;
  }

  lemma {:induction false} StripLeftTo(a: string, r: string)
    requires AllBlank(a) && r != [] && !IsBlank(r[0])
    ensures StripLeft(a + r) == r
  {
    if a == [] {
      assert [] + r == r;
    } else {
      assert a[0] in a && forall c <- a[1..] :: c in a;
      assert (a + r)[1..] == a[1..] + r;
      StripLeftTo(a[1..], r);
    }
  }

  lemma {:induction false} StripRightTo(r: string, b: string)
    requires AllBlank(b) && r != [] && !IsBlank(r[|r| - 1])
    ensures StripRight(r + b) == r
  {
    if b == [] {
      assert r + [] == r;
    } else {
      var n := |b| - 1;
      assert b[n] in b && forall c <- b[..n] :: c in b;
      assert (r + b)[..|r + b| - 1] == r + b[..n];
      assert (r + b)[|r + b| - 1] == b[n];
      StripRightTo(r, b[..n]);
    }
  }

  /** readlines: the lines of a text, each with its newline. */
  function ReadLines(s: string): seq<string>
    decreases |s|
  {
    if s == [] then []
    else
      var n := LineLength(s);
      [s[..n]] + ReadLines(s[n..])
  }

  /** The length of the first line of s, its newline included. */
  function LineLength(s: string): (n: nat)
    requires s != []
    ensures 0 < n <= |s|
  {
    if s[0] == '\n' || |s| == 1 then 1 else 1 + LineLength(s[1..])
  }

  lemma {:induction false} FirstLine(line: string, rest: string)
    requires '\n' !in line
    ensures LineLength(line + "\n" + rest) == |line| + 1
  {
    if line == [] {
      assert line + "\n" + rest == "\n" + rest;
    } else {
      assert (line + "\n" + rest)[1..] == line[1..] + "\n" + rest;
      FirstLine(line[1..], rest);
    }
  }

  lemma {:induction false} StripLeftEnds(s: string)
    ensures StripLeft(s) == [] || !IsBlank(StripLeft(s)[0])
    ensures |StripLeft(s)| <= |s| && StripLeft(s) == s[|s| - |StripLeft(s)|..]
    ensures forall i :: 0 <= i < |s| - |StripLeft(s)| ==> IsBlank(s[i])
  {
    if s != [] && IsBlank(s[0]) {
      StripLeftEnds(s[1..]);
    }
  }

  lemma {:induction false} StripRightEnds(s: string)
    ensures var r := StripRight(s); r <= s && (r == [] || !IsBlank(r[|r| - 1]))
    ensures forall i :: |StripRight(s)| <= i < |s| ==> IsBlank(s[i])
  {
    if s != [] && IsBlank(s[|s| - 1]) {
      StripRightEnds(s[..|s| - 1]);
    }
  }

  predicate AllBlank(s: string) {
    forall c <- s :: IsBlank(c)
  }

  /** Stripping removes blanks at both ends and only these. */
  lemma StripIsTight(s: string)
    ensures var r := Strip(s);
      && (r == [] || (!IsBlank(r[0]) && !IsBlank(r[|r| - 1])))
      && exists a, b :: AllBlank(a) && AllBlank(b) && s == a + r + b
  {
    StripLeftEnds(s);
    StripRightEnds(StripLeft(s));
    hide IsBlank;
    hide StripLeft;
    hide StripRight;
    var l := StripLeft(s);
    var r := StripRight(l);
    var a, b := s[..|s| - |l|], l[|r|..];
    assert l == r + b;
    Assoc(a, r, b);
    assert s == a + l == a + r + b;
    assert r != [] ==> r[0] == l[0];
    assert AllBlank(a) && AllBlank(b);
  }

  lemma StripAgain(line: string)
    requires line != [] && !IsBlank(line[0]) && !IsBlank(line[|line| - 1])
    ensures Strip(line + "\n") == line
  {
    var s := line + "\n";
    assert StripLeft(s) == s;
    assert s[..|s| - 1] == line;
    assert StripRight(line) == line;
  }

  /** Removing comments from the lines of a text that has none left changes nothing. */
  lemma {:induction false} FilteredTwice(lines: seq<string>)
    requires forall i :: 0 <= i < |lines| ==> '\n' !in Strip(lines[i])
    ensures Filtered(ReadLines(Filtered(lines))) == Filtered(lines)
  {
    if lines != [] {
      FilteredTwice(lines[1..]);
      var line, rest := Strip(lines[0]), Filtered(lines[1..]);
      if Kept(line) {
        var s := line + "\n" + rest;
        FirstLine(line, rest);
        assert s[..|line| + 1] == line + "\n" && s[|line| + 1..] == rest;
        StripIsTight(lines[0]);
        StripAgain(line);
        var ls := ReadLines(s);
        assert ls == [line + "\n"] + ReadLines(rest);
        assert ls[1..] == ReadLines(rest);
      } else {
        assert [] + rest == rest;
      }
    }
  }

  /** No line of the text is blank or a comment, if a line has no newline but at its end. */
  lemma {:induction false} NoCommentLeft(lines: seq<string>)
    requires forall i :: 0 <= i < |lines| ==> '\n' !in Strip(lines[i])
    ensures forall l <- ReadLines(Filtered(lines)) :: l != [] && l[0] != '#' && !IsBlank(l[0])
  {
    if lines != [] {
      NoCommentLeft(lines[1..]);
      var line, rest := Strip(lines[0]), Filtered(lines[1..]);
      if line != "" && line[0] != '#' {
        FirstLine(line, rest);
        StripIsTight(lines[0]);
        hide IsBlank;
        hide Strip;
        var s := line + "\n" + rest;
        assert s[..|line| + 1] == line + "\n" && s[|line| + 1..] == rest;
        assert ReadLines(s) == [line + "\n"] + ReadLines(rest);
        assert (line + "\n")[0] == line[0];
      } else {
        assert [] + rest == rest;
      }
    }
  }

  // ---------------------------------------------------------------------------
  // The file system
  // ---------------------------------------------------------------------------

  /** A finite file system: finitely many files and directories, under any number of path names.
      A file without lines cannot be opened. */
  datatype FileSystem = FileSystem(
    files: map<nat, Option<seq<string>>>,
    dirs: map<nat, seq<string>>,
    lookup: string -> Option<nat>)

  predicate IsFile(fs: FileSystem, path: string) {
    fs.lookup(path).Some? && fs.lookup(path).value in fs.files
  }

  /** open and readlines. */
  function Open(fs: FileSystem, path: string): Option<seq<string>> {
    if IsFile(fs, path) then fs.files[fs.lookup(path).value] else None
  }

  /** os.listdir. */
  function ListDir(fs: FileSystem, path: string): Option<seq<string>> {
    if fs.lookup(path).Some? && fs.lookup(path).value in fs.dirs then Some(fs.dirs[fs.lookup(path).value]) else None
  }

  predicate IsAbsolute(path: string) {
    path != [] && path[0] == '/'
  }

  /** os.path.join. */
  function JoinPath(path: string, f: string): string {
    if IsAbsolute(f) then f
    else if path == [] || path[|path| - 1] == '/' then path + f
    else path + "/" + f
  }

  /** os.path.split(path)[1]. */
  function BaseName(path: string): string {
    if path == [] then []
    else if path[|path| - 1] == '/' then []
    else BaseName(path[..|path| - 1]) + [path[|path| - 1]]
  }

  predicate FilterName(f: string) {
    && !(f != [] && f[|f| - 1] == '~')
    && !(f != [] && f[0] == '.')
    && !(f != [] && f[0] == '#' && f[|f| - 1] == '#')
  }

  /** filter_files: a regular file that is no backup, hidden or autosave file. */
  predicate FilterFile(fs: FileSystem, path: string) {
    IsFile(fs, path) && FilterName(BaseName(path))
  }

  lemma {:induction false} BaseNameIs(a: string, name: string)
    requires '/' !in name && (a == [] || a[|a| - 1] == '/')
    ensures BaseName(a + name) == name
    decreases |name|
  {
    if name == [] {
      assert a + [] == a;
    } else {
      var n := |name| - 1;
      assert (a + name)[..|a| + n] == a + name[..n];
      assert name == name[..n] + [name[n]];
      BaseNameIs(a, name[..n]);
    }
  }

  /** Of the names that a directory lists, the filter skips those that are not files, and among the files backups,
      hidden files and autosave files: name~, .name, #name# and #. */
  lemma FilterIff(fs: FileSystem, dir: string, name: string)
    requires name != "" && '/' !in name
    ensures FilterFile(fs, JoinPath(dir, name)) <==>
      && IsFile(fs, JoinPath(dir, name))
      && !(exists s: string :: name == s + "~")
      && !(exists s: string :: name == "." + s)
      && !(name == "#" || exists s: string :: name == "#" + s + "#")
  {
    var a := if dir == [] || dir[|dir| - 1] == '/' then dir else dir + "/";
    assert JoinPath(dir, name) == a + name;
    BaseNameIs(a, name);
    assert FilterFile(fs, a + name) <==> IsFile(fs, a + name) && FilterName(name);
    FilterNameIff(name);
    hide FilterFile;
    hide BaseName;
    hide IsFile;
    hide JoinPath;
    hide FilterName;
  }

  lemma FilterNameIff(name: string)
    requires name != ""
    ensures FilterName(name) <==>
      && !(exists s: string :: name == s + "~")
      && !(exists s: string :: name == "." + s)
      && !(name == "#" || exists s: string :: name == "#" + s + "#")
  {
    var n := |name|;
    if name[n - 1] == '~' {
      assert name == name[..n - 1] + "~";
    }
    if name[0] == '.' {
      assert name == "." + name[1..];
    }
    if name[0] == '#' && name[n - 1] == '#' && n > 1 {
      assert name == "#" + name[1..n - 1] + "#";
    }
  }

  /** The names in a directory that pass the filter, joined on to the directory. */
  function Chosen(fs: FileSystem, dir: string, names: seq<string>): seq<string> {
    if names == [] then []
    else
      (if FilterFile(fs, JoinPath(dir, names[0])) then [JoinPath(dir, names[0])] else []) + Chosen(fs, dir, names[1..])
  }

  /** The paths that are loaded for a directory; the directory is joined on a second time. */
  function Listed(fs: FileSystem, dir: string, names: seq<string>): seq<string> {
    var chosen := Chosen(fs, dir, names);
    seq(|chosen|, i requires 0 <= i < |chosen| => JoinPath(dir, chosen[i]))
  }

  /** Joining the directory twice gives the path of the listed file exactly when the directory is an absolute path
      or empty. */
  lemma JoinedTwice(dir: string, f: string)
    requires f != [] && !IsAbsolute(f)
    ensures JoinPath(dir, JoinPath(dir, f)) == JoinPath(dir, f) <==> dir == [] || IsAbsolute(dir)
  {
    var p := JoinPath(dir, f);
    if dir != [] {
      assert p[0] == dir[0];
      assert IsAbsolute(p) <==> IsAbsolute(dir);
      if !IsAbsolute(dir) {
        assert |JoinPath(dir, p)| > |p|;
      }
    }
  }

  /** The file a of the relative directory conf.d is looked for in a directory that need not exist. */
  lemma RelativeJoinedTwice()
    ensures JoinPath("conf.d", "a") == "conf.d/a" && JoinPath("conf.d", "conf.d/a") == "conf.d/conf.d/a"
    ensures JoinPath("/d/", "a") == "/d/a" && JoinPath("/d", "/e/a") == "/e/a" && JoinPath("", "a") == "a"
  {
  }

  // ---------------------------------------------------------------------------
  // What a configuration refers to
  // ---------------------------------------------------------------------------

  /** The system that is checked. The two searches find the conf-file and the conf-dir settings in a buffer. */
  datatype System = System(
    fs: FileSystem,
    main: string,
    findFiles: string -> seq<string>,
    findDirs: string -> seq<string>)

  /** The files of one conf-dir setting; a directory that cannot be listed has none. */
  function DirFiles(sys: System, dir: string): seq<string> {
    var names := ListDir(sys.fs, dir);
    if names.None? then [] else Listed(sys.fs, dir, names.value)
  }

  /** A file with this buffer includes the file q. */
  predicate Includes(sys: System, buffer: string, q: string) {
    q in sys.findFiles(buffer) || exists d <- sys.findDirs(buffer) :: q in DirFiles(sys, d)
  }

  function BufferOf(sys: System, path: string): Option<string> {
    var lines := Open(sys.fs, path);
    if lines.None? then None else Some(Filtered(lines.value))
  }

  /** The set has the main configuration and everything that a readable file in it includes. */
  ghost predicate ClosedUnderIncludes(sys: System, paths: iset<string>) {
    && sys.main in paths
    && forall p <- paths, q: string :: BufferOf(sys, p).Some? && Includes(sys, BufferOf(sys, p).value, q) ==> q in paths
  }

  /** In the least set with the main configuration that is closed under includes. */
  ghost predicate Reachable(sys: System, path: string) {
    forall paths: iset<string> :: ClosedUnderIncludes(sys, paths) ==> path in paths
  }

  /** The file cannot be opened, or it names a directory that cannot be listed. */
  predicate Stuck(sys: System, path: string) {
    var buffer := BufferOf(sys, path);
    buffer.None? || exists d <- sys.findDirs(buffer.value) :: ListDir(sys.fs, d).None?
  }

  lemma ReachableStep(sys: System, p: string, q: string)
    requires Reachable(sys, p) && BufferOf(sys, p).Some? && Includes(sys, BufferOf(sys, p).value, q)
    ensures Reachable(sys, q)
  {
    forall paths: iset<string> | ClosedUnderIncludes(sys, paths)
      ensures q in paths
    {
      assert p in paths;
    }
  }

  lemma FileFacts(sys: System, files: seq<ConfFile>, file: ConfFile)
    requires FilesOk(sys, files) && file in files
    ensures BufferOf(sys, file.path) == Some(file.buffer) && Reachable(sys, file.path)
  {
  }

  lemma IncludedDirectly(sys: System, from: string, q: string)
    requires BufferOf(sys, from).Some? && q in sys.findFiles(BufferOf(sys, from).value) && Reachable(sys, from)
    ensures Reachable(sys, q) && q in Universe(sys)
  {
    IncludesInUniverse(sys, from, q);
    ReachableStep(sys, from, q);
  }

  lemma IncludedFromDir(sys: System, from: string, dir: string, q: string)
    requires BufferOf(sys, from).Some? && dir in sys.findDirs(BufferOf(sys, from).value) && Reachable(sys, from)
    requires q in DirFiles(sys, dir)
    ensures Reachable(sys, q) && q in Universe(sys)
  {
    assert Includes(sys, BufferOf(sys, from).value, q);
    IncludesInUniverse(sys, from, q);
    ReachableStep(sys, from, q);
  }

  lemma MainReachable(sys: System)
    ensures Reachable(sys, sys.main)
  {
  }

  /** What is reached, step by step: the main file, the conf-file settings of what is reached, and each file that
      passes the filter in a directory of a conf-dir setting. */
  lemma ReachableIff(sys: System, q: string)
    ensures Reachable(sys, q) <==>
      || q == sys.main
      || exists p :: Reachable(sys, p) && IncludedIn(sys, p, q)
  {
    if q == sys.main {
      MainReachable(sys);
    }
    if p :| Reachable(sys, p) && IncludedIn(sys, p, q) {
      IncludesIs(sys, BufferOf(sys, p).value, q);
      ReachableStep(sys, p, q);
    }
    if Reachable(sys, q) {
      var both := iset p |
        Reachable(sys, p) && (p == sys.main || exists r :: Reachable(sys, r) && IncludedIn(sys, r, p));
      MainReachable(sys);
      forall p <- both, r | BufferOf(sys, p).Some? && Includes(sys, BufferOf(sys, p).value, r)
        ensures r in both
      {
        IncludesIs(sys, BufferOf(sys, p).value, r);
        ReachableStep(sys, p, r);
        assert IncludedIn(sys, p, r);
      }
      hide Includes;
      hide IncludedIn;
      hide BufferOf;
      assert ClosedUnderIncludes(sys, both);
    }
  }

  /** The file p can be read, and one of its settings names q, or a directory that holds q. */
  ghost predicate IncludedIn(sys: System, p: string, q: string) {
    && Open(sys.fs, p).Some?
    && var buffer := Filtered(Open(sys.fs, p).value);
       || q in sys.findFiles(buffer)
       || exists dir, name :: dir in sys.findDirs(buffer) && InDirectory(sys, dir, name, q)
  }

  /** The directory lists the name, it passes the filter, and q is what the script makes of the two. */
  ghost predicate InDirectory(sys: System, dir: string, name: string, q: string) {
    && ListDir(sys.fs, dir).Some? && name in ListDir(sys.fs, dir).value
    && FilterFile(sys.fs, JoinPath(dir, name)) && q == JoinPath(dir, JoinPath(dir, name))
  }

  lemma {:induction false} ChosenHas(fs: FileSystem, dir: string, names: seq<string>, p: string)
    ensures p in Chosen(fs, dir, names) <==>
      exists name <- names :: FilterFile(fs, JoinPath(dir, name)) && p == JoinPath(dir, name)
  {
    hide FilterFile;
    hide JoinPath;
    if names != [] {
      ChosenHas(fs, dir, names[1..], p);
      assert names == [names[0]] + names[1..];
    }
  }

  lemma DirFilesHas(sys: System, dir: string, q: string)
    ensures q in DirFiles(sys, dir) <==> exists name :: InDirectory(sys, dir, name, q)
  {
    hide FilterFile;
    hide JoinPath;
    hide IsFile;
    var names := ListDir(sys.fs, dir);
    hide ListDir;
    if names.Some? {
      var chosen := Chosen(sys.fs, dir, names.value);
      forall p
        ensures p in chosen <==>
          exists name <- names.value :: FilterFile(sys.fs, JoinPath(dir, name)) && p == JoinPath(dir, name)
      {
        ChosenHas(sys.fs, dir, names.value, p);
      }
      hide Chosen;
      if q in Listed(sys.fs, dir, names.value) {
        var i :| 0 <= i < |chosen| && Listed(sys.fs, dir, names.value)[i] == q;
        assert chosen[i] in chosen;
        var name :| name in names.value && FilterFile(sys.fs, JoinPath(dir, name)) && chosen[i] == JoinPath(dir, name);
        assert InDirectory(sys, dir, name, q);
      }
      if name :| InDirectory(sys, dir, name, q) {
        assert JoinPath(dir, name) in chosen;
        var i :| 0 <= i < |chosen| && chosen[i] == JoinPath(dir, name);
        assert Listed(sys.fs, dir, names.value)[i] == q;
      }
    }
  }

  lemma IncludesIs(sys: System, buffer: string, q: string)
    ensures Includes(sys, buffer, q) <==>
      || q in sys.findFiles(buffer)
      || exists dir, name :: dir in sys.findDirs(buffer) && InDirectory(sys, dir, name, q)
  {
    forall dir
      ensures q in DirFiles(sys, dir) <==> exists name :: InDirectory(sys, dir, name, q)
    {
      DirFilesHas(sys, dir, q);
    }
    hide DirFiles;
    hide InDirectory;
  }

  // ---------------------------------------------------------------------------
  // What the second join does to the whole
  // ---------------------------------------------------------------------------

  /** The files of a directory, joined on to it once. */
  function FilesIn(sys: System, dir: string): seq<string> {
    var names := ListDir(sys.fs, dir);
    if names.None? then [] else Chosen(sys.fs, dir, names.value)
  }

  function FilesInAll(sys: System, dirs: seq<string>): seq<string> {
    if dirs == [] then [] else FilesIn(sys, dirs[0]) + FilesInAll(sys, dirs[1..])
  }

  /** The system as it is meant: a conf-dir setting stands for a conf-file setting for each file of the directory. */
  function Meant(sys: System): System {
    sys.(findFiles := buffer => sys.findFiles(buffer) + FilesInAll(sys, sys.findDirs(buffer)), findDirs := buffer => [])
  }

  lemma {:induction false} InFilesInAll(sys: System, dirs: seq<string>, q: string)
    ensures q in FilesInAll(sys, dirs) <==> exists d <- dirs :: q in FilesIn(sys, d)
  {
    if dirs != [] {
      InFilesInAll(sys, dirs[1..], q);
      assert dirs == [dirs[0]] + dirs[1..];
      hide FilesIn;
    }
  }

  lemma {:induction false} ChosenIsAbsolute(fs: FileSystem, dir: string, names: seq<string>)
    requires IsAbsolute(dir)
    ensures forall p <- Chosen(fs, dir, names) :: IsAbsolute(p)
  {
    if names != [] {
      ChosenIsAbsolute(fs, dir, names[1..]);
      hide FilterFile;
    }
  }

  /** An absolute directory is not affected by the second join. */
  lemma AbsoluteFiles(sys: System, dir: string)
    requires IsAbsolute(dir)
    ensures DirFiles(sys, dir) == FilesIn(sys, dir)
  {
    var names := ListDir(sys.fs, dir);
    if names.Some? {
      ChosenIsAbsolute(sys.fs, dir, names.value);
      var chosen := Chosen(sys.fs, dir, names.value);
      assert forall i :: 0 <= i < |chosen| ==> chosen[i] in chosen;
      assert Listed(sys.fs, dir, names.value) == chosen;
    }
  }

  /** Every conf-dir that the file names is an absolute path. */
  predicate DirsAbsolute(sys: System, path: string) {
    var buffer := BufferOf(sys, path);
    buffer.Some? ==> forall d <- sys.findDirs(buffer.value) :: IsAbsolute(d)
  }

  lemma IncludesAsMeant(sys: System, path: string, q: string)
    requires BufferOf(sys, path).Some? && DirsAbsolute(sys, path)
    ensures Includes(Meant(sys), BufferOf(sys, path).value, q) <==> Includes(sys, BufferOf(sys, path).value, q)
  {
    hide DirFiles;
    hide FilesIn;
    var dirs := sys.findDirs(BufferOf(sys, path).value);
    hide BufferOf;
    InFilesInAll(sys, dirs, q);
    forall d <- dirs
      ensures DirFiles(sys, d) == FilesIn(sys, d)
    {
      AbsoluteFiles(sys, d);
    }
    hide IsAbsolute;
  }

  lemma BufferAsMeant(sys: System, path: string)
    ensures BufferOf(Meant(sys), path) == BufferOf(sys, path)
  {
  }

  /** If every conf-dir named by a reachable file is an absolute path, the files reached are the ones meant. */
  lemma AbsoluteDirsReach(sys: System)
    requires forall p :: Reachable(sys, p) ==> DirsAbsolute(sys, p)
    ensures forall p :: Reachable(sys, p) <==> Reachable(Meant(sys), p)
  {
    hide Includes;
    hide BufferOf;
    hide DirsAbsolute;
    var meant := Meant(sys);
    forall p
      ensures BufferOf(meant, p) == BufferOf(sys, p)
    {
      BufferAsMeant(sys, p);
    }
    var reached, both := iset p | Reachable(sys, p), iset p | Reachable(sys, p) && Reachable(meant, p);
    forall p, q | Reachable(sys, p) && BufferOf(sys, p).Some?
      ensures Includes(meant, BufferOf(sys, p).value, q) <==> Includes(sys, BufferOf(sys, p).value, q)
    {
      IncludesAsMeant(sys, p, q);
    }
    assert ClosedUnderIncludes(meant, reached) by {
      MainReachable(sys);
      forall p <- reached, q | BufferOf(meant, p).Some? && Includes(meant, BufferOf(meant, p).value, q)
        ensures q in reached
      {
        ReachableStep(sys, p, q);
      }
    }
    assert ClosedUnderIncludes(sys, both) by {
      MainReachable(sys);
      MainReachable(meant);
      forall p <- both, q | BufferOf(sys, p).Some? && Includes(sys, BufferOf(sys, p).value, q)
        ensures q in both
      {
        ReachableStep(sys, p, q);
        ReachableStep(meant, p, q);
      }
    }
  }

  // ---------------------------------------------------------------------------
  // The finitely many paths that can ever be loaded
  // ---------------------------------------------------------------------------

  /** The paths that one file's buffer includes. */
  function IncludedBy(sys: System, buffer: string): set<string> {
    (set q <- sys.findFiles(buffer)) + (set d <- sys.findDirs(buffer), q <- DirFiles(sys, d) :: q)
  }

  function BroughtIn(sys: System, i: nat): set<string> {
    if i in sys.fs.files && sys.fs.files[i].Some? then IncludedBy(sys, Filtered(sys.fs.files[i].value)) else {}
  }

  /** Every path that some file could bring in, and the main configuration. */
  function Universe(sys: System): set<string> {
    {sys.main} + (set i <- sys.fs.files, q <- BroughtIn(sys, i) :: q)
  }

  lemma IncludesInUniverse(sys: System, path: string, q: string)
    requires BufferOf(sys, path).Some? && Includes(sys, BufferOf(sys, path).value, q)
    ensures q in Universe(sys)
  {
    var i := sys.fs.lookup(path).value;
    assert q in BroughtIn(sys, i);
  }

  // ---------------------------------------------------------------------------
  // The loader
  // ---------------------------------------------------------------------------

  datatype ConfFile = ConfFile(path: string, buffer: string)

  /** Something reachable cannot be opened or listed. */
  ghost predicate SomethingStuck(sys: System) {
    exists p :: Reachable(sys, p) && Stuck(sys, p)
  }

  /** Nothing is stuck exactly if every file reached can be opened, and every directory that one names be listed. */
  lemma NothingStuckIff(sys: System)
    ensures !SomethingStuck(sys) <==> forall p :: Reachable(sys, p) ==>
      Open(sys.fs, p).Some? && forall dir <- sys.findDirs(Filtered(Open(sys.fs, p).value)) :: ListDir(sys.fs, dir).Some?
  {
    hide Reachable;
    hide Open;
    hide ListDir;
    forall p
      ensures !Stuck(sys, p) <==>
        && Open(sys.fs, p).Some?
        && forall dir <- sys.findDirs(Filtered(Open(sys.fs, p).value)) :: ListDir(sys.fs, dir).Some?
    {
    }
    hide Stuck;
  }

  function PathsOf(files: seq<ConfFile>): seq<string> {
    seq(|files|, i requires 0 <= i < |files| => files[i].path)
  }

  /** What holds of FILES_TO_CHECK at all times: no path twice, right buffers, reachable paths only. */
  ghost predicate FilesOk(sys: System, files: seq<ConfFile>) {
    && NoDuplicates(PathsOf(files))
    && forall i :: 0 <= i < |files| ==>
         && BufferOf(sys, files[i].path) == Some(files[i].buffer)
         && Reachable(sys, files[i].path)
         && files[i].path in Universe(sys)
  }

  class Loader {
    const sys: System
    var files: seq<ConfFile>

    constructor (sys: System)
      ensures this.sys == sys && files == []
    {
      this.sys := sys;
      files := [];
    }

    /** is_file_loaded. */
    method IsFileLoaded(path: string) returns (r: bool)
      ensures r <==> path in PathsOf(files)
    {
      for i := 0 to |files|
        invariant path !in PathsOf(files)[..i]
      {
        assert PathsOf(files)[..i + 1] == PathsOf(files)[..i] + [files[i].path];
        if files[i].path == path {
          assert PathsOf(files)[i] == path;
          return true;
        }
      }
      assert PathsOf(files)[..|files|] == PathsOf(files);
      return false;
    }

    /** load_config_file; it returns false where the script exits. */
    method LoadConfigFile(path: string) returns (ok: bool)
      requires FilesOk(sys, files) && Reachable(sys, path) && path in Universe(sys)
      modifies `files
      ensures FilesOk(sys, files) && old(files) <= files
      ensures ok ==> path in PathsOf(files)
      ensures !ok ==> SomethingStuck(sys)
    {
      var loaded := IsFileLoaded(path);
      if loaded {
        return true;
      }
      var lines := Open(sys.fs, path);
      if lines.None? {
        return false;
      }
      var filtered := RemoveComments(lines.value);
      ghost var before := files;
      files := files + [ConfFile(path, filtered)];
      assert PathsOf(files) == PathsOf(before) + [path];
      return true;
    }

    /** The loop that loads some files in turn. */
    method LoadFiles(paths: seq<string>) returns (ok: bool)
      requires FilesOk(sys, files) && forall q <- paths :: Reachable(sys, q) && q in Universe(sys)
      modifies `files
      ensures FilesOk(sys, files) && old(files) <= files
      ensures ok ==> forall q <- paths :: q in PathsOf(files)
      ensures !ok ==> SomethingStuck(sys)
    {
      hide FilesOk;
      hide SomethingStuck;
      hide Reachable;
      hide Universe;
      hide PathsOf;
      for i := 0 to |paths|
        invariant FilesOk(sys, files) && old(files) <= files
        invariant forall j :: 0 <= j < i ==> paths[j] in PathsOf(files)
      {
        ghost var before := files;
        ok := LoadConfigFile(paths[i]);
        PathsGrow(before, files);
        if !ok {
          return;
        }
      }
      ok := true;
    }

    /** load_config_from_dir; the file from is the one that names the directory. */
    method LoadConfigFromDir(dir: string, ghost from: string) returns (ok: bool)
      requires FilesOk(sys, files)
      requires BufferOf(sys, from).Some? && dir in sys.findDirs(BufferOf(sys, from).value) && Reachable(sys, from)
      modifies `files
      ensures FilesOk(sys, files) && old(files) <= files
      ensures ok ==> ListDir(sys.fs, dir).Some? && forall q <- DirFiles(sys, dir) :: q in PathsOf(files)
      ensures !ok ==> SomethingStuck(sys)
    {
      var names := ListDir(sys.fs, dir);
      if names.None? {
        assert Stuck(sys, from);
        return false;
      }
      forall q <- DirFiles(sys, dir)
        ensures Reachable(sys, q) && q in Universe(sys)
      {
        IncludedFromDir(sys, from, dir, q);
      }
      ok := LoadFiles(Listed(sys.fs, dir, names.value));
    }

    /** load_more_config: the loop goes over the list that it extends. */
    method LoadMoreConfig() returns (ok: bool)
      requires FilesOk(sys, files) && sys.main in PathsOf(files)
      modifies `files
      ensures FilesOk(sys, files) && old(files) <= files
      ensures ok ==> LoadedUpTo(sys, files, |files|)
      ensures !ok ==> SomethingStuck(sys)
    {
      hide FilesOk;
      hide SomethingStuck;
      hide Universe;
      var i := 0;
      while i < |files|
        invariant 0 <= i <= |files|
        invariant FilesOk(sys, files) && old(files) <= files
        invariant LoadedUpTo(sys, files, i)
        decreases |Universe(sys)| - i
      {
        FewFiles(sys, files);
        ghost var before := files;
        ok := LoadIncludes(files[i]);
        if !ok {
          return;
        }
        PathsGrow(before, files);
        StillLoaded(sys, before, files, i);
        i := i + 1;
      }
      ok := true;
    }

    /** The body of that loop: everything that one file includes. */
    method LoadIncludes(file: ConfFile) returns (ok: bool)
      requires FilesOk(sys, files) && file in files
      modifies `files
      ensures FilesOk(sys, files) && old(files) <= files
      ensures ok ==> AllLoaded(sys, file.buffer, PathsOf(files))
      ensures !ok ==> SomethingStuck(sys)
    {
      FileFacts(sys, files, file);
      hide FilesOk;
      hide SomethingStuck;
      hide Reachable;
      hide Universe;
      hide BufferOf;
      hide PathsOf;
      var found := sys.findFiles(file.buffer);
      forall q <- found
        ensures Reachable(sys, q) && q in Universe(sys)
      {
        IncludedDirectly(sys, file.path, q);
      }
      ghost var before := files;
      ok := LoadFiles(found);
      if ok {
        ghost var middle := files;
        ok := LoadDirs(sys.findDirs(file.buffer), file.path);
        PathsGrow(middle, files);
      }
    }

    method LoadDirs(dirs: seq<string>, ghost from: string) returns (ok: bool)
      requires FilesOk(sys, files)
      requires BufferOf(sys, from).Some? && dirs == sys.findDirs(BufferOf(sys, from).value) && Reachable(sys, from)
      modifies `files
      ensures FilesOk(sys, files) && old(files) <= files
      ensures ok ==> forall d <- dirs :: ListDir(sys.fs, d).Some? && forall q <- DirFiles(sys, d) :: q in PathsOf(files)
      ensures !ok ==> SomethingStuck(sys)
    {
      hide FilesOk;
      hide SomethingStuck;
      hide Reachable;
      hide BufferOf;
      hide ListDir;
      hide DirFiles;
      hide PathsOf;
      for i := 0 to |dirs|
        invariant FilesOk(sys, files) && old(files) <= files
        invariant forall j :: 0 <= j < i ==>
          ListDir(sys.fs, dirs[j]).Some? && forall q <- DirFiles(sys, dirs[j]) :: q in PathsOf(files)
      {
        ghost var before := files;
        ok := LoadConfigFromDir(dirs[i], from);
        PathsGrow(before, files);
        if !ok {
          return;
        }
      }
      ok := true;
    }

    /** load_main_config and load_more_config. On success the files loaded are exactly the reachable ones, each
        once and with its comments removed; otherwise something reachable cannot be opened or listed. */
    method Load() returns (ok: bool)
      requires files == []
      modifies `files
      ensures FilesOk(sys, files)
      ensures ok <==> !SomethingStuck(sys)
      ensures ok ==> forall p :: p in PathsOf(files) <==> Reachable(sys, p)
    {
      var lines := Open(sys.fs, sys.main);
      MainReachable(sys);
      if lines.None? {
        assert Stuck(sys, sys.main);
        return false;
      }
      var filtered := RemoveComments(lines.value);
      files := [ConfFile(sys.main, filtered)];
      assert PathsOf(files)[0] == sys.main;
      ghost var before := files;
      ok := LoadMoreConfig();
      PathsGrow(before, files);
      if ok {
        LoadedAll(sys, files);
      }
    }
  }

  /** Everything that a file with this buffer includes is among the paths, and its directories can be listed. */
  ghost predicate AllLoaded(sys: System, buffer: string, paths: seq<string>) {
    && (forall q :: Includes(sys, buffer, q) ==> q in paths)
    && (forall d <- sys.findDirs(buffer) :: ListDir(sys.fs, d).Some?)
  }

  /** Everything that the first n files include is loaded. */
  ghost predicate LoadedUpTo(sys: System, files: seq<ConfFile>, n: nat)
    requires n <= |files|
  {
    forall i :: 0 <= i < n ==> AllLoaded(sys, files[i].buffer, PathsOf(files))
  }

  lemma StillLoaded(sys: System, a: seq<ConfFile>, b: seq<ConfFile>, n: nat)
    requires a <= b && n < |a| && LoadedUpTo(sys, a, n)
    requires forall p <- PathsOf(a) :: p in PathsOf(b)
    requires AllLoaded(sys, b[n].buffer, PathsOf(b))
    ensures LoadedUpTo(sys, b, n + 1)
  {
    hide PathsOf;
    hide Includes;
    forall i | 0 <= i < n
      ensures AllLoaded(sys, b[i].buffer, PathsOf(b))
    {
      assert AllLoaded(sys, a[i].buffer, PathsOf(a));
    }
  }

  lemma PathsGrow(a: seq<ConfFile>, b: seq<ConfFile>)
    requires a <= b
    ensures forall p <- PathsOf(a) :: p in PathsOf(b)
  {
    forall p <- PathsOf(a)
      ensures p in PathsOf(b)
    {
      var i :| 0 <= i < |a| && PathsOf(a)[i] == p;
      assert PathsOf(b)[i] == p;
    }
  }

  /** There are never more files than paths that could be loaded: this bounds the loop over the growing list. */
  lemma FewFiles(sys: System, files: seq<ConfFile>)
    requires FilesOk(sys, files)
    ensures |files| <= |Universe(sys)|
  {
    var paths := PathsOf(files);
    DistinctCount(paths);
    assert Members(paths) <= Universe(sys);
    SubsetSize(Members(paths), Universe(sys));
  }

  /** When every file's includes are loaded, the loaded paths are exactly the reachable ones, and nothing
      reachable is stuck. */
  lemma LoadedAll(sys: System, files: seq<ConfFile>)
    requires FilesOk(sys, files) && sys.main in PathsOf(files)
    requires LoadedUpTo(sys, files, |files|)
    ensures forall p :: p in PathsOf(files) <==> Reachable(sys, p)
    ensures !SomethingStuck(sys)
  {
    var paths := iset p | p in PathsOf(files);
    assert ClosedUnderIncludes(sys, paths);
    forall p | p in PathsOf(files)
      ensures Reachable(sys, p) && !Stuck(sys, p)
    {
      var i :| 0 <= i < |files| && PathsOf(files)[i] == p;
      assert AllLoaded(sys, files[i].buffer, PathsOf(files));
    }
  }
}
