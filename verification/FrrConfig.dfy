/**
 The canonical form of an FRR configuration: every line with the path of lines it stands under
 (src/sonic-bgpcfgd/bgpcfgd/config.py, lines 69-114).
 */
module FrrConfig {
  import opened TextOps

  type Path = seq<string>

  const NEWLINE: char := '\n'

  // A line that is not blank and not a comment.
  predicate Kept(line: string) {
    var s := Strip(line);
    s != "" && s[0] != '!'
  }

  function KeptLines(lines: seq<string>): seq<string> {
    if lines == [] then []
    else KeptLines(lines[..|lines| - 1]) + if Kept(lines[|lines| - 1]) then [lines[|lines| - 1]] else []
  }

  // `count_spaces`.
  function CountSpaces(line: string): int {
    |line| - |LeftStrip(line)|
  }

  // The path without its last n elements, as a slice takes them.
  function Drop(path: Path, n: nat): Path {
    if |path| <= n then [] else path[..|path| - n]
  }

  // The path after a line: on the level of the last line, below it, or one level up.
  function Step(path: Path, offset: int, line: string): Path {
    var n := CountSpaces(line);
    if n == offset then Drop(path, 1) + [Strip(line)]
    else if n > offset then path + [Strip(line)]
    else Drop(path, 2) + [Strip(line)]
  }

  // The paths of the lines, from a path and the offset of the line before.
  function Walk(lines: seq<string>, path: Path, offset: int): (r: seq<Path>)
    ensures |r| == |lines| && forall i :: 0 <= i < |r| ==> r[i] != []
  {
    if lines == [] then []
    else
      var next := Step(path, offset, lines[0]);
      [next] + Walk(lines[1..], next, CountSpaces(lines[0]))
  }

  // `to_canonical`.
  function ToCanonical(raw: string): (r: seq<Path>)
    ensures forall i :: 0 <= i < |r| ==> r[i] != []
  {
    var lines := KeptLines(Split(raw, NEWLINE));
    if lines == [] then [] else Walk(lines, [lines[0]], CountSpaces(lines[0]))
  }

  function Spaces(n: nat): string {
    seq(n, i => ' ')
  }

  function Indented(path: Path): string
    requires path != []
  {
    Spaces(|path| - 1) + path[|path| - 1]
  }

  // `from_canonical`. A path without lines raises.
  function FromCanonical(paths: seq<Path>): string
    requires forall i :: 0 <= i < |paths| ==> paths[i] != []
  {
    if paths == [] then "" else Indented(paths[0]) + ([NEWLINE] + FromCanonical(paths[1..]))
  }

  // ----- the range of the canonical form -----

  // A line as it stands in a path.
  predicate Clean(s: string) {
    s != "" && Stripped(s) && s[0] != '!' && NEWLINE !in s
  }

  // The second path stays on the level of the first, goes one deeper or one up, and shares the
  // lines above.
  predicate Follows(p: Path, q: Path) {
    1 <= |q| && |p| - 1 <= |q| <= |p| + 1 && q[..|q| - 1] == p[..|q| - 1]
  }

  // Each path follows the one before and ends in a clean line.
  predicate Chain(before: Path, paths: seq<Path>)
    decreases |paths|
  {
    paths == [] || (Follows(before, paths[0]) && Clean(paths[0][|paths[0]| - 1]) && Chain(paths[0], paths[1..]))
  }

  // The same, beginning at the top level.
  predicate IsCanonical(paths: seq<Path>) {
    paths == [] || (|paths[0]| == 1 && Clean(paths[0][0]) && Chain(paths[0], paths[1..]))
  }

  predicate AllKept(lines: seq<string>) {
    forall i :: 0 <= i < |lines| ==> Kept(lines[i]) && NEWLINE !in lines[i]
  }

  lemma {:induction false} KeptAreKept(lines: seq<string>)
    requires Free(lines, NEWLINE)
    ensures AllKept(KeptLines(lines))
  {
    if lines != [] {
      KeptAreKept(lines[..|lines| - 1]);
    }
  }

  lemma CleanLine(line: string)
    requires Kept(line) && NEWLINE !in line
    ensures Clean(Strip(line))
  {
    StripExact(line);
    StripKeepsOut(line, NEWLINE);
  }

  // A step follows the path before it.
  lemma StepFollows(path: Path, offset: int, line: string)
    requires path != [] && Kept(line) && NEWLINE !in line
    ensures var next := Step(path, offset, line); Follows(path, next) && Clean(next[|next| - 1])
  {
    CleanLine(line);
  }

  lemma ChainMore(before: Path, q: Path, rest: seq<Path>)
    requires Follows(before, q) && Clean(q[|q| - 1]) && Chain(q, rest)
    ensures Chain(before, [q] + rest)
  {
    assert ([q] + rest)[1..] == rest;
  }

  lemma {:induction false} WalkChain(lines: seq<string>, path: Path, offset: int)
    requires AllKept(lines) && path != []
    ensures Chain(path, Walk(lines, path, offset))
  {
    if lines != [] {
      var next := Step(path, offset, lines[0]);
      StepFollows(path, offset, lines[0]);
      WalkChain(lines[1..], next, CountSpaces(lines[0]));
      ChainMore(path, next, Walk(lines[1..], next, CountSpaces(lines[0])));
    }
  }

  // Whatever the text, its paths are canonical.
  lemma ToIsCanonical(raw: string)
    ensures IsCanonical(ToCanonical(raw))
  {
    SplitFree(raw, NEWLINE);
    var lines := KeptLines(Split(raw, NEWLINE));
    KeptAreKept(Split(raw, NEWLINE));
    if lines != [] {
      var r := ToCanonical(raw);
      var offset := CountSpaces(lines[0]);
      assert Kept(lines[0]);
      CleanLine(lines[0]);
      var first := Step([lines[0]], offset, lines[0]);
      assert first == [Strip(lines[0])];
      assert r[0] == first && r[1..] == Walk(lines[1..], first, offset);
      WalkChain(lines[1..], first, offset);
    }
  }

  // ----- from canonical and back -----

  lemma {:induction false} LeftStripSpaces(n: nat, s: string)
    requires s != "" && !IsSpace(s[0])
    ensures LeftStrip(Spaces(n) + s) == s
  {
    var t := Spaces(n) + s;
    if n == 0 {
      assert t == s;
    } else {
      assert t[0] == ' ' && t[1..] == Spaces(n - 1) + s;
      LeftStripSpaces(n - 1, s);
    }
  }

  // A clean line, indented, is kept, and its offset and text are read back.
  lemma IndentedLine(path: Path)
    requires path != [] && Clean(path[|path| - 1])
    ensures var line := Indented(path);
            Strip(line) == path[|path| - 1] && CountSpaces(line) == |path| - 1 && Kept(line) && NEWLINE !in line
  {
    var s := path[|path| - 1];
    LeftStripSpaces(|path| - 1, s);
    RightStripped(s);
  }

  // All paths end in a clean line.
  predicate AllClean(paths: seq<Path>) {
    forall i :: 0 <= i < |paths| ==> paths[i] != [] && Clean(paths[i][|paths[i]| - 1])
  }

  function IndentedLines(paths: seq<Path>): seq<string>
    requires forall i :: 0 <= i < |paths| ==> paths[i] != []
  {
    seq(|paths|, i requires 0 <= i < |paths| => Indented(paths[i]))
  }

  lemma {:induction false} SplitFrom(paths: seq<Path>)
    requires AllClean(paths)
    ensures Split(FromCanonical(paths), NEWLINE) == IndentedLines(paths) + [""]
  {
    if paths != [] {
      assert Clean(paths[0][|paths[0]| - 1]);
      IndentedLine(paths[0]);
      SplitAt(Indented(paths[0]), FromCanonical(paths[1..]), NEWLINE);
      SplitFrom(paths[1..]);
      assert IndentedLines(paths) == [Indented(paths[0])] + IndentedLines(paths[1..]);
    }
  }

  lemma {:induction false} AllAreKept(lines: seq<string>)
    requires forall i :: 0 <= i < |lines| ==> Kept(lines[i])
    ensures KeptLines(lines) == lines
  {
    if lines != [] {
      AllAreKept(lines[..|lines| - 1]);
      assert lines == lines[..|lines| - 1] + [lines[|lines| - 1]];
    }
  }

  lemma EmptyNotKept(lines: seq<string>)
    ensures KeptLines(lines + [""]) == KeptLines(lines)
  {
    var more := lines + [""];
    assert more[..|more| - 1] == lines && more[|more| - 1] == "";
    assert !Kept("") by {
      assert Strip("") == "";
    }
    assert KeptLines(more) == KeptLines(lines) + [];
  }

  lemma WrittenAreKept(paths: seq<Path>)
    requires AllClean(paths)
    ensures KeptLines(IndentedLines(paths)) == IndentedLines(paths)
  {
    var lines := IndentedLines(paths);
    forall i | 0 <= i < |lines| ensures Kept(lines[i]) {
      IndentedLine(paths[i]);
    }
    AllAreKept(lines);
  }

  // The lines that are read back are those that were written.
  lemma LinesBack(paths: seq<Path>)
    requires AllClean(paths)
    ensures KeptLines(Split(FromCanonical(paths), NEWLINE)) == IndentedLines(paths)
  {
    SplitFrom(paths);
    WrittenAreKept(paths);
    EmptyNotKept(IndentedLines(paths));
  }

  // One step of the walk gives the next path exactly when it follows.
  lemma StepBack(p: Path, q: Path)
    requires p != [] && q != [] && Clean(q[|q| - 1])
    ensures Step(p, |p| - 1, Indented(q)) == q <==> Follows(p, q)
  {
    IndentedLine(q);
    assert q == q[..|q| - 1] + [q[|q| - 1]];
  }

  lemma {:induction false} WalkBack(p: Path, paths: seq<Path>)
    requires p != [] && AllClean(paths)
    ensures Walk(IndentedLines(paths), p, |p| - 1) == paths <==> Chain(p, paths)
    decreases |paths|
  {
    if paths != [] {
      var q, lines := paths[0], IndentedLines(paths);
      assert q != [] && Clean(q[|q| - 1]);
      assert lines[0] == Indented(q) && lines[1..] == IndentedLines(paths[1..]);
      StepBack(p, q);
      IndentedLine(q);
      var r := Walk(lines, p, |p| - 1);
      assert r == [r[0]] + r[1..] && paths == [q] + paths[1..];
      if r[0] == q {
        WalkBack(q, paths[1..]);
      }
    }
  }

  lemma {:induction false} ChainClean(p: Path, paths: seq<Path>)
    requires Chain(p, paths)
    ensures AllClean(paths)
    decreases |paths|
  {
    if paths != [] {
      ChainClean(paths[0], paths[1..]);
      forall i | 0 <= i < |paths| ensures paths[i] != [] && Clean(paths[i][|paths[i]| - 1]) {
        assert 0 < i ==> paths[i] == paths[1..][i - 1];
      }
    }
  }

  lemma CanonicalClean(paths: seq<Path>)
    requires IsCanonical(paths)
    ensures AllClean(paths)
  {
    if paths != [] {
      ChainClean(paths[0], paths[1..]);
      forall i | 0 <= i < |paths| ensures paths[i] != [] && Clean(paths[i][|paths[i]| - 1]) {
        assert 0 < i ==> paths[i] == paths[1..][i - 1];
      }
    }
  }

  // The first line stands at the top level.
  lemma FirstBack(p: Path, rest: seq<string>)
    requires |p| == 1 && Clean(p[0])
    ensures Walk([Indented(p)] + rest, [Indented(p)], CountSpaces(Indented(p))) == [p] + Walk(rest, p, 0)
  {
    var line := Indented(p);
    IndentedLine(p);
    assert ([line] + rest)[1..] == rest;
    assert Step([line], 0, line) == [Strip(line)] == p;
  }

  // Paths come back as they were exactly when they are canonical: they begin at the top level, each
  // stays level, goes one deeper or one up, and the lines are clean.
  lemma FromToRoundTrip(paths: seq<Path>)
    requires forall i :: 0 <= i < |paths| ==> paths[i] != []
    ensures ToCanonical(FromCanonical(paths)) == paths <==> IsCanonical(paths)
  {
    ToIsCanonical(FromCanonical(paths));
    if IsCanonical(paths) {
      CanonicalBack(paths);
    }
  }

  lemma CanonicalBack(paths: seq<Path>)
    requires IsCanonical(paths) && forall i :: 0 <= i < |paths| ==> paths[i] != []
    ensures ToCanonical(FromCanonical(paths)) == paths
  {
    CanonicalClean(paths);
    LinesBack(paths);
    if paths != [] {
      WholeBack(paths, IndentedLines(paths));
    }
  }

  lemma WholeBack(paths: seq<Path>, lines: seq<string>)
    requires IsCanonical(paths) && AllClean(paths) && paths != [] && lines == IndentedLines(paths)
    ensures Walk(lines, [lines[0]], CountSpaces(lines[0])) == paths
  {
    var p, rest := paths[0], IndentedLines(paths[1..]);
    assert lines == [Indented(p)] + rest;
    assert Walk(rest, p, 0) == paths[1..] by {
      WalkBack(p, paths[1..]);
    }
    assert paths == [p] + paths[1..];
    FirstBack(p, rest);
  }

  // Whatever the text, writing its paths and reading them again changes nothing.
  lemma CanonicalIsStable(raw: string)
    ensures ToCanonical(FromCanonical(ToCanonical(raw))) == ToCanonical(raw)
  {
    ToIsCanonical(raw);
    FromToRoundTrip(ToCanonical(raw));
  }

  // ----- the loops -----

  method KeepLines(lines: seq<string>) returns (kept: seq<string>)
    ensures kept == KeptLines(lines)
  {
    kept := [];
    for i := 0 to |lines|
      invariant kept == KeptLines(lines[..i])
    {
      assert lines[..i + 1][..i] == lines[..i];
      var s := Strip(lines[i]);
      if s != "" && s[0] != '!' {
        kept := kept + [lines[i]];
      }
    }
    assert lines[..|lines|] == lines;
  }

  method NextPath(path: Path, offset: int, line: string) returns (path': Path, n: int)
    requires path != []
    ensures path' == Step(path, offset, line) && n == CountSpaces(line)
  {
    n := CountSpaces(line);
    var s := Strip(line);
    if n == offset {
      path' := path[|path| - 1 := s];
    } else if n > offset {
      path' := path + [s];
    } else {
      path' := Drop(path, 2);
      path' := path' + [s];
    }
  }

  lemma WalkMore(parsed: seq<Path>, lines: seq<string>, i: nat, path: Path, offset: int)
    requires i < |lines|
    ensures var next := Step(path, offset, lines[i]);
            parsed + Walk(lines[i..], path, offset)
            == (parsed + [next]) + Walk(lines[i + 1..], next, CountSpaces(lines[i]))
  {
    var next := Step(path, offset, lines[i]);
    var rest := Walk(lines[i + 1..], next, CountSpaces(lines[i]));
    assert lines[i..][1..] == lines[i + 1..];
    assert Walk(lines[i..], path, offset) == [next] + rest;
    assert parsed + ([next] + rest) == (parsed + [next]) + rest;
  }

  // `to_canonical`: the current path and offset are updated line by line.
  method ParseConfig(raw: string) returns (parsed: seq<Path>)
    ensures parsed == ToCanonical(raw)
  {
    var lines := KeepLines(Split(raw, NEWLINE));
    parsed := [];
    if |lines| == 0 {
      return;
    }
    var path := [lines[0]];
    var offset := CountSpaces(lines[0]);
    var i := 0;
    while i < |lines|
      invariant 0 <= i <= |lines| && path != []
      invariant parsed + Walk(lines[i..], path, offset) == ToCanonical(raw)
    {
      WalkMore(parsed, lines, i, path, offset);
      path, offset := NextPath(path, offset, lines[i]);
      parsed := parsed + [path];
      i := i + 1;
    }
    assert parsed + [] == parsed;
  }

  // `from_canonical`.
  method WriteConfig(paths: seq<Path>) returns (raw: string)
    requires forall i :: 0 <= i < |paths| ==> paths[i] != []
    ensures raw == FromCanonical(paths)
  {
    raw := "";
    var i := 0;
    while i < |paths|
      invariant 0 <= i <= |paths|
      invariant raw + FromCanonical(paths[i..]) == FromCanonical(paths)
    {
      var line := Indented(paths[i]);
      assert paths[i..][1..] == paths[i + 1..];
      assert raw + (line + ([NEWLINE] + FromCanonical(paths[i + 1..])))
          == (raw + line + [NEWLINE]) + FromCanonical(paths[i + 1..]);
      raw := raw + line + [NEWLINE];
      i := i + 1;
    }
    assert raw + "" == raw;
  }

  // ----- what the paths hold -----

  // Part by part, the lines kept are those that are neither blank nor comments.
  lemma {:induction false} KeptParts(a: seq<string>, b: seq<string>, line: string)
    ensures KeptLines(a + b) == KeptLines(a) + KeptLines(b)
    ensures KeptLines([line]) == if Strip(line) == "" || Strip(line)[0] == '!' then [] else [line]
  {
    assert [line][..0] == [];
    if b == [] {
      assert a + b == a;
    } else {
      KeptParts(a, b[..|b| - 1], line);
      assert (a + b)[..|a + b| - 1] == a + b[..|b| - 1];
    }
  }

  // The path of a line as its indentation compares with that of the line before: on the level of
  // that one, one deeper, or one up, but never above the top.
  predicate PathAfter(before: Path, n: int, offset: int, text: string, path: Path) {
    && path != [] && path[|path| - 1] == text
    && (if n == offset then |path| == |before| && path[..|path| - 1] == before[..|before| - 1]
        else if offset < n then |path| == |before| + 1 && path[..|before|] == before
        else if |before| <= 2 then |path| == 1
        else |path| == |before| - 1 && path[..|path| - 1] == before[..|path| - 1])
  }

  lemma {:induction false} WalkHolds(lines: seq<string>, path: Path, offset: int, i: nat)
    requires path != [] && i < |lines|
    ensures var r := Walk(lines, path, offset);
            && |r| == |lines| && r[i] != []
            && (i == 0 ==> PathAfter(path, CountSpaces(lines[0]), offset, Strip(lines[0]), r[0]))
            && (0 < i ==> PathAfter(r[i - 1], CountSpaces(lines[i]), CountSpaces(lines[i - 1]), Strip(lines[i]), r[i]))
  {
    StepHolds(path, offset, lines[0]);
    var next := Step(path, offset, lines[0]);
    var rest := Walk(lines[1..], next, CountSpaces(lines[0]));
    assert Walk(lines, path, offset) == [next] + rest;
    if 0 < i {
      WalkHolds(lines[1..], next, CountSpaces(lines[0]), i - 1);
    }
  }

  lemma StepHolds(path: Path, offset: int, line: string)
    requires path != []
    ensures PathAfter(path, CountSpaces(line), offset, Strip(line), Step(path, offset, line))
  {
    MoveHolds(path, offset, CountSpaces(line), Strip(line));
  }

  lemma MoveHolds(path: Path, offset: int, n: int, text: string)
    requires path != []
    ensures PathAfter(path, n, offset, text,
                      (if n == offset then Drop(path, 1) else if n > offset then path else Drop(path, 2)) + [text])
  {
  }

  // There is one path for each line kept, in order; it ends in the stripped line, the first stands at
  // the top level, and each other follows from the one before by indentation.
  lemma PathsHold(raw: string, i: nat)
    ensures var lines, r := KeptLines(Split(raw, NEWLINE)), ToCanonical(raw);
            && |r| == |lines|
            && (i < |lines| && i == 0 ==> r[0] == [Strip(lines[0])])
            && (0 < i < |lines| ==>
                  PathAfter(r[i - 1], CountSpaces(lines[i]), CountSpaces(lines[i - 1]), Strip(lines[i]), r[i]))
  {
    var lines := KeptLines(Split(raw, NEWLINE));
    if i < |lines| {
      WalkHolds(lines, [lines[0]], CountSpaces(lines[0]), i);
    }
  }
}
