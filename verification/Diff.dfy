/**
 The changed-lines resolver: which diff git is asked for in each comparison mode,
 which line entries of a parsed unified diff count as changed, and the map from
 file path to changed line numbers. Running `git diff` and parsing its text are
 external: a parsed diff is an input, and the diff query is a function from the
 requested arguments to the parsed patch set.
 */
module Diff {
  import opened Wrappers
  import opened Text
  import opened Paths

  /** Path to the line numbers changed in that file. */
  type ChangedLines = map<Path, set<int>>

  datatype LineKind = Added | Removed | Context

  /** One line entry of a hunk: its tag, its text, and its line number in the old (source) and new (target) file. */
  datatype DiffLine = DiffLine(kind: LineKind, value: string, sourceNo: Option<nat>, targetNo: Option<nat>)

  datatype Hunk = Hunk(lines: seq<DiffLine>)

  /** The patch of one file; `path` is the file's path relative to the repository root. */
  datatype PatchedFile = PatchedFile(path: Path, hunks: seq<Hunk>)

  type PatchSet = seq<PatchedFile>

  /** The four comparison modes. */
  datatype DiffMode = Branch | Unstaged | Staged | Ref

  /** The arguments of one `git diff` query: positional arguments and the two whitespace options. */
  datatype DiffRequest = DiffRequest(args: seq<string>, ignoreBlankLines: bool, ignoreSpaceAtEol: bool)

  const BranchRequiredMessage := "base_branch is required for BRANCH mode"
  const RefRequiredMessage := "diff_ref is required for REF mode"
  const CachedFlag := "--cached"
  const Head := "HEAD"

  // ---------------------------------------------------------------------------
  // Which line entries count

  /** The numbers `number` picks out of a sequence of line entries. */
  function LineNumbers(lines: seq<DiffLine>, number: DiffLine -> Option<int>): set<int>
  {
    if lines == [] then {}
    else (match number(lines[0]) case Some(n) => {n} case None => {}) + LineNumbers(lines[1..], number)
  }

  lemma {:induction false} LineNumbersMembership(lines: seq<DiffLine>, number: DiffLine -> Option<int>)
    ensures forall n :: n in LineNumbers(lines, number) <==> exists l :: l in lines && number(l) == Some(n)
  {
    if lines != [] {
      LineNumbersMembership(lines[1..], number);
      assert lines == [lines[0]] + lines[1..];
    }
  }

  /** The numbers `number` picks out of every line entry of every hunk. */
  function HunkNumbers(hunks: seq<Hunk>, number: DiffLine -> Option<int>): set<int>
  {
    if hunks == [] then {} else LineNumbers(hunks[0].lines, number) + HunkNumbers(hunks[1..], number)
  }

  lemma {:induction false} HunkNumbersMembership(hunks: seq<Hunk>, number: DiffLine -> Option<int>)
    ensures forall n :: n in HunkNumbers(hunks, number) <==>
      exists h, l :: h in hunks && l in h.lines && number(l) == Some(n)
  {
    if hunks != [] {
      LineNumbersMembership(hunks[0].lines, number);
      HunkNumbersMembership(hunks[1..], number);
      assert hunks == [hunks[0]] + hunks[1..];
    }
  }

  /** The current rule: an added line with non-blank text counts under its target-side number. */
  function AddedNumber(l: DiffLine): Option<int>
  {
    if l.kind == Added && HasContent(l.value) && l.targetNo.Some? then Some(l.targetNo.value) else None
  }

  /** The legacy rule: a removed line with non-blank text counts under its source-side number. */
  function RemovedNumber(l: DiffLine): Option<int>
  {
    if l.kind == Removed && HasContent(l.value) && l.sourceNo.Some? then Some(l.sourceNo.value) else None
  }

  /** The changed-line set of one file: target numbers of its added, non-blank, numbered lines. */
  function ModifiedLines(f: PatchedFile): (r: set<int>)
    ensures forall n :: n in r <==>
      exists h, l :: h in f.hunks && l in h.lines && l.kind == Added && HasContent(l.value)
                     && l.targetNo.Some? && l.targetNo.value == n
  {
    var r := HunkNumbers(f.hunks, AddedNumber);
    HunkNumbersMembership(f.hunks, AddedNumber);
    forall n | n in r
      ensures exists h, l :: h in f.hunks && l in h.lines && l.kind == Added && HasContent(l.value)
                             && l.targetNo.Some? && l.targetNo.value == n
    {
      var h, l :| h in f.hunks && l in h.lines && AddedNumber(l) == Some(n);
    }
    forall n, h, l | h in f.hunks && l in h.lines && l.kind == Added && HasContent(l.value)
                     && l.targetNo.Some? && l.targetNo.value == n
      ensures n in r
    {
      assert AddedNumber(l) == Some(n);
    }
    r
  }

  /** The legacy changed-line set of one file: source numbers of its removed, non-blank lines. */
  function LegacyModifiedLines(f: PatchedFile): (r: set<int>)
    ensures forall n :: n in r <==>
      exists h, l :: h in f.hunks && l in h.lines && l.kind == Removed && HasContent(l.value)
                     && l.sourceNo.Some? && l.sourceNo.value == n
  {
    var r := HunkNumbers(f.hunks, RemovedNumber);
    HunkNumbersMembership(f.hunks, RemovedNumber);
    forall n | n in r
      ensures exists h, l :: h in f.hunks && l in h.lines && l.kind == Removed && HasContent(l.value)
                             && l.sourceNo.Some? && l.sourceNo.value == n
    {
      var h, l :| h in f.hunks && l in h.lines && RemovedNumber(l) == Some(n);
    }
    forall n, h, l | h in f.hunks && l in h.lines && l.kind == Removed && HasContent(l.value)
                     && l.sourceNo.Some? && l.sourceNo.value == n
      ensures n in r
    {
      assert RemovedNumber(l) == Some(n);
    }
    r
  }

  lemma {:induction false} LineNumbersAppend(a: seq<DiffLine>, b: seq<DiffLine>, number: DiffLine -> Option<int>)
    ensures LineNumbers(a + b, number) == LineNumbers(a, number) + LineNumbers(b, number)
  {
    if a == [] {
      assert a + b == b;
    } else {
      assert (a + b)[0] == a[0] && (a + b)[1..] == a[1..] + b;
      LineNumbersAppend(a[1..], b, number);
    }
  }

  lemma {:induction false} HunkNumbersAppend(a: seq<Hunk>, b: seq<Hunk>, number: DiffLine -> Option<int>)
    ensures HunkNumbers(a + b, number) == HunkNumbers(a, number) + HunkNumbers(b, number)
  {
    if a == [] {
      assert a + b == b;
    } else {
      assert (a + b)[0] == a[0] && (a + b)[1..] == a[1..] + b;
      HunkNumbersAppend(a[1..], b, number);
    }
  }

  /** A line entry that `number` ignores changes nothing wherever it is inserted into a hunk. */
  lemma IgnoredLineInHunk(pre: seq<DiffLine>, l: DiffLine, post: seq<DiffLine>, number: DiffLine -> Option<int>)
    requires number(l) == None
    ensures LineNumbers(pre + [l] + post, number) == LineNumbers(pre + post, number)
  {
    LineNumbersAppend(pre + [l], post, number);
    LineNumbersAppend(pre, [l], number);
    LineNumbersAppend(pre, post, number);
    assert [l][1..] == [];
  }

  lemma HunkNumbersSingle(h: Hunk, number: DiffLine -> Option<int>)
    ensures HunkNumbers([h], number) == LineNumbers(h.lines, number)
  {
    assert [h][1..] == [];
  }

  /** Hunks with the same numbers are interchangeable anywhere in a file. */
  lemma EquivalentHunkInFile(before: seq<Hunk>, h1: Hunk, h2: Hunk, after: seq<Hunk>, number: DiffLine -> Option<int>)
    requires LineNumbers(h1.lines, number) == LineNumbers(h2.lines, number)
    ensures HunkNumbers(before + [h1] + after, number) == HunkNumbers(before + [h2] + after, number)
  {
    HunkNumbersSingle(h1, number);
    HunkNumbersSingle(h2, number);
    calc {
      HunkNumbers(before + [h1] + after, number);
      { HunkNumbersAppend(before + [h1], after, number); }
      HunkNumbers(before + [h1], number) + HunkNumbers(after, number);
      { HunkNumbersAppend(before, [h1], number); }
      HunkNumbers(before, number) + HunkNumbers([h2], number) + HunkNumbers(after, number);
      { HunkNumbersAppend(before, [h2], number); }
      HunkNumbers(before + [h2], number) + HunkNumbers(after, number);
      { HunkNumbersAppend(before + [h2], after, number); }
      HunkNumbers(before + [h2] + after, number);
    }
  }

  /** A line entry that `number` ignores changes nothing wherever it is inserted into a file. */
  lemma IgnoredLineChangesNothing(before: seq<Hunk>, pre: seq<DiffLine>, l: DiffLine, post: seq<DiffLine>,
                                  after: seq<Hunk>, number: DiffLine -> Option<int>)
    requires number(l) == None
    ensures HunkNumbers(before + [Hunk(pre + [l] + post)] + after, number)
         == HunkNumbers(before + [Hunk(pre + post)] + after, number)
  {
    IgnoredLineInHunk(pre, l, post, number);
    EquivalentHunkInFile(before, Hunk(pre + [l] + post), Hunk(pre + post), after, number);
  }

  /**
   A removed line, a context line or a blank added line, inserted anywhere into any
   hunk, never changes a file's changed-line set.
   */
  lemma NoiseLinesNeverCount(path: Path, before: seq<Hunk>, pre: seq<DiffLine>, l: DiffLine,
                             post: seq<DiffLine>, after: seq<Hunk>)
    requires l.kind != Added || !HasContent(l.value)
    ensures ModifiedLines(PatchedFile(path, before + [Hunk(pre + [l] + post)] + after))
         == ModifiedLines(PatchedFile(path, before + [Hunk(pre + post)] + after))
  {
    IgnoredLineChangesNothing(before, pre, l, post, after, AddedNumber);
  }

  /**
   An added line, a context line or a blank removed line, inserted anywhere into any
   hunk, never changes a file's legacy changed-line set.
   */
  lemma LegacyNoiseLinesNeverCount(path: Path, before: seq<Hunk>, pre: seq<DiffLine>, l: DiffLine,
                                   post: seq<DiffLine>, after: seq<Hunk>)
    requires l.kind != Removed || !HasContent(l.value)
    ensures LegacyModifiedLines(PatchedFile(path, before + [Hunk(pre + [l] + post)] + after))
         == LegacyModifiedLines(PatchedFile(path, before + [Hunk(pre + post)] + after))
  {
    IgnoredLineChangesNothing(before, pre, l, post, after, RemovedNumber);
  }

  // ---------------------------------------------------------------------------
  // Reading a diff backwards

  /** The same line entry seen from the other side of the comparison. */
  function ReverseLine(l: DiffLine): DiffLine
  {
    var kind := match l.kind case Added => Removed case Removed => Added case Context => Context;
    DiffLine(kind, l.value, l.targetNo, l.sourceNo)
  }

  function ReverseLines(lines: seq<DiffLine>): (r: seq<DiffLine>)
    ensures |r| == |lines|
    ensures forall i :: 0 <= i < |lines| ==> r[i] == ReverseLine(lines[i])
  {
    if lines == [] then [] else [ReverseLine(lines[0])] + ReverseLines(lines[1..])
  }

  function ReverseHunks(hunks: seq<Hunk>): (r: seq<Hunk>)
    ensures |r| == |hunks|
    ensures forall i :: 0 <= i < |hunks| ==> r[i] == Hunk(ReverseLines(hunks[i].lines))
  {
    if hunks == [] then [] else [Hunk(ReverseLines(hunks[0].lines))] + ReverseHunks(hunks[1..])
  }

  /** The same patch read with old and new swapped. */
  function ReversePatch(f: PatchedFile): PatchedFile
  {
    PatchedFile(f.path, ReverseHunks(f.hunks))
  }

  lemma {:induction false} ReversedLineNumbers(lines: seq<DiffLine>)
    ensures LineNumbers(ReverseLines(lines), RemovedNumber) == LineNumbers(lines, AddedNumber)
  {
    if lines != [] {
      ReversedLineNumbers(lines[1..]);
      var rev := ReverseLines(lines);
      assert rev[0] == ReverseLine(lines[0]) && rev[1..] == ReverseLines(lines[1..]);
      assert RemovedNumber(ReverseLine(lines[0])) == AddedNumber(lines[0]);
    }
  }

  lemma {:induction false} ReversedHunkNumbers(hunks: seq<Hunk>)
    ensures HunkNumbers(ReverseHunks(hunks), RemovedNumber) == HunkNumbers(hunks, AddedNumber)
  {
    if hunks != [] {
      ReversedHunkNumbers(hunks[1..]);
      ReversedLineNumbers(hunks[0].lines);
      var rev := ReverseHunks(hunks);
      assert rev[0] == Hunk(ReverseLines(hunks[0].lines)) && rev[1..] == ReverseHunks(hunks[1..]);
    }
  }

  /**
   The legacy rule, applied to the patch read with old and new swapped, finds exactly
   what the current rule finds on the patch.
   */
  lemma LegacyRuleReadsDiffBackwards(f: PatchedFile)
    ensures LegacyModifiedLines(ReversePatch(f)) == ModifiedLines(f)
  {
    ReversedHunkNumbers(f.hunks);
  }

  // ---------------------------------------------------------------------------
  // Mode dispatch

  /** Truthiness of an optional `str` argument: present and non-empty. */
  predicate Given(arg: Option<string>)
  {
    arg.Some? && arg.value != []
  }

  /** The positional `git diff` arguments for a mode, or the error raised for a missing parameter. */
  function DiffArgs(mode: DiffMode, baseBranch: Option<string>, diffRef: Option<string>): (r: Result<seq<string>, string>)
    ensures r.Failure? <==> (mode == Branch && !Given(baseBranch)) || (mode == Ref && !Given(diffRef))
    ensures r.Failure? ==> r.error == (if mode == Branch then BranchRequiredMessage else RefRequiredMessage)
    ensures r.Success? ==> |r.value| <= 1 && (r.value == [] <==> mode == Unstaged)
    ensures mode == Branch && Given(baseBranch) ==> r == Success([baseBranch.value])
    ensures mode == Unstaged ==> r == Success([])
    ensures mode == Staged ==> r == Success([CachedFlag])
    ensures mode == Ref && Given(diffRef) ==> r == Success([diffRef.value])
  {
    match mode
    case Branch => if !Given(baseBranch) then Failure(BranchRequiredMessage) else Success([baseBranch.value])
    case Unstaged => Success([])
    case Staged => Success([CachedFlag])
    case Ref => if !Given(diffRef) then Failure(RefRequiredMessage) else Success([diffRef.value])
  }

  /** BRANCH mode ignores `diff_ref`, REF mode ignores `base_branch`, the other two modes ignore both. */
  lemma DiffArgsIgnoreOtherParameter(mode: DiffMode, b1: Option<string>, b2: Option<string>,
                                     d1: Option<string>, d2: Option<string>)
    ensures mode != Ref ==> DiffArgs(mode, b1, d1) == DiffArgs(mode, b1, d2)
    ensures mode != Branch ==> DiffArgs(mode, b1, d1) == DiffArgs(mode, b2, d1)
  {
  }

  // ---------------------------------------------------------------------------
  // Assembling the map

  /** No later file in `files` has the same key as `files[i]`. */
  ghost predicate LastWithKey(files: PatchSet, key: PatchedFile -> Path, i: int)
    requires 0 <= i < |files|
  {
    forall j :: i < j < |files| ==> key(files[j]) != key(files[i])
  }

  /**
   `{key(f): lines(f) for f in files}`: one key per file, and when two files share a
   key the later one's value is kept.
   */
  function KeyedBy(files: PatchSet, key: PatchedFile -> Path, lines: PatchedFile -> set<int>): (m: ChangedLines)
    ensures m.Keys == set f | f in files :: key(f)
    ensures forall i :: 0 <= i < |files| && LastWithKey(files, key, i) ==> m[key(files[i])] == lines(files[i])
  {
    if files == [] then map[]
    else
      var init := files[..|files| - 1];
      var last := files[|files| - 1];
      assert files == init + [last];
      var m := KeyedBy(init, key, lines)[key(last) := lines(last)];
      assert forall i :: 0 <= i < |init| ==> init[i] == files[i];
      assert forall i :: 0 <= i < |init| && LastWithKey(files, key, i) ==> LastWithKey(init, key, i);
      m
  }

  /** A patched file's own path, the key of the legacy map. */
  function FilePath(f: PatchedFile): Path
  {
    f.path
  }

  /** `repo_root / path`, the key of the package's map. */
  function JoinedKey(repoRoot: Path): PatchedFile -> Path
  {
    (f: PatchedFile) => Join(repoRoot, f.path)
  }

  /** The resolver's result for a parsed diff: repository root joined with each file's path, to its changed lines. */
  function ChangedLinesMap(repoRoot: Path, files: PatchSet): (m: ChangedLines)
    ensures m.Keys == set f | f in files :: Join(repoRoot, f.path)
    ensures files == [] ==> m == map[]
    ensures forall i :: 0 <= i < |files| && LastWithKey(files, JoinedKey(repoRoot), i)
                        ==> m[Join(repoRoot, files[i].path)] == ModifiedLines(files[i])
  {
    KeyedBy(files, JoinedKey(repoRoot), ModifiedLines)
  }

  /**
   For relative paths the joined keys collide only when the paths do, so a file whose
   path no later file repeats maps to its own changed lines.
   */
  lemma ChangedLinesMapRelative(repoRoot: Path, files: PatchSet, i: int)
    requires 0 <= i < |files|
    requires forall j :: i <= j < |files| ==> !IsAbsolute(files[j].path)
    requires LastWithKey(files, FilePath, i)
    ensures ChangedLinesMap(repoRoot, files)[Join(repoRoot, files[i].path)] == ModifiedLines(files[i])
  {
    forall j | i < j < |files|
      ensures JoinedKey(repoRoot)(files[j]) != JoinedKey(repoRoot)(files[i])
    {
      if Join(repoRoot, files[j].path) == Join(repoRoot, files[i].path) {
        JoinInjective(repoRoot, files[j].path, files[i].path);
      }
    }
  }

  /**
   `parse_git_modified_lines`: validates the mode's parameter, asks for the diff with
   both whitespace options set, and maps every patched file to its changed lines. The
   mode defaults to BRANCH and both parameters to absent.
   */
  function ParseGitModifiedLines(repoRoot: Path, diff: DiffRequest -> PatchSet, mode: DiffMode := Branch,
                                 baseBranch: Option<string> := None, diffRef: Option<string> := None)
    : (r: Result<ChangedLines, string>)
    ensures mode == Branch && !Given(baseBranch) ==> r == Failure(BranchRequiredMessage)
    ensures mode == Ref && !Given(diffRef) ==> r == Failure(RefRequiredMessage)
    ensures r.Success? <==> DiffArgs(mode, baseBranch, diffRef).Success?
    ensures r.Success? ==>
      var patches := diff(DiffRequest(DiffArgs(mode, baseBranch, diffRef).value, true, true));
      && r.value.Keys == (set f | f in patches :: Join(repoRoot, f.path))
      && (patches == [] ==> r.value == map[])
      && forall i :: 0 <= i < |patches| && LastWithKey(patches, JoinedKey(repoRoot), i)
                     ==> r.value[Join(repoRoot, patches[i].path)] == ModifiedLines(patches[i])
  {
    match DiffArgs(mode, baseBranch, diffRef)
    case Failure(e) => Failure(e)
    case Success(args) => Success(ChangedLinesMap(repoRoot, diff(DiffRequest(args, true, true))))
  }

  /** A rejected call never depends on what the diff query would have answered. */
  lemma RejectedCallNeverQueriesDiff(mode: DiffMode, baseBranch: Option<string>, diffRef: Option<string>,
                                     repoRoot: Path, diff1: DiffRequest -> PatchSet, diff2: DiffRequest -> PatchSet)
    requires ParseGitModifiedLines(repoRoot, diff1, mode, baseBranch, diffRef).Failure?
    ensures ParseGitModifiedLines(repoRoot, diff2, mode, baseBranch, diffRef)
         == ParseGitModifiedLines(repoRoot, diff1, mode, baseBranch, diffRef)
  {
  }

  /**
   Calls that leave the optional parameters out: the default BRANCH mode has no base
   branch and is rejected, and UNSTAGED asks for a plain `git diff`.
   */
  lemma DefaultArguments(repoRoot: Path, diff: DiffRequest -> PatchSet)
    ensures ParseGitModifiedLines(repoRoot, diff) == Failure(BranchRequiredMessage)
    ensures ParseGitModifiedLines(repoRoot, diff, mode := Ref) == Failure(RefRequiredMessage)
    ensures ParseGitModifiedLines(repoRoot, diff, mode := Unstaged)
         == Success(ChangedLinesMap(repoRoot, diff(DiffRequest([], true, true))))
  {
  }

  /** The query the legacy `git_changed_lines` makes: `git diff HEAD <base_branch>` with both whitespace options. */
  function LegacyDiffRequest(baseBranch: string): DiffRequest
  {
    DiffRequest([Head, baseBranch], true, true)
  }

  /** The legacy `git_changed_lines`: each patched file's own path to its legacy changed-line set. */
  function LegacyGitChangedLines(baseBranch: string, diff: DiffRequest -> PatchSet): (m: ChangedLines)
    ensures var patches := diff(LegacyDiffRequest(baseBranch));
      && m.Keys == (set f | f in patches :: f.path)
      && forall i :: 0 <= i < |patches| && LastWithKey(patches, FilePath, i)
                     ==> m[patches[i].path] == LegacyModifiedLines(patches[i])
  {
    KeyedBy(diff(LegacyDiffRequest(baseBranch)), FilePath, LegacyModifiedLines)
  }
}
