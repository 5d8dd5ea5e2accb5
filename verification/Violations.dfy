/**
 Lint findings: wrapping the decoded ruff report into violations, and keeping only
 the violations that sit on a changed line (or carry an always-fail code), sorted.
 Both the current package and the older top-level script are modelled.
 */
module Violations {
  import opened Wrappers
  import opened Text
  import opened Sorting
  import opened Paths
  import Diff

  /** A lint finding, read-only; only the fields the filter reads are spelled out. */
  datatype Violation = Violation(errorCode: string, path: Path, lineStart: int, lineEnd: int, message: string)

  // ---------------------------------------------------------------------------
  // Wrapping the decoded report

  /** `map(Violation.parse, raw)`: one violation per record, in record order. */
  function ParseEach<R>(raw: seq<R>, parse: R -> Violation): (r: seq<Violation>)
    ensures |r| == |raw|
    ensures forall i :: 0 <= i < |raw| ==> r[i] == parse(raw[i])
  {
    if raw == [] then [] else [parse(raw[0])] + ParseEach(raw[1..], parse)
  }

  /**
   `parse_ruff_output` of the package: empty output means no violations; otherwise the
   decoder's error is raised, or every decoded record becomes one violation in order.
   */
  function ParseRuffOutput<R>(ruffStdout: string, decode: string -> Result<seq<R>, string>,
                              parse: R -> Violation): (r: Result<seq<Violation>, string>)
    ensures ruffStdout == [] ==> r == Success([])
    ensures ruffStdout != [] ==> (r.Failure? <==> decode(ruffStdout).Failure?)
    ensures ruffStdout != [] && r.Failure? ==> r.error == decode(ruffStdout).error
    ensures ruffStdout != [] && r.Success? ==>
      && |r.value| == |decode(ruffStdout).value|
      && forall i :: 0 <= i < |r.value| ==> r.value[i] == parse(decode(ruffStdout).value[i])
  {
    if ruffStdout == [] then Success([])
    else
      match decode(ruffStdout)
      case Failure(e) => Failure(e)
      case Success(raw) => Success(ParseEach(raw, parse))
  }

  /** `parse_ruff_output` of the older script: the output always goes to the decoder, even when empty. */
  function LegacyParseRuffOutput<R>(ruffResultRaw: string, decode: string -> Result<seq<R>, string>,
                                    parse: R -> Violation): (r: Result<seq<Violation>, string>)
    ensures r.Failure? <==> decode(ruffResultRaw).Failure?
    ensures r.Failure? ==> r.error == decode(ruffResultRaw).error
    ensures r.Success? ==>
      && |r.value| == |decode(ruffResultRaw).value|
      && forall i :: 0 <= i < |r.value| ==> r.value[i] == parse(decode(ruffResultRaw).value[i])
  {
    match decode(ruffResultRaw)
    case Failure(e) => Failure(e)
    case Success(raw) => Success(ParseEach(raw, parse))
  }

  /**
   The two versions differ only on empty output: with a decoder that rejects empty
   text (as a JSON decoder does), the package reports no violations and the older
   script raises.
   */
  lemma ParseVersionsDifferOnlyOnEmptyOutput<R>(text: string, decode: string -> Result<seq<R>, string>,
                                                parse: R -> Violation)
    ensures text != [] ==> ParseRuffOutput(text, decode, parse) == LegacyParseRuffOutput(text, decode, parse)
    ensures text == [] && decode(text).Failure? ==>
      ParseRuffOutput(text, decode, parse).Success? && LegacyParseRuffOutput(text, decode, parse).Failure?
  {
  }

  // ---------------------------------------------------------------------------
  // Selection

  /** The violation's first line is among the changed lines of its file. */
  predicate LineChanged(v: Violation, changed: Diff.ChangedLines)
  {
    v.path in changed && v.lineStart in changed[v.path]
  }

  predicate Selected(v: Violation, changed: Diff.ChangedLines, alwaysFail: set<string>)
  {
    LineChanged(v, changed) || v.errorCode in alwaysFail
  }

  /** `set(always_fail_on) if always_fail_on else set()`: absent or empty both mean no code. */
  function AlwaysFailSet(alwaysFailOn: Option<seq<string>>): (r: set<string>)
    ensures forall c :: c in r <==> alwaysFailOn.Some? && c in alwaysFailOn.value
  {
    if alwaysFailOn.Some? && alwaysFailOn.value != [] then set c | c in alwaysFailOn.value else {}
  }

  /** The selected violations, in input order, each as often as it occurs. */
  function Keep(vs: seq<Violation>, changed: Diff.ChangedLines, alwaysFail: set<string>): (r: seq<Violation>)
    ensures forall v :: multiset(r)[v] == if Selected(v, changed, alwaysFail) then multiset(vs)[v] else 0
  {
    if vs == [] then []
    else
      assert vs == [vs[0]] + vs[1..];
      (if Selected(vs[0], changed, alwaysFail) then [vs[0]] else []) + Keep(vs[1..], changed, alwaysFail)
  }

  // ---------------------------------------------------------------------------
  // Ordering

  /** `str((violation.path, violation.line_start, violation.error_code))` for a `PosixPath`, an `int` and a `str`. */
  function SortKey(v: Violation): string
  {
    KeyPrefix(v.path) + IntToDecimal(v.lineStart) + KeySuffix(v.errorCode)
  }

  /** The part of the key before the line number. */
  function KeyPrefix(path: Path): string
  {
    "(PosixPath('" + path + "'), "
  }

  /** The part of the key after the line number. */
  function KeySuffix(code: string): string
  {
    ", '" + code + "')"
  }

  lemma LexLeqIsTotalPreorder()
    ensures IsTotalPreorder(LexLeq)
  {
    forall a, b
      ensures LexLeq(a, b) || LexLeq(b, a)
    {
      LexLeqTotal(a, b);
    }
    forall a, b, c | LexLeq(a, b) && LexLeq(b, c)
      ensures LexLeq(a, c)
    {
      LexLeqTransitive(a, b, c);
    }
  }

  /** The selected violations sorted by their text keys, with nothing invented, dropped or repeated. */
  function SelectAndSort(vs: seq<Violation>, changed: Diff.ChangedLines, alwaysFail: set<string>): (r: seq<Violation>)
    ensures forall v :: multiset(r)[v] == if Selected(v, changed, alwaysFail) then multiset(vs)[v] else 0
    ensures forall v :: v in r <==> v in vs && Selected(v, changed, alwaysFail)
    ensures SortedBy(r, SortKey, LexLeq)
  {
    LexLeqIsTotalPreorder();
    SortBySorted(Keep(vs, changed, alwaysFail), SortKey, LexLeq);
    var r := SortBy(Keep(vs, changed, alwaysFail), SortKey, LexLeq);
    assert forall v :: v in r <==> v in multiset(r);
    assert forall v :: v in vs <==> v in multiset(vs);
    r
  }

  /**
   `filter_violations` of the package: a violation survives when its first line is a
   changed line of its file or its code is listed as always failing; the survivors
   are sorted by their text keys.
   */
  function FilterViolations(violations: seq<Violation>, gitModifiedLines: Diff.ChangedLines,
                            alwaysFailOn: Option<seq<string>>): (r: seq<Violation>)
    ensures forall v :: v in r <==>
      v in violations
      && ((v.path in gitModifiedLines && v.lineStart in gitModifiedLines[v.path])
          || (alwaysFailOn.Some? && v.errorCode in alwaysFailOn.value))
    ensures forall v :: multiset(r)[v] == if v in r then multiset(violations)[v] else 0
    ensures multiset(r) <= multiset(violations)
    ensures SortedBy(r, SortKey, LexLeq)
  {
    var r := SelectAndSort(violations, gitModifiedLines, AlwaysFailSet(alwaysFailOn));
    assert multiset(r) <= multiset(violations);
    r
  }

  /** `filter_violations` of the older script, whose always-fail codes default to the empty set. */
  function LegacyFilterViolations(violations: seq<Violation>, gitModifiedLines: Diff.ChangedLines,
                                  alwaysFailOn: set<string> := {}): (r: seq<Violation>)
    ensures forall v :: v in r <==>
      v in violations
      && ((v.path in gitModifiedLines && v.lineStart in gitModifiedLines[v.path]) || v.errorCode in alwaysFailOn)
    ensures forall v :: multiset(r)[v] == if v in r then multiset(violations)[v] else 0
    ensures multiset(r) <= multiset(violations)
    ensures SortedBy(r, SortKey, LexLeq)
  {
    var r := SelectAndSort(violations, gitModifiedLines, alwaysFailOn);
    assert multiset(r) <= multiset(violations);
    r
  }

  /** Findings with the same key keep the order in which they were reported (Python's sort is stable). */
  lemma EqualKeysKeepReportOrder(violations: seq<Violation>, gitModifiedLines: Diff.ChangedLines,
                                 alwaysFailOn: Option<seq<string>>, k: string)
    ensures WithKey(FilterViolations(violations, gitModifiedLines, alwaysFailOn), SortKey, LexLeq, k)
         == WithKey(Keep(violations, gitModifiedLines, AlwaysFailSet(alwaysFailOn)), SortKey, LexLeq, k)
  {
    LexLeqIsTotalPreorder();
    SortByIsStable(Keep(violations, gitModifiedLines, AlwaysFailSet(alwaysFailOn)), SortKey, LexLeq, k);
  }

  /** Keys are strings, so "equivalent keys" are equal keys: a key class holds exactly the findings with that key. */
  lemma KeyClassIsEqualKeys(vs: seq<Violation>, k: string)
    ensures forall v :: v in WithKey(vs, SortKey, LexLeq, k) <==> v in vs && SortKey(v) == k
  {
    LexLeqIsTotalPreorder();
    forall a, b | LexLeq(a, b) && LexLeq(b, a)
      ensures a == b
    {
      LexLeqAntisymmetric(a, b);
    }
    WithKeyIsEqualKey(vs, SortKey, LexLeq, k);
  }

  /** The two versions agree once the package's optional codes are read as a set. */
  lemma FilterVersionsAgree(violations: seq<Violation>, changed: Diff.ChangedLines, codes: seq<string>)
    ensures FilterViolations(violations, changed, Some(codes))
         == LegacyFilterViolations(violations, changed, set c | c in codes)
    ensures FilterViolations(violations, changed, None) == LegacyFilterViolations(violations, changed)
  {
    assert AlwaysFailSet(Some(codes)) == set c | c in codes;
  }

  /** Without always-fail codes only the changed-line test decides. */
  lemma NoAlwaysFailCodesMeansLineTestOnly(violations: seq<Violation>, changed: Diff.ChangedLines, v: Violation)
    ensures v in FilterViolations(violations, changed, None) <==> v in violations && LineChanged(v, changed)
    ensures v in FilterViolations(violations, changed, Some([])) <==> v in violations && LineChanged(v, changed)
    ensures v in LegacyFilterViolations(violations, changed) <==> v in violations && LineChanged(v, changed)
  {
  }

  /** A violation in a file the diff does not mention survives only on an always-fail code. */
  lemma UnchangedFileOnlyAlwaysFail(violations: seq<Violation>, changed: Diff.ChangedLines,
                                    alwaysFailOn: Option<seq<string>>, v: Violation)
    requires v.path !in changed
    ensures v in FilterViolations(violations, changed, alwaysFailOn) <==>
      v in violations && v.errorCode in AlwaysFailSet(alwaysFailOn)
  {
  }

  /**
   Only the first line is checked: a violation that starts on an unchanged line is
   dropped even when the rest of its span was changed, and a violation that starts on
   a changed line is kept whatever its last line.
   */
  lemma OnlyFirstLineDecides(violations: seq<Violation>, changed: Diff.ChangedLines, alwaysFailOn: Option<seq<string>>,
                             v: Violation, lineEnd: int)
    requires v in violations && v.(lineEnd := lineEnd) in violations
    ensures v in FilterViolations(violations, changed, alwaysFailOn)
        <==> v.(lineEnd := lineEnd) in FilterViolations(violations, changed, alwaysFailOn)
  {
  }

  /**
   The keys compare as text, so on the same file and code a violation on line 10
   is listed before one on line 9.
   */
  lemma KeysOrderLinesAsText(path: Path, code: string)
    ensures var nine := Violation(code, path, 9, 9, "");
            var ten := Violation(code, path, 10, 10, "");
            LexLeq(SortKey(ten), SortKey(nine)) && !LexLeq(SortKey(nine), SortKey(ten))
  {
    var nine := Violation(code, path, 9, 9, "");
    var ten := Violation(code, path, 10, 10, "");
    var prefix := KeyPrefix(path);
    var suffix := KeySuffix(code);
    assert IntToDecimal(9) == "9";
    assert IntToDecimal(10) == "10";
    assert SortKey(nine) == prefix + ("9" + suffix);
    assert SortKey(ten) == prefix + ("10" + suffix);
    LexLeqCommonPrefix(prefix, "10" + suffix, "9" + suffix);
    LexLeqCommonPrefix(prefix, "9" + suffix, "10" + suffix);
    assert ("10" + suffix)[0] == '1' && ("9" + suffix)[0] == '9';
  }

  /** On the same file and code, the key tells line numbers apart. */
  lemma SortKeyDistinguishesLines(v: Violation, w: Violation)
    requires v.path == w.path && v.errorCode == w.errorCode
    requires SortKey(v) == SortKey(w)
    ensures v.lineStart == w.lineStart
  {
    SameFrameSameMiddle(KeyPrefix(v.path), IntToDecimal(v.lineStart), IntToDecimal(w.lineStart), KeySuffix(v.errorCode));
    IntToDecimalInjective(v.lineStart, w.lineStart);
  }

  /** Two selected findings are both kept, in input order. */
  lemma KeepBoth(first: Violation, second: Violation, changed: Diff.ChangedLines, alwaysFail: set<string>)
    requires Selected(first, changed, alwaysFail) && Selected(second, changed, alwaysFail)
    ensures Keep([first, second], changed, alwaysFail) == [first, second]
  {
    assert Keep([second], changed, alwaysFail) == [second] by {
      assert [second][1..] == [];
    }
    assert [first, second][1..] == [second];
  }

  /** Both on changed lines of the same file, a line-10 finding is reported before a line-9 finding. */
  lemma LineTenReportedBeforeLineNine(path: Path, code: string, changed: Diff.ChangedLines)
    requires path in changed && 9 in changed[path] && 10 in changed[path]
    ensures var nine := Violation(code, path, 9, 9, "");
            var ten := Violation(code, path, 10, 10, "");
            FilterViolations([nine, ten], changed, None) == [ten, nine]
  {
    var nine := Violation(code, path, 9, 9, "");
    var ten := Violation(code, path, 10, 10, "");
    KeysOrderLinesAsText(path, code);
    KeepBoth(nine, ten, changed, {});
    var r := FilterViolations([nine, ten], changed, None);
    assert r == SortBy([nine, ten], SortKey, LexLeq);
    SortedPair(r, ten, nine, SortKey, LexLeq);
  }
}
