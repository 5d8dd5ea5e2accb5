# riff — changed-line filtering of ruff findings, in Dafny

riff runs the ruff linter and shows a developer only the findings on lines they
changed. This project models the pure core of that:

- **Changed-lines resolver** (`Diff`): the four comparison modes (BRANCH,
  UNSTAGED, STAGED, REF) and the `git diff` arguments each one asks for, the
  error raised when BRANCH or REF lacks its parameter, the rule that a line counts
  as changed when it is an *added* line with non-blank text and a target-side
  number, and the map from `repo_root / path` to each patched file's changed
  lines. The older top-level script's variant is modelled as well: it reads
  `git diff HEAD <base>` and takes the *source* numbers of *removed* non-blank
  lines. `Diff.LegacyRuleReadsDiffBackwards` shows the two rules agree once the
  diff is read backwards.
- **Violation filtering** (`Violations`): a finding is kept when its first line
  is a changed line of its file, or when its code is always-fail. The kept
  findings are sorted by the text key `str((path, line_start, error_code))`.
  Both copies of `filter_violations` and of `parse_ruff_output` are modelled.
- **Path batching** (`Batching`): `split_paths_by_max_len`. It takes the unique
  paths, shortest first, and packs them greedily into groups whose total length
  stays within a maximum (default 4000).

Supporting modules: `Wrappers` (Option and Result), `Text` (Python's `str.strip()`
whitespace set, `<=` on `str`, `str(int)`), `Sorting` (Python's stable
`sorted(key=…)`), and `Paths` (pathlib's `/` on POSIX paths).

External collaborators are parameters:
- `git diff` together with unidiff's parser is a function `diff: DiffRequest -> PatchSet`.
  It receives the positional arguments and the two whitespace options.
- `json.loads` is a function `decode: string -> Result<seq<R>, string>`.
- `Violation.parse` is a function `parse: R -> Violation`.
- The repository root is an input.

Behaviour of the code worth knowing:
- In `parse_git_modified_lines` the repository is looked up (riff/utils.py:85-86)
  *before* the mode parameter is checked. The check still runs before the diff is
  requested, so a rejected call never depends on the diff
  (`Diff.RejectedCallNeverQueriesDiff`).
- Every patched file gets a key, even one with no hunks or no qualifying lines.
  Its value is then the empty set. When two patched files have the same key, the
  later one's set is kept, as in a dict comprehension.
- The sort key is text, so `line_start` is compared as digits and not as a number.
  For the same file and code, line 10 comes before line 9
  (`Violations.LineTenReportedBeforeLineNine`).

## Model

| member | source | states |
|---|---|---|
| Text.Strip | riff/utils.py:82 | `strip()` is empty exactly when every character is Python whitespace; otherwise its result starts and ends with non-whitespace |
| Diff.ModifiedLines | riff/utils.py:68-83 | n is in a file's changed-line set iff some hunk of the file holds an added line with non-blank text whose target number is n |
| Diff.NoiseLinesNeverCount | riff/utils.py:82 | inserting a removed line, a context line or a blank added line anywhere in any hunk leaves the changed-line set unchanged |
| Diff.LegacyModifiedLines | utils.py:74-80 | n is in the legacy set iff some hunk holds a removed line with non-blank text whose source number is n |
| Diff.LegacyNoiseLinesNeverCount | utils.py:74-80 | inserting an added line, a context line or a blank removed line anywhere leaves the legacy set unchanged |
| Diff.LegacyRuleReadsDiffBackwards | utils.py:74-92 | the legacy rule on the reversed patch (old and new swapped) yields exactly the current rule's set on the forward patch |
| Diff.DiffArgs | riff/utils.py:88-104 | fails exactly for BRANCH without a non-empty base_branch or REF without a non-empty diff_ref, each with its own message; otherwise `[base_branch]`, `[]`, `["--cached"]` or `[diff_ref]`, at most one argument, and empty only for UNSTAGED |
| Diff.DiffArgsIgnoreOtherParameter | riff/utils.py:89-104 | BRANCH never looks at diff_ref, REF never looks at base_branch, UNSTAGED and STAGED look at neither |
| Diff.KeyedBy | riff/utils.py:113-116 | the dict comprehension has one key per patched file; when keys collide, the later file's value is kept |
| Diff.ChangedLinesMap | riff/utils.py:113-116 | keys are exactly `root / path` of the patched files; no files give the empty map; each file whose joined key no later file shares maps to its changed-line set, whether its path is relative or absolute |
| Diff.ChangedLinesMapRelative | riff/utils.py:113-116 | when this file's path and every later file's path are relative, a file whose path no later file repeats maps to its own changed-line set |
| Paths.Join | riff/utils.py:114 | an absolute right operand replaces the root; otherwise the result starts with the root and ends with the relative path, and when both are non-empty exactly one `/` stands between them (the root's own trailing `/`, or an inserted one) |
| Paths.JoinInjective | riff/utils.py:113-116 | under one root, distinct relative paths give distinct keys |
| Diff.ParseGitModifiedLines | riff/utils.py:45-134 | the missing-parameter errors of BRANCH and REF are raised; success iff the arguments are valid; the diff is requested with both whitespace options set; the keys are the joined paths of the patched files; an empty patch set gives the empty map; each joined key maps to the target numbers of the non-blank added lines of the last file with that key |
| Diff.DefaultArguments | riff/utils.py:45-49 | with the optional parameters left out, the mode is BRANCH with no base branch and the call fails with the base-branch message; REF alone fails with the diff-ref message; UNSTAGED alone asks for a plain diff and maps its files |
| Diff.RejectedCallNeverQueriesDiff | riff/utils.py:90-111 | a rejected call gives the same error whatever the diff query would answer |
| Diff.LegacyGitChangedLines | utils.py:66-96 | the legacy map asks for `HEAD` and the base branch with both whitespace options; keys are the patched files' own paths; each file whose path no later file repeats maps to its legacy set |
| Violations.ParseEach | riff/utils.py:40 | one violation per raw record, same length, record i parsed into violation i |
| Violations.ParseRuffOutput | riff/utils.py:24-42 | empty output gives no violations without decoding; otherwise a decode error is raised unchanged, or each record becomes one violation in input order |
| Violations.LegacyParseRuffOutput | utils.py:57-63 | the output always goes to the decoder; a decode error is raised unchanged; otherwise one violation per record in order |
| Violations.ParseVersionsDifferOnlyOnEmptyOutput | riff/utils.py:30-35 | the two versions agree on non-empty output; on empty output, if the decoder rejects empty text, the package returns no violations and the script raises |
| Violations.AlwaysFailSet | riff/riff.py:65 | a code is always-fail iff the optional list is present and holds it; absent and empty both give no codes |
| Violations.Keep | riff/riff.py:69-76 | each violation occurs as often as in the input when it is selected, and not at all otherwise |
| Violations.SelectAndSort | riff/riff.py:67-81 | the result is a permutation of the selected violations, with multiplicities kept, sorted by text key |
| Violations.FilterViolations | riff/riff.py:60-81 | v is in the result iff v is in the input and its line_start is in the set of its path, or its code is in always_fail_on; the result is a sub-multiset of the input with every kept violation at full multiplicity; it is sorted by key |
| Violations.LegacyFilterViolations | riff.py:56-75 | the same selection with a set of always-fail codes, empty unless given; sub-multiset with full multiplicity; sorted by key |
| Violations.FilterVersionsAgree | riff.py:56-75 | the package version with a list of codes equals the script version with the set of those codes; absent codes equal the script's default empty set |
| Violations.NoAlwaysFailCodesMeansLineTestOnly | riff/riff.py:65-74 | with no codes, empty codes or the script's default, a violation survives iff its first line is changed |
| Violations.UnchangedFileOnlyAlwaysFail | riff/riff.py:73-74 | a violation whose path is not a key survives iff its code is always-fail |
| Violations.OnlyFirstLineDecides | riff/riff.py:73 | changing only line_end never changes whether a violation survives |
| Violations.EqualKeysKeepReportOrder | riff/riff.py:68-80 | findings with equal keys keep their input order |
| Violations.SortKeyDistinguishesLines | riff/riff.py:77-79 | the key `str((path, line_start, error_code))` tells findings on the same file and code apart by line; repr escaping inside the key is not modelled (see Left out, Violations.SortKey) |
| Text.LexLeqTotal | riff/riff.py:77-80 | Python's `<=` on `str` relates any two strings one way or the other |
| Text.LexLeqTransitive | riff/riff.py:77-80 | Python's `<=` on `str` is transitive |
| Text.LexLeqAntisymmetric | riff/riff.py:77-80 | two strings each `<=` the other are equal |
| Text.LexLeqCommonPrefix | riff/riff.py:77-79 | a shared prefix does not decide the order of two strings; what follows it does |
| Text.NatToDecimal | riff/riff.py:77-79 | `str(n)` of a non-negative int is a non-empty digit string with no leading zero whose decimal value is n |
| Text.IntToDecimal | riff/riff.py:77-79 | `str(i)` starts with a minus sign iff i is negative; the digits after it denote the magnitude of i, with no leading zero |
| Text.IntToDecimalInjective | riff/riff.py:77-79 | distinct ints print differently |
| Violations.KeyClassIsEqualKeys | riff/riff.py:77-80 | the findings with a key equivalent to k are exactly those whose key is k |
| Violations.KeysOrderLinesAsText | riff/riff.py:77-79 | for the same file and code, the key of line 10 sorts strictly before the key of line 9 |
| Violations.LineTenReportedBeforeLineNine | riff/riff.py:67-81 | filtering a line-9 and a line-10 finding, both on changed lines, reports line 10 first |
| Sorting.SortBy | riff/riff.py:68-80 | the result is a permutation of the input: every element occurs as often as before |
| Sorting.SortBySorted | riff/riff.py:68-80 | when the key order is total and transitive, the result is in non-decreasing key order |
| Sorting.SortByIsStable | riff/riff.py:68-80 | when the key order is transitive, elements with equivalent keys keep their input order |
| Batching.Dedup | utils.py:30 | the same paths as the input, each exactly once |
| Batching.LengthOrder | utils.py:30 | the unique input paths, none repeated, in non-decreasing length |
| Batching.Pack | utils.py:26-43 | stops at the first path whose length reaches the maximum; otherwise the groups concatenate to the input, none is empty or over the maximum, and each group was closed only because the next path did not fit |
| Batching.SplitPathsByMaxLen | utils.py:12-43 | the maximum defaults to 4000; raises iff some path is at least as long as the maximum, naming a shortest such path; otherwise the groups concatenate to the unique paths in length order, each group is non-empty and within the maximum, a group closes only when the next path would overflow it, and empty input gives no groups |

## Left out

- Repository discovery (`Repo(search_parent_directories=True)`) and `validate_repo_path` with its exit status 1: file-system and git I/O. The repository root is an input.
- Running `git diff` and parsing the unified-diff text with unidiff: external libraries. The parsed patch set is the result of the `diff` function parameter. The model does not fix the order in which GitPython places the option flags relative to the positional arguments.
- `json.loads` and `Violation.parse`: library code, and the violation record's own module is not part of this model. A violation keeps only the fields the filter reads, plus the message.
- The legacy `git_changed_lines` builds its keys from `Path(patch.file_path)` (utils.py:85), while the package uses `patched_file.path` (riff/utils.py:114). The model reads the same `path` field for both, taking `file_path` to mean `path`. If unidiff's patched file had no `file_path`, the legacy function would raise on any non-empty diff; unidiff is not part of this model.
- Diff.ParseGitModifiedLines: `repo.git.diff` raises for an unknown base branch or ref (riff/utils.py:107-111, utils.py:87-92). The `diff` parameter is total, so that error path is not modelled.
- `run_ruff` and `main` in both copies: subprocesses, CLI wiring, exit codes and printing. This includes the ruff command-line string. Two call mismatches in this glue are not modelled: `riff/riff.py` imports `parse_git_changed_lines`, which `riff/utils.py` does not define, and the script's `main` passes `repo_path=` to `git_changed_lines`, whose parameter is `path`.
- `validate_paths_relative_to_repo`: it only logs.
- All logging, including the warning for an empty result and the `pprint` dump.
- Paths.Join: pathlib's normalisation is not modelled. It collapses repeated separators, drops `.` components and trailing separators, and renders the empty path as `.`. Paths are compared as plain text.
- Violations.SortKey: Python's `repr` escaping of quotes, backslashes and non-printable characters inside the path and the code is not modelled. The key renders them verbatim.
- Diff.LegacyModifiedLines: a removed line without a source number would put Python's `None` into the set. The model collects only defined numbers, because unidiff numbers every removed line.
- Batching.Dedup: CPython iterates `set(paths)` in hash order. The model takes first occurrences instead. Group boundaries depend only on path lengths, so CPython's groups differ from the model's only in the order of equal-length paths; `Flatten(r.value) == LengthOrder(paths)` in `Batching.SplitPathsByMaxLen` holds for first-occurrence order.
- Violations.ParseRuffOutput: a decoded JSON value that is not a list (iterating a dict's keys, for instance) is not modelled. The decoder returns a sequence of records.
- Text.Strip: the characters removed are those of `str.isspace()` as of Unicode 15, listed explicitly. Other Unicode versions are not modelled.
