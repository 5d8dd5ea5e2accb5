/**
 Grouping the paths handed to one ruff invocation: the deduplicated paths, shortest
 first, packed greedily into groups whose total length stays within a maximum.
 */
module Batching {
  import opened Wrappers
  import opened Sorting
  import opened Paths

  const DefaultMaxLengthSum := 4000

  /** The `ValueError` raised for a path that is at least as long as the maximum. */
  datatype SplitError = PathTooLong(path: Path, maxLengthSum: int)

  ghost predicate NoDuplicates(s: seq<Path>)
  {
    forall p :: multiset(s)[p] <= 1
  }

  /** One copy of each path, in order of first occurrence. */
  function Dedup(s: seq<Path>): (r: seq<Path>)
    ensures forall p :: p in r <==> p in s
    ensures NoDuplicates(r)
  {
    if s == [] then []
    else
      var init := s[..|s| - 1];
      var last := s[|s| - 1];
      assert s == init + [last];
      var r := Dedup(init);
      if last in init then r else r + [last]
  }

  function PathLength(p: Path): int
  {
    |p|
  }

  predicate IntLeq(a: int, b: int)
  {
    a <= b
  }

  /** `sorted(set(paths), key=lambda x: len(str(x)))`. */
  function LengthOrder(paths: seq<Path>): (r: seq<Path>)
    ensures forall p :: p in r <==> p in paths
    ensures NoDuplicates(r)
    ensures forall i, j :: 0 <= i < j < |r| ==> |r[i]| <= |r[j]|
  {
    assert IsTotalPreorder(IntLeq);
    var unique := Dedup(paths);
    SortBySorted(unique, PathLength, IntLeq);
    var r := SortBy(unique, PathLength, IntLeq);
    assert forall p :: p in r <==> p in multiset(r);
    assert forall p :: p in unique <==> p in multiset(unique);
    r
  }

  /** The total length of a group. */
  function Sum(group: seq<Path>): nat
  {
    if group == [] then 0 else Sum(group[..|group| - 1]) + |group[|group| - 1]|
  }

  /** The groups laid end to end. */
  function Flatten(groups: seq<seq<Path>>): seq<Path>
  {
    if groups == [] then [] else Flatten(groups[..|groups| - 1]) + groups[|groups| - 1]
  }

  lemma SumAppend(group: seq<Path>, p: Path)
    ensures Sum(group + [p]) == Sum(group) + |p|
  {
    assert (group + [p])[..|group|] == group;
  }

  lemma FlattenAppend(groups: seq<seq<Path>>, g: seq<Path>)
    ensures Flatten(groups + [g]) == Flatten(groups) + g
  {
    assert (groups + [g])[..|groups|] == groups;
  }

  /** Every group holds at least one path and stays within the maximum. */
  ghost predicate WithinMaximum(groups: seq<seq<Path>>, maxLengthSum: int)
  {
    forall k :: 0 <= k < |groups| ==> groups[k] != [] && Sum(groups[k]) <= maxLengthSum
  }

  /** Each group was closed only because the next group's first path would not have fitted into it. */
  ghost predicate ClosedWhenFull(groups: seq<seq<Path>>, maxLengthSum: int)
  {
    forall k :: 0 < k < |groups| ==> groups[k] != [] && Sum(groups[k - 1]) + |groups[k][0]| > maxLengthSum
  }

  /** Adding a path to the open (last) group keeps every earlier decision to close a group justified. */
  lemma ExtendOpenGroup(closed: seq<seq<Path>>, open: seq<Path>, p: Path, maxLengthSum: int)
    requires open != [] || closed == []
    requires ClosedWhenFull(closed + [open], maxLengthSum)
    ensures ClosedWhenFull(closed + [open + [p]], maxLengthSum)
  {
    var before := closed + [open];
    var after := closed + [open + [p]];
    forall k | 0 < k < |after|
      ensures after[k] != [] && Sum(after[k - 1]) + |after[k][0]| > maxLengthSum
    {
      assert after[k - 1] == before[k - 1];
      if k < |after| - 1 {
        assert after[k] == before[k];
      } else {
        assert after[k][0] == before[k][0];
      }
    }
  }

  /** Closing the open group because `p` does not fit, and opening a new group with `p`. */
  lemma CloseOpenGroup(closed: seq<seq<Path>>, open: seq<Path>, p: Path, maxLengthSum: int)
    requires ClosedWhenFull(closed + [open], maxLengthSum)
    requires Sum(open) + |p| > maxLengthSum
    ensures ClosedWhenFull((closed + [open]) + [[p]], maxLengthSum)
  {
    var before := closed + [open];
    var after := before + [[p]];
    forall k | 0 < k < |after|
      ensures after[k] != [] && Sum(after[k - 1]) + |after[k][0]| > maxLengthSum
    {
      if k < |after| - 1 {
        assert after[k] == before[k] && after[k - 1] == before[k - 1];
      }
    }
  }

  lemma CloseWithinMaximum(closed: seq<seq<Path>>, open: seq<Path>, maxLengthSum: int)
    requires WithinMaximum(closed, maxLengthSum)
    requires open != [] && Sum(open) <= maxLengthSum
    ensures WithinMaximum(closed + [open], maxLengthSum)
  {
    var grown := closed + [open];
    forall k | 0 <= k < |grown|
      ensures grown[k] != [] && Sum(grown[k]) <= maxLengthSum
    {
      if k < |closed| {
        assert grown[k] == closed[k];
      }
    }
  }

  /** The first path in length order that reaches the maximum is a shortest such path. */
  lemma FirstTooLongIsShortest(paths: seq<Path>, i: int, maxLengthSum: int)
    requires 0 <= i < |LengthOrder(paths)|
    requires forall k :: 0 <= k < i ==> |LengthOrder(paths)[k]| < maxLengthSum
    ensures forall p :: p in paths && |p| >= maxLengthSum ==> |LengthOrder(paths)[i]| <= |p|
  {
    var order := LengthOrder(paths);
    forall p | p in paths && |p| >= maxLengthSum
      ensures |order[i]| <= |p|
    {
      var k :| 0 <= k < |order| && order[k] == p;
      assert i <= k;
    }
  }

  /**
   The loop of `split_paths_by_max_len` over an already ordered sequence: it stops at
   the first path that reaches the maximum, and otherwise packs greedily.
   */
  method Pack(order: seq<Path>, maxLengthSum: int) returns (r: Result<seq<seq<Path>>, nat>)
    ensures r.Failure? ==> r.error < |order| && |order[r.error]| >= maxLengthSum
    ensures r.Failure? ==> forall k :: 0 <= k < r.error ==> |order[k]| < maxLengthSum
    ensures r.Success? ==> forall k :: 0 <= k < |order| ==> |order[k]| < maxLengthSum
    ensures r.Success? ==> Flatten(r.value) == order
    ensures r.Success? ==> WithinMaximum(r.value, maxLengthSum)
    ensures r.Success? ==> ClosedWhenFull(r.value, maxLengthSum)
  {
    var result: seq<seq<Path>> := [];
    var current: seq<Path> := [];
    var currentSum := 0;
    var i := 0;
    while i < |order|
      invariant 0 <= i <= |order|
      invariant forall k :: 0 <= k < i ==> |order[k]| < maxLengthSum
      invariant Flatten(result) + current == order[..i]
      invariant currentSum == Sum(current)
      invariant current != [] ==> currentSum <= maxLengthSum
      invariant WithinMaximum(result, maxLengthSum)
      invariant i > 0 ==> current != []
      invariant i == 0 ==> result == []
      invariant ClosedWhenFull(result + [current], maxLengthSum)
    {
      var path := order[i];
      var pathLength := |path|;
      if pathLength >= maxLengthSum {
        return Failure(i);
      }
      assert order[..i + 1] == order[..i] + [path];
      if currentSum + pathLength <= maxLengthSum {
        SumAppend(current, path);
        ExtendOpenGroup(result, current, path, maxLengthSum);
        current := current + [path];
        currentSum := currentSum + pathLength;
      } else {
        FlattenAppend(result, current);
        CloseOpenGroup(result, current, path, maxLengthSum);
        CloseWithinMaximum(result, current, maxLengthSum);
        result := result + [current];
        current := [path];
        currentSum := pathLength;
        assert Sum(current) == Sum([]) + |path|;
      }
      i := i + 1;
    }
    assert order[..i] == order;
    if current != [] {
      FlattenAppend(result, current);
      CloseWithinMaximum(result, current, maxLengthSum);
      result := result + [current];
    }
    return Success(result);
  }

  /**
   `split_paths_by_max_len`, whose maximum is 4000 unless given: fails on the first
   path, in length order, whose length reaches the maximum; otherwise the groups, laid
   end to end, are exactly the length-ordered unique paths, no group is empty or over
   the maximum, and a group ends only where the next path would not have fitted.
   */
  method SplitPathsByMaxLen(paths: seq<Path>, maxLengthSum: int := DefaultMaxLengthSum) returns (r: Result<seq<seq<Path>>, SplitError>)
    ensures r.Failure? <==> exists p :: p in paths && |p| >= maxLengthSum
    ensures r.Failure? ==> r.error.maxLengthSum == maxLengthSum && r.error.path in paths && |r.error.path| >= maxLengthSum
    ensures r.Failure? ==> forall p :: p in paths && |p| >= maxLengthSum ==> |r.error.path| <= |p|
    ensures r.Success? ==> Flatten(r.value) == LengthOrder(paths)
    ensures r.Success? ==> WithinMaximum(r.value, maxLengthSum)
    ensures r.Success? ==> ClosedWhenFull(r.value, maxLengthSum)
    ensures paths == [] ==> r == Success([])
  {
    var order := LengthOrder(paths);
    var packed := Pack(order, maxLengthSum);
    match packed
    case Failure(i) =>
      FirstTooLongIsShortest(paths, i, maxLengthSum);
      assert order[i] in paths;
      return Failure(PathTooLong(order[i], maxLengthSum));
    case Success(groups) =>
      forall p | p in paths
        ensures |p| < maxLengthSum
      {
        var k :| 0 <= k < |order| && order[k] == p;
      }
      if paths == [] {
        assert order == [];
      }
      return Success(groups);
  }
}
