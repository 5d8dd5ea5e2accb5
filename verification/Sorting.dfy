/**
 Python's `sorted(xs, key=k)` over a total preorder on keys: a stable sort,
 written as an insertion sort on sequences.
 */
module Sorting {

  ghost predicate IsTotal<K(!new)>(leq: (K, K) -> bool)
  {
    forall a, b :: leq(a, b) || leq(b, a)
  }

  ghost predicate IsTransitive<K(!new)>(leq: (K, K) -> bool)
  {
    forall a, b, c :: leq(a, b) && leq(b, c) ==> leq(a, c)
  }

  ghost predicate IsTotalPreorder<K(!new)>(leq: (K, K) -> bool)
  {
    IsTotal(leq) && IsTransitive(leq)
  }

  ghost predicate SortedBy<T, K>(s: seq<T>, key: T -> K, leq: (K, K) -> bool)
  {
    forall i, j :: 0 <= i < j < |s| ==> leq(key(s[i]), key(s[j]))
  }

  /** Places `x` in front of the first element whose key is not below its own. */
  function Insert<T, K>(x: T, s: seq<T>, key: T -> K, leq: (K, K) -> bool): (r: seq<T>)
    ensures multiset(r) == multiset(s) + multiset{x}
  {
    if s == [] || leq(key(x), key(s[0])) then [x] + s
    else
      assert s == [s[0]] + s[1..];
      [s[0]] + Insert(x, s[1..], key, leq)
  }

  /** A sorted sequence stays sorted behind an element whose key bounds all of it from below. */
  lemma ConsSorted<T, K>(y: T, t: seq<T>, key: T -> K, leq: (K, K) -> bool)
    requires SortedBy(t, key, leq)
    requires forall z :: z in t ==> leq(key(y), key(z))
    ensures SortedBy([y] + t, key, leq)
  {
    var r := [y] + t;
    forall i, j | 0 <= i < j < |r|
      ensures leq(key(r[i]), key(r[j]))
    {
      assert r[j] == t[j - 1];
      if i > 0 {
        assert r[i] == t[i - 1];
      }
    }
  }

  /** A key below the head of a sorted sequence is below every element of it. */
  lemma BelowHeadBelowAll<T, K(!new)>(x: T, s: seq<T>, key: T -> K, leq: (K, K) -> bool)
    requires IsTransitive(leq)
    requires SortedBy(s, key, leq)
    requires s != [] && leq(key(x), key(s[0]))
    ensures forall z :: z in s ==> leq(key(x), key(z))
  {
    forall z | z in s
      ensures leq(key(x), key(z))
    {
      var j :| 0 <= j < |s| && s[j] == z;
      if j > 0 {
        assert leq(key(s[0]), key(s[j]));
      }
    }
  }

  lemma {:induction false} InsertSorted<T, K(!new)>(x: T, s: seq<T>, key: T -> K, leq: (K, K) -> bool)
    requires IsTotalPreorder(leq)
    requires SortedBy(s, key, leq)
    ensures SortedBy(Insert(x, s, key, leq), key, leq)
  {
    if s == [] || leq(key(x), key(s[0])) {
      if s != [] {
        BelowHeadBelowAll(x, s, key, leq);
      }
      ConsSorted(x, s, key, leq);
    } else {
      var tail := Insert(x, s[1..], key, leq);
      InsertSorted(x, s[1..], key, leq);
      assert s == [s[0]] + s[1..];
      forall y | y in tail
        ensures leq(key(s[0]), key(y))
      {
        assert y in multiset(tail);
        if y != x {
          assert y in multiset(s[1..]);
          var j :| 0 <= j < |s[1..]| && s[1..][j] == y;
          assert s[j + 1] == y;
        }
      }
      ConsSorted(s[0], tail, key, leq);
    }
  }

  /** Sorts by key; elements whose keys are equivalent keep their input order. */
  function SortBy<T, K>(s: seq<T>, key: T -> K, leq: (K, K) -> bool): (r: seq<T>)
    ensures multiset(r) == multiset(s)
  {
    if s == [] then []
    else
      assert s == [s[0]] + s[1..];
      Insert(s[0], SortBy(s[1..], key, leq), key, leq)
  }

  /** Under a total preorder on keys, `SortBy` orders its result by key. */
  lemma {:induction false} SortBySorted<T, K(!new)>(s: seq<T>, key: T -> K, leq: (K, K) -> bool)
    requires IsTotalPreorder(leq)
    ensures SortedBy(SortBy(s, key, leq), key, leq)
  {
    if s != [] {
      SortBySorted(s[1..], key, leq);
      InsertSorted(s[0], SortBy(s[1..], key, leq), key, leq);
    }
  }

  /** The elements of `s` whose key is equivalent to `k`, in their order in `s`. */
  function WithKey<T, K>(s: seq<T>, key: T -> K, leq: (K, K) -> bool, k: K): seq<T>
  {
    if s == [] then []
    else (if leq(key(s[0]), k) && leq(k, key(s[0])) then [s[0]] else []) + WithKey(s[1..], key, leq, k)
  }

  lemma {:induction false} InsertWithKey<T, K(!new)>(x: T, t: seq<T>, key: T -> K, leq: (K, K) -> bool, k: K)
    requires IsTransitive(leq)
    ensures WithKey(Insert(x, t, key, leq), key, leq, k)
         == (if leq(key(x), k) && leq(k, key(x)) then [x] else []) + WithKey(t, key, leq, k)
  {
    var r := Insert(x, t, key, leq);
    var xPart: seq<T> := if leq(key(x), k) && leq(k, key(x)) then [x] else [];
    if t == [] || leq(key(x), key(t[0])) {
      assert r == [x] + t;
      assert r[1..] == t;
    } else {
      var rest := Insert(x, t[1..], key, leq);
      InsertWithKey(x, t[1..], key, leq, k);
      assert r == [t[0]] + rest;
      assert r[1..] == rest;
      var tPart: seq<T> := if leq(key(t[0]), k) && leq(k, key(t[0])) then [t[0]] else [];
      assert WithKey(r, key, leq, k) == tPart + (xPart + WithKey(t[1..], key, leq, k));
      assert WithKey(t, key, leq, k) == tPart + WithKey(t[1..], key, leq, k);
      assert xPart == [] || tPart == [];
    }
  }

  /** `SortBy` is stable: among elements with equivalent keys, the input order is kept. */
  lemma {:induction false} SortByIsStable<T, K(!new)>(s: seq<T>, key: T -> K, leq: (K, K) -> bool, k: K)
    requires IsTransitive(leq)
    ensures WithKey(SortBy(s, key, leq), key, leq, k) == WithKey(s, key, leq, k)
  {
    if s != [] {
      SortByIsStable(s[1..], key, leq, k);
      InsertWithKey(s[0], SortBy(s[1..], key, leq), key, leq, k);
    }
  }

  ghost predicate IsAntisymmetric<K(!new)>(leq: (K, K) -> bool)
  {
    forall a, b :: leq(a, b) && leq(b, a) ==> a == b
  }

  /** Under a total, antisymmetric order, the elements with a key equivalent to `k` are those whose key is `k`. */
  lemma {:induction false} WithKeyIsEqualKey<T, K(!new)>(s: seq<T>, key: T -> K, leq: (K, K) -> bool, k: K)
    requires IsTotal(leq) && IsAntisymmetric(leq)
    ensures forall x :: x in WithKey(s, key, leq, k) <==> x in s && key(x) == k
  {
    if s != [] {
      WithKeyIsEqualKey(s[1..], key, leq, k);
      assert leq(k, k);
      assert forall x :: x in s <==> x == s[0] || x in s[1..];
    }
  }

  /** A sorted arrangement of two elements puts the one with the strictly smaller key first. */
  lemma SortedPair<T, K>(r: seq<T>, first: T, second: T, key: T -> K, leq: (K, K) -> bool)
    requires multiset(r) == multiset([second, first]) && first != second
    requires SortedBy(r, key, leq)
    requires !leq(key(second), key(first))
    ensures r == [first, second]
  {
    assert |r| == |multiset(r)| == 2;
    assert r[0] in multiset(r) && r[1] in multiset(r);
    assert leq(key(r[0]), key(r[1]));
  }
}
