/** File-system paths as their `str()` text, and pathlib's `/` operator on POSIX paths. */
module Paths {

  type Path = string

  predicate IsAbsolute(p: Path)
  {
    |p| > 0 && p[0] == '/'
  }

  /**
   `root / rel`: an absolute right operand replaces the left one; otherwise the two
   are joined with a single separator, and an empty side leaves the other unchanged.
   */
  function Join(root: Path, rel: Path): (r: Path)
    ensures IsAbsolute(rel) ==> r == rel
    ensures !IsAbsolute(rel) ==> |root| <= |r| && r[..|root|] == root
    ensures |rel| <= |r| && r[|r| - |rel|..] == rel
    ensures !IsAbsolute(rel) && rel != [] && root != [] ==>
      |r| == |root| + |rel| + (if root[|root| - 1] == '/' then 0 else 1) && r[|r| - |rel| - 1] == '/'
  {
    if IsAbsolute(rel) then rel
    else if rel == [] then root
    else if root == [] then rel
    else if root[|root| - 1] == '/' then root + rel
    else root + "/" + rel
  }

  /** Under one root, distinct relative paths never join to the same path. */
  lemma JoinInjective(root: Path, a: Path, b: Path)
    requires !IsAbsolute(a) && !IsAbsolute(b)
    requires Join(root, a) == Join(root, b)
    ensures a == b
  {
    var r := Join(root, a);
    if a == [] || b == [] {
      assert r == root;
    } else if root != [] {
      assert |a| == |b|;
      assert a == r[|r| - |a|..] == b;
    }
  }
}
