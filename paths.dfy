/**
 * Paths as sequences of segments. `Path.Combine(a, b, c)` on the source's side
 * becomes `a + [b, c]` here; the root directory is the empty path.
 */
module Paths {

  type Path = seq<string>

  /** `p` is `q` itself or one of its ancestors. */
  predicate IsPrefix(p: Path, q: Path) {
    |p| <= |q| && q[..|p|] == p
  }

  /** `q` lies strictly inside the directory `p`. */
  predicate IsStrictPrefix(p: Path, q: Path) {
    |p| < |q| && q[..|p|] == p
  }

  /** Neither path lies inside the other (this also rules out `p == q`). */
  predicate Nested(p: Path, q: Path) {
    IsPrefix(p, q) || IsPrefix(q, p)
  }

  function Parent(p: Path): (r: Path)
    requires p != []
    ensures IsStrictPrefix(r, p) && |r| == |p| - 1
  {
    p[..|p| - 1]
  }

  /** `Path.GetFileName`: the last segment. */
  function FileName(p: Path): (r: string)
    requires p != []
    ensures p == Parent(p) + [r]
  {
    p[|p| - 1]
  }

  /** Every ancestor of `p`, the root and `p` itself included. */
  function Prefixes(p: Path): (r: set<Path>)
    ensures forall q :: q in r <==> IsPrefix(q, p)
  {
    var r := set i | 0 <= i <= |p| :: p[..i];
    assert forall q :: IsPrefix(q, p) ==> q == p[..|q|];
    r
  }

  /** The part of `q` below its ancestor `p`. */
  function Rel(p: Path, q: Path): (r: Path)
    requires IsPrefix(p, q)
    ensures q == p + r && |r| == |q| - |p|
  {
    assert q == q[..|p|] + q[|p|..];
    q[|p|..]
  }

  lemma PrefixOfConcat(p: Path, r: Path)
    ensures IsPrefix(p, p + r) && Rel(p, p + r) == r
    ensures r != [] ==> IsStrictPrefix(p, p + r)
  {
    assert (p + r)[..|p|] == p;
  }

  lemma PrefixTransitive(a: Path, b: Path, c: Path)
    ensures IsPrefix(a, b) && IsPrefix(b, c) ==> IsPrefix(a, c)
  {
    if IsPrefix(a, b) && IsPrefix(b, c) {
      assert c[..|a|] == c[..|b|][..|a|];
    }
  }

  /** Two ancestors of one path are ordered by length. */
  lemma PrefixesComparable(a: Path, b: Path, c: Path)
    requires IsPrefix(a, c) && IsPrefix(b, c)
    ensures Nested(a, b)
  {
    if |a| <= |b| {
      assert b[..|a|] == c[..|b|][..|a|];
    } else {
      assert a[..|b|] == c[..|a|][..|b|];
    }
  }

  /**
   * Appending the same segment to two paths that are not nested keeps them
   * apart; this is why `CopyDirectory` may recurse into `src + [d]`,
   * `tgt + [d]`.
   */
  lemma NotNestedChild(src: Path, tgt: Path, d: string)
    ensures Nested(src + [d], tgt + [d]) ==> Nested(src, tgt)
  {
    if IsPrefix(src + [d], tgt + [d]) {
      assert (tgt + [d])[..|src|] == (src + [d])[..|src|];
      assert tgt[..|src|] == src;
    }
    if IsPrefix(tgt + [d], src + [d]) {
      assert (src + [d])[..|tgt|] == (tgt + [d])[..|tgt|];
      assert src[..|tgt|] == tgt;
    }
  }

  /** The child `d` of two folders is one path only when the folders are one. */
  lemma SameChild(p: Path, q: Path, d: string)
    ensures Parent(p + [d]) == p
    ensures p + [d] == q + [d] <==> p == q
  {
    assert (p + [d])[..|p|] == p;
    assert (q + [d])[..|q|] == q;
  }

  /** A path inside `p + [d]` is inside `p`. */
  lemma ChildPrefix(p: Path, d: string, q: Path)
    requires IsPrefix(p + [d], q)
    ensures IsStrictPrefix(p, q)
  {
    assert q[..|p|] == q[..|p| + 1][..|p|];
    assert (p + [d])[..|p|] == p;
  }

  /** Nothing inside `a` is inside `b` when `a` and `b` are not nested. */
  lemma DisjointSubtrees(a: Path, b: Path, q: Path)
    requires !Nested(a, b)
    ensures !(IsPrefix(a, q) && IsPrefix(b, q))
  {
    if IsPrefix(a, q) && IsPrefix(b, q) {
      PrefixesComparable(a, b, q);
    }
  }

  /** The ancestors of `p + [d]` are `p + [d]` itself and the ancestors of `p`. */
  lemma PrefixOfChild(q: Path, p: Path, d: string)
    ensures IsPrefix(q, p + [d]) <==> q == p + [d] || IsPrefix(q, p)
  {
    if IsPrefix(q, p + [d]) && q != p + [d] {
      assert |q| <= |p|;
      assert p[..|q|] == (p + [d])[..|q|];
    }
    if IsPrefix(q, p) {
      assert (p + [d])[..|q|] == p[..|q|];
    }
  }

  /** Inside `p + [d]` is inside `p`, below its entry `d`. */
  lemma InsideChild(p: Path, d: string, q: Path)
    ensures IsStrictPrefix(p + [d], q) <==> IsStrictPrefix(p, q) && |q| > |p| + 1 && q[|p|] == d
    ensures IsPrefix(p + [d], q) ==> IsStrictPrefix(p, q)
  {
    if |q| > |p| {
      assert q[..|p| + 1] == q[..|p|] + [q[|p|]];
      if IsPrefix(p + [d], q) {
        assert q[..|p|] == q[..|p| + 1][..|p|];
        assert (p + [d])[..|p|] == p;
      }
    }
  }

  /** The parts of `q` below `p`, and below `p + [d]`, differ by the segment `d`. */
  lemma RelChild(p: Path, d: string, q: Path)
    requires IsPrefix(p + [d], q)
    ensures IsPrefix(p, q) && Rel(p, q) == [d] + Rel(p + [d], q)
  {
    InsideChild(p, d, q);
  }

  /** A path inside `src` neither lies inside `tgt` nor on the way to it, when the two are not nested. */
  lemma OutsideTarget(src: Path, tgt: Path, q: Path)
    ensures !Nested(src, tgt) && IsPrefix(src, q) ==> !IsPrefix(tgt, q) && !IsPrefix(q, tgt)
  {
    if !Nested(src, tgt) && IsPrefix(src, q) {
      DisjointSubtrees(src, tgt, q);
      PrefixTransitive(src, q, tgt);
    }
  }
}
