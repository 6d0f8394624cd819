/** Column positions: the range 0 .. n-1, rearrangements of it, and the counting facts about them. */
module Indices {

  /** The positions of a row of n columns. */
  function Range(n: nat): (r: set<nat>)
    ensures forall k: nat :: k in r <==> k < n
  {
    if n == 0 then {} else Range(n - 1) + {n - 1}
  }

  /** The values a sequence of positions takes. */
  function Elements(s: seq<nat>): set<nat> {
    set k | 0 <= k < |s| :: s[k]
  }

  /** No position occurs twice. */
  predicate Distinct(s: seq<nat>) {
    forall i, j :: 0 <= i < j < |s| ==> s[i] != s[j]
  }

  /** perm rearranges the columns of a row of n: every position below n, each exactly once. */
  predicate IsPermutation(perm: seq<nat>, n: nat) {
    |perm| == n && Distinct(perm) && forall k :: 0 <= k < n ==> perm[k] < n
  }

  /** The row whose column k is column perm[k] of s. */
  function Permute<T>(s: seq<T>, perm: seq<nat>): (r: seq<T>)
    requires forall k :: 0 <= k < |perm| ==> perm[k] < |s|
    ensures |r| == |perm|
    ensures forall k :: 0 <= k < |perm| ==> r[k] == s[perm[k]]
  {
    seq(|perm|, k requires 0 <= k < |perm| => s[perm[k]])
  }

  lemma {:induction false} RangeSize(n: nat)
    ensures |Range(n)| == n
  {
    if n > 0 {
      RangeSize(n - 1);
    }
  }

  /** A sequence without repetitions has as many values as elements. */
  lemma {:induction false} DistinctSize(s: seq<nat>)
    requires Distinct(s)
    ensures |Elements(s)| == |s|
  {
    if s == [] {
      assert Elements(s) == {};
    } else {
      var front := s[..|s| - 1];
      DistinctSize(front);
      assert Elements(s) == Elements(front) + {s[|s| - 1]};
      assert s[|s| - 1] !in Elements(front);
    }
  }

  /** A set of positions strictly inside another has fewer elements. */
  lemma {:induction false} ProperSubsetSize(a: set<nat>, b: set<nat>)
    requires a < b
    ensures |a| < |b|
  {
    assert b - a != {};
    var x :| x in b - a;
    var b' := b - {x};
    assert a <= b';
    SubsetSize(a, b');
  }

  lemma {:induction false} SubsetSize(a: set<nat>, b: set<nat>)
    requires a <= b
    ensures |a| <= |b|
    decreases |b|
  {
    if a != {} {
      var x :| x in a;
      SubsetSize(a - {x}, b - {x});
    }
  }

  /** n distinct positions below n take every position below n: a rearrangement is onto. */
  lemma PermutationOnto(perm: seq<nat>, n: nat)
    requires IsPermutation(perm, n)
    ensures Elements(perm) == Range(n)
    ensures forall c :: 0 <= c < n ==> c in Elements(perm)
  {
    DistinctSize(perm);
    RangeSize(n);
    assert Elements(perm) <= Range(n);
    if Elements(perm) != Range(n) {
      ProperSubsetSize(Elements(perm), Range(n));
    }
  }
}
