/** Sequence helpers used across the model: index ranges, sums, the
    minimum of a sequence and numpy's `unique`. */
module Seqs {

  /** The row indices 0, 1, ..., n-1 in ascending order (numpy's `arange`). */
  function Range(n: nat): (r: seq<nat>)
    ensures |r| == n
    ensures forall i :: 0 <= i < n ==> r[i] == i
  {
    if n == 0 then [] else Range(n - 1) + [n - 1]
  }

  /** An n-by-n matrix. */
  ghost predicate Square<T>(m: seq<seq<T>>, n: nat) {
    |m| == n && forall i :: 0 <= i < n ==> |m[i]| == n
  }

  ghost predicate StrictlyIncreasing(s: seq<int>) {
    forall a, b :: 0 <= a < b < |s| ==> s[a] < s[b]
  }

  function SumNat(s: seq<nat>): nat {
    if |s| == 0 then 0 else SumNat(s[..|s| - 1]) + s[|s| - 1]
  }

  function SumReal(s: seq<real>): real {
    if |s| == 0 then 0.0 else SumReal(s[..|s| - 1]) + s[|s| - 1]
  }

  /** The least element of a non-empty sequence. */
  function Min(s: seq<int>): (m: int)
    requires |s| > 0
    ensures m in s
    ensures forall x :: x in s ==> m <= x
  {
    if |s| == 1 then s[0]
    else
      var rest := Min(s[1..]);
      assert forall x :: x in s ==> x == s[0] || x in s[1..];
      if s[0] <= rest then s[0] else rest
  }

  /** s with every occurrence of v removed, order kept. */
  function Without(s: seq<int>, v: int): (r: seq<int>)
    ensures forall x :: x in r <==> x in s && x != v
    ensures |r| <= |s|
    ensures v in s ==> |r| < |s|
  {
    if |s| == 0 then []
    else (if s[0] == v then [] else [s[0]]) + Without(s[1..], v)
  }

  /** numpy's `unique`: the distinct values of s in ascending order. */
  function SortedUnique(s: seq<int>): (r: seq<int>)
    ensures forall x :: x in r <==> x in s
    ensures StrictlyIncreasing(r)
    decreases |s|
  {
    if |s| == 0 then []
    else
      var m := Min(s);
      [m] + SortedUnique(Without(s, m))
  }

  /** Every element of s occurs among its distinct values. */
  lemma SortedUniqueCovers(s: seq<int>)
    ensures forall i :: 0 <= i < |s| ==> s[i] in SortedUnique(s)
  {
    forall i | 0 <= i < |s|
      ensures s[i] in SortedUnique(s)
    {
      assert s[i] in s;
    }
  }
}
