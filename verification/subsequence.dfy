/** The longest common subsequence that `StringDistance.LongestCommonSubsequence` counts: cell
  * (i, j) of its table is the length of a longest common subsequence of `a[..i]` and `b[..j]`. */
module Subsequences {

  /** `xs` and `ys` pick the same number of positions, in strictly increasing order, from
    * `a[..i]` and `b[..j]`, and the picked elements agree pairwise under the comparer. */
  predicate IsCommon<T>(a: seq<T>, b: seq<T>, eq: (T, T) -> bool, xs: seq<int>, ys: seq<int>, i: nat, j: nat)
  {
    && i <= |a| && j <= |b| && |xs| == |ys|
    && (forall k :: 0 <= k < |xs| ==> 0 <= xs[k] < i && 0 <= ys[k] < j && eq(a[xs[k]], b[ys[k]]))
    && (forall k1, k2 :: 0 <= k1 < k2 < |xs| ==> xs[k1] < xs[k2] && ys[k1] < ys[k2])
  }

  /** Table cell (i, j). Row 0 and column 0 are 0; equal elements extend the diagonal;
    * otherwise the left cell is taken when it is strictly larger than the upper one. */
  function Lcs<T>(a: seq<T>, b: seq<T>, eq: (T, T) -> bool, i: nat, j: nat): (r: nat)
    requires i <= |a| && j <= |b|
    ensures r <= i && r <= j
    decreases i + j
  {
    if i == 0 || j == 0 then 0
    else if eq(a[i - 1], b[j - 1]) then Lcs(a, b, eq, i - 1, j - 1) + 1
    else if Lcs(a, b, eq, i, j - 1) > Lcs(a, b, eq, i - 1, j) then Lcs(a, b, eq, i, j - 1)
    else Lcs(a, b, eq, i - 1, j)
  }

  /** The positions of a common subsequence as long as cell (i, j), read back from the table. */
  function Witness<T>(a: seq<T>, b: seq<T>, eq: (T, T) -> bool, i: nat, j: nat): (r: (seq<int>, seq<int>))
    requires i <= |a| && j <= |b|
    ensures IsCommon(a, b, eq, r.0, r.1, i, j) && |r.0| == Lcs(a, b, eq, i, j)
    decreases i + j
  {
    if i == 0 || j == 0 then ([], [])
    else if eq(a[i - 1], b[j - 1]) then
      var w := Witness(a, b, eq, i - 1, j - 1);
      (w.0 + [i - 1], w.1 + [j - 1])
    else if Lcs(a, b, eq, i, j - 1) > Lcs(a, b, eq, i - 1, j) then Witness(a, b, eq, i, j - 1)
    else Witness(a, b, eq, i - 1, j)
  }

  /** Moving one row or one column on grows a cell by 0 or 1. */
  lemma {:induction false} Steps<T>(a: seq<T>, b: seq<T>, eq: (T, T) -> bool, i: nat, j: nat)
    requires i <= |a| && j <= |b|
    ensures j > 0 ==> Lcs(a, b, eq, i, j - 1) <= Lcs(a, b, eq, i, j) <= Lcs(a, b, eq, i, j - 1) + 1
    ensures i > 0 ==> Lcs(a, b, eq, i - 1, j) <= Lcs(a, b, eq, i, j) <= Lcs(a, b, eq, i - 1, j) + 1
    decreases i + j
  {
    if i > 0 && j > 0 {
      Steps(a, b, eq, i, j - 1);
      Steps(a, b, eq, i - 1, j);
    }
  }

  /** No common subsequence of `a[..i]` and `b[..j]` is longer than cell (i, j). */
  lemma {:induction false} LcsIsLongest<T>(a: seq<T>, b: seq<T>, eq: (T, T) -> bool, xs: seq<int>, ys: seq<int>, i: nat, j: nat)
    requires IsCommon(a, b, eq, xs, ys, i, j)
    ensures |xs| <= Lcs(a, b, eq, i, j)
    decreases i + j
  {
    var n := |xs|;
    if n > 0 {
      Steps(a, b, eq, i, j);
      if xs[n - 1] < i - 1 {
        CommonAbove(a, b, eq, xs, ys, i, j);
        LcsIsLongest(a, b, eq, xs, ys, i - 1, j);
      } else if ys[n - 1] < j - 1 {
        CommonLeft(a, b, eq, xs, ys, i, j);
        LcsIsLongest(a, b, eq, xs, ys, i, j - 1);
      } else {
        CommonDiagonal(a, b, eq, xs, ys, i, j);
        LcsIsLongest(a, b, eq, xs[..n - 1], ys[..n - 1], i - 1, j - 1);
      }
    }
  }

  /** A common subsequence whose last position in `a` is before `i - 1` is one of
    * `a[..i - 1]` and `b[..j]`. */
  lemma CommonAbove<T>(a: seq<T>, b: seq<T>, eq: (T, T) -> bool, xs: seq<int>, ys: seq<int>, i: nat, j: nat)
    requires IsCommon(a, b, eq, xs, ys, i, j) && |xs| > 0 && xs[|xs| - 1] < i - 1
    ensures IsCommon(a, b, eq, xs, ys, i - 1, j)
  {
    assert forall k :: 0 <= k < |xs| - 1 ==> xs[k] < xs[|xs| - 1];
  }

  /** A common subsequence whose last position in `b` is before `j - 1` is one of
    * `a[..i]` and `b[..j - 1]`. */
  lemma CommonLeft<T>(a: seq<T>, b: seq<T>, eq: (T, T) -> bool, xs: seq<int>, ys: seq<int>, i: nat, j: nat)
    requires IsCommon(a, b, eq, xs, ys, i, j) && |ys| > 0 && ys[|ys| - 1] < j - 1
    ensures IsCommon(a, b, eq, xs, ys, i, j - 1)
  {
    assert forall k :: 0 <= k < |ys| - 1 ==> ys[k] < ys[|ys| - 1];
  }

  /** A common subsequence that ends with `a[i - 1]` and `b[j - 1]` is one of `a[..i - 1]`
    * and `b[..j - 1]` with that pair after it, and the pair agrees. */
  lemma CommonDiagonal<T>(a: seq<T>, b: seq<T>, eq: (T, T) -> bool, xs: seq<int>, ys: seq<int>, i: nat, j: nat)
    requires IsCommon(a, b, eq, xs, ys, i, j) && |xs| > 0
    requires xs[|xs| - 1] >= i - 1 && ys[|ys| - 1] >= j - 1
    ensures i > 0 && j > 0 && eq(a[i - 1], b[j - 1])
    ensures IsCommon(a, b, eq, xs[..|xs| - 1], ys[..|ys| - 1], i - 1, j - 1)
  {
    var n := |xs|;
    assert 0 <= xs[n - 1] < i && 0 <= ys[n - 1] < j;
    var xs', ys' := xs[..n - 1], ys[..n - 1];
    assert forall k :: 0 <= k < n - 1 ==> xs'[k] < xs[n - 1] && ys'[k] < ys[n - 1];
  }

  /** The full table's last cell is the length of a longest common subsequence: one exists
    * of that length, and none is longer. */
  lemma LongestCommonSubsequence<T>(a: seq<T>, b: seq<T>, eq: (T, T) -> bool, xs: seq<int>, ys: seq<int>)
    requires IsCommon(a, b, eq, xs, ys, |a|, |b|)
    ensures |xs| <= Lcs(a, b, eq, |a|, |b|)
    ensures var w := Witness(a, b, eq, |a|, |b|);
      IsCommon(a, b, eq, w.0, w.1, |a|, |b|) && |w.0| == Lcs(a, b, eq, |a|, |b|)
  {
    LcsIsLongest(a, b, eq, xs, ys, |a|, |b|);
  }
}
