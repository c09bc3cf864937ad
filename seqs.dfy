/** Aggregates over integer sequences: the `sum`, `max`, `min` and
    `list.index` that the reports apply to lists of scores and gaps. */
module Seqs {

  function Sum(s: seq<int>): int
  {
    if s == [] then 0 else s[0] + Sum(s[1..])
  }

  /** The largest element, as `max` returns it for a non-empty list. */
  function Max(s: seq<int>): (m: int)
    requires |s| > 0
    ensures m in s
    ensures forall i :: 0 <= i < |s| ==> s[i] <= m
  {
    if |s| == 1 then s[0]
    else
      var rest := Max(s[1..]);
      if s[0] >= rest then s[0] else rest
  }

  /** The smallest element of a non-empty list. */
  function Min(s: seq<int>): (m: int)
    requires |s| > 0
    ensures m in s
    ensures forall i :: 0 <= i < |s| ==> m <= s[i]
  {
    if |s| == 1 then s[0]
    else
      var rest := Min(s[1..]);
      if s[0] <= rest then s[0] else rest
  }

  /** The first position holding `x`, as `list.index(x)` returns it;
      `list.index` raises when `x` is absent, so callers must know it is there. */
  function FirstIndex(s: seq<int>, x: int): (k: nat)
    requires x in s
    ensures k < |s| && s[k] == x
    ensures forall j :: 0 <= j < k ==> s[j] != x
  {
    if s[0] == x then 0 else 1 + FirstIndex(s[1..], x)
  }

  /** A lower bound on every element bounds the sum from below. */
  lemma {:induction false} SumAtLeast(s: seq<int>, lo: int)
    requires forall i :: 0 <= i < |s| ==> lo <= s[i]
    ensures |s| * lo <= Sum(s)
  {
    if s != [] {
      SumAtLeast(s[1..], lo);
      assert |s| * lo == lo + |s[1..]| * lo;
    }
  }

  /** An upper bound on every element bounds the sum from above. */
  lemma {:induction false} SumAtMost(s: seq<int>, hi: int)
    requires forall i :: 0 <= i < |s| ==> s[i] <= hi
    ensures Sum(s) <= |s| * hi
  {
    if s != [] {
      SumAtMost(s[1..], hi);
      assert |s| * hi == hi + |s[1..]| * hi;
    }
  }

  /** The number of elements times the minimum is at most the sum, which is
      at most the number of elements times the maximum. */
  lemma SumBetweenMinAndMax(s: seq<int>)
    requires |s| > 0
    ensures |s| * Min(s) <= Sum(s) <= |s| * Max(s)
  {
    SumAtLeast(s, Min(s));
    SumAtMost(s, Max(s));
  }

  /** A sum of non-negative elements one of which is positive is positive. */
  lemma {:induction false} SumPositive(s: seq<int>, k: nat)
    requires forall i :: 0 <= i < |s| ==> 0 <= s[i]
    requires k < |s| && 0 < s[k]
    ensures 0 < Sum(s)
  {
    SumAtLeast(s[1..], 0);
    if k > 0 {
      SumPositive(s[1..], k - 1);
    }
  }

  /** An integer total between `n * lo` and `n * hi` has its mean, over the
      reals, between `lo` and `hi`. */
  lemma MeanBetween(n: nat, lo: int, hi: int, total: int)
    requires n > 0 && n * lo <= total <= n * hi
    ensures lo as real <= total as real / n as real <= hi as real
  {
    assert (n * lo) as real == n as real * lo as real;
    assert (n * hi) as real == n as real * hi as real;
  }
}
