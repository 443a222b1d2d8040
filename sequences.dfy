/** Sums, counts and extremes of a sample, the quantities the statistics are defined by. */
module Sequences {

  /** Number of occurrences of x in s. */
  function Count(s: seq<int>, x: int): nat {
    multiset(s)[x]
  }

  /** s[0] + ... + s[|s| - 1], summed from left to right. */
  function Sum(s: seq<int>): int {
    if s == [] then 0 else Sum(s[..|s| - 1]) + s[|s| - 1]
  }

  /** s[0] * w[0] + ... + s[|s| - 1] * w[|s| - 1], accumulated from left to right. */
  function WeightedSum(s: seq<int>, w: seq<int>): int
    requires |s| == |w|
  {
    if s == [] then 0 else WeightedSum(s[..|s| - 1], w[..|w| - 1]) + s[|s| - 1] * w[|w| - 1]
  }

  /** The smallest element of a non-empty sample. */
  function Minimum(s: seq<int>): (m: int)
    requires s != []
    ensures m in s
    ensures forall i | 0 <= i < |s| :: m <= s[i]
  {
    if |s| == 1 then s[0]
    else
      var rest := Minimum(s[..|s| - 1]);
      assert rest in s by { assert s == s[..|s| - 1] + [s[|s| - 1]]; }
      if s[|s| - 1] < rest then s[|s| - 1] else rest
  }

  /** The largest element of a non-empty sample. */
  function Maximum(s: seq<int>): (m: int)
    requires s != []
    ensures m in s
    ensures forall i | 0 <= i < |s| :: s[i] <= m
  {
    if |s| == 1 then s[0]
    else
      var rest := Maximum(s[..|s| - 1]);
      assert rest in s by { assert s == s[..|s| - 1] + [s[|s| - 1]]; }
      if s[|s| - 1] > rest then s[|s| - 1] else rest
  }

  lemma {:induction false} SumAtMost(s: seq<int>, hi: int)
    requires forall i | 0 <= i < |s| :: s[i] <= hi
    ensures Sum(s) <= |s| * hi
  {
    if s != [] {
      SumAtMost(s[..|s| - 1], hi);
      assert (|s| - 1) * hi + hi == |s| * hi;
    }
  }

  lemma {:induction false} SumAtLeast(s: seq<int>, lo: int)
    requires forall i | 0 <= i < |s| :: lo <= s[i]
    ensures |s| * lo <= Sum(s)
  {
    if s != [] {
      SumAtLeast(s[..|s| - 1], lo);
      assert (|s| - 1) * lo + lo == |s| * lo;
    }
  }

  lemma {:induction false} SumOfPositives(w: seq<int>)
    requires forall i | 0 <= i < |w| :: w[i] > 0
    ensures Sum(w) >= |w|
  {
    if w != [] {
      SumOfPositives(w[..|w| - 1]);
    }
  }

  /** The arithmetic mean of a non-empty sample: its sum divided by its count. */
  function Average(s: seq<int>): (r: real)
    requires s != []
    ensures r * (|s| as real) == Sum(s) as real
  {
    QuotientTimesDivisor(Sum(s) as real, |s|);
    Sum(s) as real / (|s| as real)
  }

  /** The mean lies between the smallest and the largest element. */
  lemma AverageBetweenExtremes(s: seq<int>)
    requires s != []
    ensures Minimum(s) as real <= Average(s) <= Maximum(s) as real
  {
    SumAtLeast(s, Minimum(s));
    QuotientAtLeast(Minimum(s), Sum(s), |s|);
    SumAtMost(s, Maximum(s));
    QuotientAtMost(Maximum(s), Sum(s), |s|);
  }

  lemma QuotientTimesDivisor(x: real, n: int)
    requires n > 0
    ensures (x / (n as real)) * (n as real) == x
  {
  }

  /** With every weight equal to c, the weighted sum is c times the plain sum and the weights sum to c times the count. */
  lemma {:induction false} WeightedSumOfEqualWeights(s: seq<int>, w: seq<int>, c: int)
    requires |s| == |w|
    requires forall i | 0 <= i < |w| :: w[i] == c
    ensures WeightedSum(s, w) == c * Sum(s)
    ensures Sum(w) == |w| * c
  {
    if s != [] {
      var n := |s| - 1;
      WeightedSumOfEqualWeights(s[..n], w[..n], c);
      assert c * Sum(s[..n]) + s[n] * c == c * (Sum(s[..n]) + s[n]);
      assert n * c + c == |w| * c;
    }
  }

  /** With positive weights, the weighted sum is at least the smallest value times the total weight. */
  lemma {:induction false} WeightedSumAtLeast(s: seq<int>, w: seq<int>, lo: int)
    requires |s| == |w|
    requires forall i | 0 <= i < |w| :: w[i] > 0
    requires forall i | 0 <= i < |s| :: lo <= s[i]
    ensures lo * Sum(w) <= WeightedSum(s, w)
  {
    if s != [] {
      var n := |s| - 1;
      WeightedSumAtLeast(s[..n], w[..n], lo);
      assert lo * w[n] <= s[n] * w[n];
      assert lo * Sum(w) == lo * Sum(w[..n]) + lo * w[n];
    }
  }

  /** With positive weights, the weighted sum is at most the largest value times the total weight. */
  lemma {:induction false} WeightedSumAtMost(s: seq<int>, w: seq<int>, hi: int)
    requires |s| == |w|
    requires forall i | 0 <= i < |w| :: w[i] > 0
    requires forall i | 0 <= i < |s| :: s[i] <= hi
    ensures WeightedSum(s, w) <= hi * Sum(w)
  {
    if s != [] {
      var n := |s| - 1;
      WeightedSumAtMost(s[..n], w[..n], hi);
      assert s[n] * w[n] <= hi * w[n];
      assert hi * Sum(w) == hi * Sum(w[..n]) + hi * w[n];
    }
  }

  /** With positive weights, the weighted sum over the total weight is at least the smallest value. */
  lemma WeightedQuotientAtLeast(s: seq<int>, w: seq<int>)
    requires s != [] && |s| == |w|
    requires forall i | 0 <= i < |w| :: w[i] > 0
    ensures Sum(w) > 0
    ensures Minimum(s) as real <= WeightedSum(s, w) as real / (Sum(w) as real)
  {
    SumOfPositives(w);
    WeightedSumAtLeast(s, w, Minimum(s));
    QuotientAtLeast(Minimum(s), WeightedSum(s, w), Sum(w));
  }

  /** With positive weights, the weighted sum over the total weight is at most the largest value. */
  lemma WeightedQuotientAtMost(s: seq<int>, w: seq<int>)
    requires s != [] && |s| == |w|
    requires forall i | 0 <= i < |w| :: w[i] > 0
    ensures Sum(w) > 0
    ensures WeightedSum(s, w) as real / (Sum(w) as real) <= Maximum(s) as real
  {
    SumOfPositives(w);
    WeightedSumAtMost(s, w, Maximum(s));
    QuotientAtMost(Maximum(s), WeightedSum(s, w), Sum(w));
  }

  lemma QuotientAtLeast(lo: int, x: int, n: int)
    requires n > 0 && lo * n <= x
    ensures lo as real <= x as real / (n as real)
  {
    assert (lo as real) * (n as real) <= x as real;
  }

  lemma QuotientAtMost(hi: int, x: int, n: int)
    requires n > 0 && x <= hi * n
    ensures x as real / (n as real) <= hi as real
  {
    assert x as real <= (hi as real) * (n as real);
  }
}
