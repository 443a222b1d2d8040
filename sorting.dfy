/**
 * Ordering of a sample in either direction, the insertion sort used as the
 * reference definition of a sorted copy, and the facts that pin a sorted
 * permutation down uniquely.
 */
module Sorting {

  /** a may come before b: a <= b when ascending, a >= b when descending. */
  predicate InOrder(a: int, b: int, ascending: bool) {
    if ascending then a <= b else b <= a
  }

  /** Every element may come before every later element. */
  predicate Ordered(s: seq<int>, ascending: bool) {
    forall i, j | 0 <= i < j < |s| :: InOrder(s[i], s[j], ascending)
  }

  /** Puts x into an ordered sequence at the first place where it may come before the next element. */
  function Insert(x: int, s: seq<int>, ascending: bool): (r: seq<int>)
    requires Ordered(s, ascending)
    ensures Ordered(r, ascending)
    ensures multiset(r) == multiset(s) + multiset{x}
  {
    if s == [] || InOrder(x, s[0], ascending) then [x] + s
    else
      var rest := Insert(x, s[1..], ascending);
      assert s == [s[0]] + s[1..];
      assert forall j | 0 <= j < |rest| :: InOrder(s[0], rest[j], ascending) by {
        forall j | 0 <= j < |rest| ensures InOrder(s[0], rest[j], ascending) {
          assert rest[j] in multiset(rest);
        }
      }
      PrependKeepsOrder(s[0], rest, ascending);
      [s[0]] + rest
  }

  /** An element that may come before every element of an ordered sequence can be put in front of it. */
  lemma PrependKeepsOrder(x: int, s: seq<int>, ascending: bool)
    requires Ordered(s, ascending)
    requires forall j | 0 <= j < |s| :: InOrder(x, s[j], ascending)
    ensures Ordered([x] + s, ascending)
  {
    var r := [x] + s;
    forall i, j | 0 <= i < j < |r| ensures InOrder(r[i], r[j], ascending) {
      assert r[j] == s[j - 1];
      if i > 0 {
        assert r[i] == s[i - 1];
      }
    }
  }

  /** The sample in the given direction: an ordered permutation of it. */
  function Sort(s: seq<int>, ascending: bool): (r: seq<int>)
    ensures Ordered(r, ascending)
    ensures multiset(r) == multiset(s)
    ensures |r| == |s|
  {
    if s == [] then []
    else
      assert s == [s[0]] + s[1..];
      var r := Insert(s[0], Sort(s[1..], ascending), ascending);
      assert |r| == |multiset(r)|;
      r
  }

  /** The first element of an ordered sequence may come before each of its elements. */
  lemma HeadComesFirst(s: seq<int>, x: int, ascending: bool)
    requires Ordered(s, ascending) && x in multiset(s)
    ensures InOrder(s[0], x, ascending)
  {
    var j :| 0 <= j < |s| && s[j] == x;
    if j > 0 {
      assert InOrder(s[0], s[j], ascending);
    }
  }

  /** Removing the first element leaves the multiset of the rest. */
  lemma TailMultiset(s: seq<int>)
    requires s != []
    ensures multiset(s[1..]) == multiset(s) - multiset{s[0]}
  {
    assert s == [s[0]] + s[1..];
  }

  /** Two ordered permutations of the same sample are the same sequence. */
  lemma {:induction false} OrderedPermutationUnique(a: seq<int>, b: seq<int>, ascending: bool)
    requires Ordered(a, ascending) && Ordered(b, ascending)
    requires multiset(a) == multiset(b)
    ensures a == b
    decreases |a|
  {
    assert |a| == |multiset(a)| == |multiset(b)| == |b|;
    if a != [] {
      HeadComesFirst(a, b[0], ascending);
      HeadComesFirst(b, a[0], ascending);
      assert a[0] == b[0];
      TailMultiset(a);
      TailMultiset(b);
      assert Ordered(a[1..], ascending) && Ordered(b[1..], ascending);
      OrderedPermutationUnique(a[1..], b[1..], ascending);
      assert a == [a[0]] + a[1..] && b == [b[0]] + b[1..];
    }
  }

  /** Any ordered permutation of s is Sort(s, ascending). */
  lemma SortIsUnique(s: seq<int>, t: seq<int>, ascending: bool)
    requires Ordered(t, ascending) && multiset(t) == multiset(s)
    ensures t == Sort(s, ascending)
  {
    OrderedPermutationUnique(t, Sort(s, ascending), ascending);
  }

  /** s read from its last element to its first. */
  function Reverse(s: seq<int>): (r: seq<int>)
    ensures |r| == |s|
    ensures forall k | 0 <= k < |s| :: r[k] == s[|s| - 1 - k]
    ensures multiset(r) == multiset(s)
  {
    if s == [] then []
    else
      assert s == [s[0]] + s[1..];
      Reverse(s[1..]) + [s[0]]
  }

  /** The descending sort is the ascending sort read backwards. */
  lemma DescendingIsReversedAscending(s: seq<int>)
    ensures Sort(s, false) == Reverse(Sort(s, true))
  {
    var up := Sort(s, true);
    var down := Reverse(up);
    assert Ordered(down, false) by {
      forall i, j | 0 <= i < j < |down| ensures InOrder(down[i], down[j], false) {
        assert InOrder(up[|up| - 1 - j], up[|up| - 1 - i], true);
      }
    }
    SortIsUnique(s, down, false);
  }
}
