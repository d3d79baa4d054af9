/**
 * Sorting by a C#-style comparison (negative, zero or positive), the model of
 * `List<T>.Sort(Comparison<T>)`. The library's sort is an unstable introsort; the model
 * is an insertion sort, so elements the comparison calls equal may end up in another
 * relative order, but the result is sorted and a permutation of the input either way.
 */
module Sorting {

  /** `cmp` is total and transitive as an order on "compares at most 0". */
  ghost predicate TotalPreorder<T(!new)>(cmp: (T, T) -> int) {
    && (forall a, b :: cmp(a, b) <= 0 || cmp(b, a) <= 0)
    && (forall a, b, c :: cmp(a, b) <= 0 && cmp(b, c) <= 0 ==> cmp(a, c) <= 0)
  }

  /** Every earlier element compares at most 0 with every later one. */
  ghost predicate SortedBy<T>(cmp: (T, T) -> int, xs: seq<T>) {
    forall i, j :: 0 <= i < j < |xs| ==> cmp(xs[i], xs[j]) <= 0
  }

  /** `a` compares at most 0 with every element of `xs`. */
  ghost predicate LowerBound<T>(cmp: (T, T) -> int, a: T, xs: seq<T>) {
    forall j :: 0 <= j < |xs| ==> cmp(a, xs[j]) <= 0
  }

  /** Inserts `x` before the first element it does not compare greater than. */
  function InsertSorted<T>(cmp: (T, T) -> int, x: T, xs: seq<T>): (r: seq<T>)
    ensures multiset(r) == multiset(xs) + multiset{x}
    ensures |r| == |xs| + 1
    decreases |xs|
  {
    if |xs| == 0 then [x]
    else if cmp(x, xs[0]) <= 0 then [x] + xs
    else
      assert xs == [xs[0]] + xs[1..];
      [xs[0]] + InsertSorted(cmp, x, xs[1..])
  }

  /** A lower bound of `x` and of `xs` bounds the list after the insertion. */
  lemma {:induction false} InsertKeepsLowerBound<T>(cmp: (T, T) -> int, a: T, x: T, xs: seq<T>)
    requires cmp(a, x) <= 0 && LowerBound(cmp, a, xs)
    ensures LowerBound(cmp, a, InsertSorted(cmp, x, xs))
    decreases |xs|
  {
    if |xs| > 0 && cmp(x, xs[0]) > 0 {
      InsertKeepsLowerBound(cmp, a, x, xs[1..]);
    }
  }

  /** Insertion into a sorted list yields a sorted list. */
  lemma {:induction false} InsertSortedKeepsOrder<T(!new)>(cmp: (T, T) -> int, x: T, xs: seq<T>)
    requires TotalPreorder(cmp)
    requires SortedBy(cmp, xs)
    ensures SortedBy(cmp, InsertSorted(cmp, x, xs))
    decreases |xs|
  {
    if |xs| == 0 {
    } else if cmp(x, xs[0]) <= 0 {
      assert LowerBound(cmp, xs[0], xs);
      assert LowerBound(cmp, x, xs);
    } else {
      var rest := InsertSorted(cmp, x, xs[1..]);
      InsertSortedKeepsOrder(cmp, x, xs[1..]);
      assert cmp(xs[0], x) <= 0;
      assert LowerBound(cmp, xs[0], xs[1..]);
      InsertKeepsLowerBound(cmp, xs[0], x, xs[1..]);
      assert LowerBound(cmp, xs[0], rest);
    }
  }

  /** Sorts `xs` by `cmp`. */
  function Sort<T(!new)>(cmp: (T, T) -> int, xs: seq<T>): (r: seq<T>)
    requires TotalPreorder(cmp)
    ensures SortedBy(cmp, r)
    ensures multiset(r) == multiset(xs)
    ensures |r| == |xs|
    decreases |xs|
  {
    if |xs| == 0 then []
    else
      assert xs == [xs[0]] + xs[1..];
      var sortedTail := Sort(cmp, xs[1..]);
      InsertSortedKeepsOrder(cmp, xs[0], sortedTail);
      InsertSorted(cmp, xs[0], sortedTail)
  }
}
