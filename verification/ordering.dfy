/** Comparers in the sense of `IComparer<T>.Compare` and
    `IComparable<T>.CompareTo`, and the total-order laws the binary search
    and the sorter rely on. */
module Ordering {
  import opened Outcomes

  /** `cmp(a, b)` is negative, zero or positive as `a` sorts before, with or
      after `b`. */
  type Comparer<-T> = (T, T) -> int

  /** The laws of a total preorder, stated on the sign of the comparison:
      swapping the arguments flips the sign, and "sorts no later than" is
      transitive. Reflexivity (`cmp(a, a) == 0`) follows from the first law. */
  ghost predicate TotalOrder<T(!new)>(cmp: Comparer<T>) {
    && (forall a, b :: cmp(a, b) < 0 <==> cmp(b, a) > 0)
    && (forall a, b, c :: cmp(a, b) <= 0 && cmp(b, c) <= 0 ==> cmp(a, c) <= 0)
  }

  /** `s` is in non-decreasing order under `cmp`. */
  predicate SortedBy<T>(cmp: Comparer<T>, s: seq<T>) {
    forall i, j :: 0 <= i < j < |s| ==> cmp(s[i], s[j]) <= 0
  }

  /** A `null` comparer stands for the element type's natural order
      (`Comparer<T>.Default`, which calls `CompareTo`). */
  function Resolve<T>(comparer: Option<Comparer<T>>, natural: Comparer<T>): Comparer<T> {
    match comparer
    case None => natural
    case Some(c) => c
  }

  /** Natural order of `int`, as `Int32.CompareTo` reports it. */
  function IntCompare(a: int, b: int): (r: int)
    ensures r < 0 <==> a < b
    ensures r == 0 <==> a == b
    ensures r > 0 <==> a > b
  {
    if a < b then -1 else if a > b then 1 else 0
  }

  /** `IntCompare` obeys the laws, so the results proved for sorted vectors
      apply to vectors of `int`. */
  lemma IntCompareIsTotalOrder()
    ensures TotalOrder(IntCompare)
  {
  }

  lemma Reflexive<T(!new)>(cmp: Comparer<T>, a: T)
    requires TotalOrder(cmp)
    ensures cmp(a, a) == 0
  {
  }
}
