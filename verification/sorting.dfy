/** The pluggable sort strategy (`ISorter`) and its default implementation. */
module Sorting {
  import opened Outcomes
  import opened Ordering

  /** An `ISorter`: given the elements and an optional comparer, it produces
      their new order. The C# sorter rearranges an array in place, so a sorter
      that keeps the length is all the vector can rely on; anything further is
      the sorter's own promise (see `SortsCorrectly`). */
  type Sorter<!T> = (seq<T>, Option<Comparer<T>>) -> seq<T>

  /** What a correct sorter does on input `s`: it returns a permutation of
      `s` in non-decreasing order under the comparer, or under the natural
      order when the comparer is `null`. */
  ghost predicate SortsCorrectly<T>(sorter: Sorter<T>, s: seq<T>, comparer: Option<Comparer<T>>, natural: Comparer<T>) {
    var out := sorter(s, comparer);
    && multiset(out) == multiset(s)
    && SortedBy(Resolve(comparer, natural), out)
  }

  /** Places `x` after every leading element that sorts strictly before it. */
  function Insert<T>(x: T, s: seq<T>, cmp: Comparer<T>): (r: seq<T>)
    ensures |r| == |s| + 1
    ensures multiset(r) == multiset(s) + multiset{x}
  {
    if |s| == 0 then [x]
    else if cmp(x, s[0]) <= 0 then [x] + s
    else
      assert s == [s[0]] + s[1..];
      [s[0]] + Insert(x, s[1..], cmp)
  }

  /** A comparison sort; it stands in for `Array.Sort`, whose algorithm is
      not part of this model: only its sorted-permutation result matters. */
  function InsertionSort<T>(s: seq<T>, cmp: Comparer<T>): (r: seq<T>)
    ensures |r| == |s|
    ensures multiset(r) == multiset(s)
  {
    if |s| == 0 then []
    else
      assert s == [s[0]] + s[1..];
      Insert(s[0], InsertionSort(s[1..], cmp), cmp)
  }

  /** `y` sorts no later than any element of `s`. */
  ghost predicate LowerBound<T>(cmp: Comparer<T>, y: T, s: seq<T>) {
    forall k :: 0 <= k < |s| ==> cmp(y, s[k]) <= 0
  }

  lemma ConsSorted<T>(cmp: Comparer<T>, y: T, s: seq<T>)
    requires LowerBound(cmp, y, s) && SortedBy(cmp, s)
    ensures SortedBy(cmp, [y] + s)
  {
  }

  /** The head of a sorted sequence bounds the rest of it from below. */
  lemma HeadIsLowerBound<T(!new)>(cmp: Comparer<T>, y: T, s: seq<T>)
    requires TotalOrder(cmp)
    requires SortedBy(cmp, s) && |s| > 0 && cmp(y, s[0]) <= 0
    ensures LowerBound(cmp, y, s)
  {
  }

  lemma {:induction false} InsertKeepsLowerBound<T>(cmp: Comparer<T>, y: T, x: T, s: seq<T>)
    requires LowerBound(cmp, y, s) && cmp(y, x) <= 0
    ensures LowerBound(cmp, y, Insert(x, s, cmp))
  {
    if |s| > 0 && cmp(x, s[0]) > 0 {
      InsertKeepsLowerBound(cmp, y, x, s[1..]);
      var r := Insert(x, s, cmp);
      forall k | 0 <= k < |r|
        ensures cmp(y, r[k]) <= 0
      {
        if k > 0 {
          assert r[k] == Insert(x, s[1..], cmp)[k - 1];
        }
      }
    }
  }

  lemma {:induction false} InsertSorted<T(!new)>(x: T, s: seq<T>, cmp: Comparer<T>)
    requires TotalOrder(cmp)
    requires SortedBy(cmp, s)
    ensures SortedBy(cmp, Insert(x, s, cmp))
  {
    if |s| == 0 {
    } else if cmp(x, s[0]) <= 0 {
      HeadIsLowerBound(cmp, x, s);
      ConsSorted(cmp, x, s);
    } else {
      var tail := s[1..];
      assert SortedBy(cmp, tail) by {
        forall i, j | 0 <= i < j < |tail|
          ensures cmp(tail[i], tail[j]) <= 0
        {
          assert tail[i] == s[i + 1] && tail[j] == s[j + 1];
        }
      }
      InsertSorted(x, tail, cmp);
      assert LowerBound(cmp, s[0], tail) by {
        forall k | 0 <= k < |tail|
          ensures cmp(s[0], tail[k]) <= 0
        {
          assert tail[k] == s[k + 1];
        }
      }
      assert cmp(s[0], x) <= 0;
      InsertKeepsLowerBound(cmp, s[0], x, tail);
      ConsSorted(cmp, s[0], Insert(x, tail, cmp));
    }
  }

  lemma {:induction false} InsertionSortSorted<T(!new)>(s: seq<T>, cmp: Comparer<T>)
    requires TotalOrder(cmp)
    ensures SortedBy(cmp, InsertionSort(s, cmp))
  {
    if |s| > 0 {
      InsertionSortSorted(s[1..], cmp);
      InsertSorted(s[0], InsertionSort(s[1..], cmp), cmp);
    }
  }

  /** `DefaultSorter`: a `null` comparer means `Comparer<T>.Default`, that is
      the natural order; then the elements are sorted. */
  function DefaultSorter<T>(natural: Comparer<T>): Sorter<T> {
    (s: seq<T>, comparer: Option<Comparer<T>>) => InsertionSort(s, Resolve(comparer, natural))
  }

  /** The default sorter meets the sorter contract whenever the order it
      sorts by is total. */
  lemma DefaultSorterSortsCorrectly<T(!new)>(s: seq<T>, comparer: Option<Comparer<T>>, natural: Comparer<T>)
    requires TotalOrder(Resolve(comparer, natural))
    ensures SortsCorrectly(DefaultSorter(natural), s, comparer, natural)
    ensures |DefaultSorter(natural)(s, comparer)| == |s|
  {
    InsertionSortSorted(s, Resolve(comparer, natural));
  }
}
