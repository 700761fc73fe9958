/** The vector's recursive binary search, as written (the public entry points
    start it on `[0, Count]`) and as evidently intended (`[0, Count - 1]`). */
module Searching {
  import opened Outcomes
  import opened Ordering
  import opened VectorModel

  /** What one search comes to: the index it returns, the -1 of "not found",
      or the IndexOutOfRangeException raised by reading `data[mid]` outside
      the backing array. */
  datatype SearchResult = Found(index: int) | NotFound | OutOfRange

  /** `(left + right) / 2` with C#'s division, which truncates toward zero. */
  function Midpoint(left: int, right: int): (m: int)
    requires left <= right
    ensures left <= m <= right
    ensures 0 <= left ==> m == (left + right) / 2
  {
    var sum := left + right;
    if sum >= 0 then sum / 2 else -((-sum) / 2)
  }

  /** The private recursive `BinarySearch(element, left, right, comparer)`
      over the backing store `data`, with the comparer already resolved.
      Each call shrinks `right - left + 1`, and a returned index is one the
      comparer calls equal to `element`, inside the range searched. */
  function Search<T>(data: seq<T>, element: T, left: int, right: int, cmp: Comparer<T>): (r: SearchResult)
    ensures r.Found? ==> left <= r.index <= right && 0 <= r.index < |data| && cmp(element, data[r.index]) == 0
    ensures r.OutOfRange? ==> left <= right && (left < 0 || |data| <= right)
    decreases right - left + 1
  {
    if left <= right then
      var mid := Midpoint(left, right);
      if mid < 0 || |data| <= mid then OutOfRange
      else
        var result := cmp(element, data[mid]);
        if result == 0 then Found(mid)
        else if result < 0 then Search(data, element, left, mid - 1, cmp)
        else Search(data, element, mid + 1, right, cmp)
    else NotFound
  }

  /** `BinarySearch(element, comparer)`: a `null` comparer means the natural
      order; the search starts on `[0, Count]`. The only array read that can
      fail is the probe of `data[Count]` when the store is exactly full, and
      a returned index may be `Count` itself. */
  function BinarySearchWith<T>(v: Vector<T>, element: T, comparer: Option<Comparer<T>>, natural: Comparer<T>): (r: SearchResult)
    requires Valid(v)
    ensures r.Found? ==> 0 <= r.index <= v.count && r.index < |v.data|
                         && Resolve(comparer, natural)(element, v.data[r.index]) == 0
    ensures r.OutOfRange? ==> |v.data| == v.count
  {
    Search(v.data, element, 0, v.count, Resolve(comparer, natural))
  }

  /** `BinarySearch(element)`: the overload that passes a `null` comparer. */
  function BinarySearch<T>(v: Vector<T>, element: T, natural: Comparer<T>): (r: SearchResult)
    requires Valid(v)
    ensures r == BinarySearchWith(v, element, None, natural)
  {
    Search(v.data, element, 0, v.count, natural)
  }

  /** Some live element compares equal to `element`. */
  ghost predicate HasMatch<T>(data: seq<T>, count: nat, element: T, cmp: Comparer<T>)
    requires count <= |data|
  {
    exists i :: 0 <= i < count && cmp(element, data[i]) == 0
  }

  /** `element` sorts strictly after every live element (vacuously so when
      there are none). */
  ghost predicate AboveAll<T>(data: seq<T>, count: nat, element: T, cmp: Comparer<T>)
    requires count <= |data|
  {
    forall i :: 0 <= i < count ==> cmp(element, data[i]) > 0
  }

  /** What the last probe, of the spare slot `data[count]`, yields: the
      exception when there is no such slot, otherwise a match or a miss
      depending on what that slot compares to. */
  function TopProbe<T>(data: seq<T>, count: nat, element: T, cmp: Comparer<T>): SearchResult
    requires count <= |data|
  {
    if count == |data| then OutOfRange
    else if cmp(element, data[count]) == 0 then Found(count)
    else NotFound
  }

  /** The live elements fall into three runs as seen from `element`: those
      sorting before it, those comparing equal, those sorting after it. This
      is all the search needs of a sorted prefix. */
  ghost predicate Partitioned<T>(data: seq<T>, count: nat, element: T, cmp: Comparer<T>)
    requires count <= |data|
  {
    forall i, j :: 0 <= i < j < count ==>
      && (cmp(element, data[i]) < 0 ==> cmp(element, data[j]) < 0)
      && (cmp(element, data[j]) > 0 ==> cmp(element, data[i]) > 0)
  }

  lemma SortedIsPartitioned<T(!new)>(data: seq<T>, count: nat, element: T, cmp: Comparer<T>)
    requires TotalOrder(cmp)
    requires count <= |data|
    requires SortedBy(cmp, data[..count])
    ensures Partitioned(data, count, element, cmp)
  {
  }

  /** The search on a partitioned (for instance sorted) live prefix, from
      any state the public entry points can reach: everything left of
      `left` sorts before `element`,
      every live element right of `right` sorts after it. A match among the
      live elements is always found; otherwise the answer is -1, unless the
      search climbs to the spare slot `data[count]`, which it does exactly
      when `element` sorts after every live element and the range still
      reaches up to `count`. */
  lemma {:induction false} SearchOutcome<T>(data: seq<T>, count: nat, element: T, left: int, right: int, cmp: Comparer<T>)
    requires count <= |data|
    requires Partitioned(data, count, element, cmp)
    requires 0 <= left <= right + 1 && right <= count
    requires forall k :: 0 <= k < left && k < count ==> cmp(element, data[k]) > 0
    requires forall k :: right < k < count ==> cmp(element, data[k]) < 0
    ensures var r := Search(data, element, left, right, cmp);
            var climbs := left <= count && right == count && AboveAll(data, count, element, cmp);
            && (HasMatch(data, count, element, cmp) ==> r.Found? && r.index < count)
            && (!HasMatch(data, count, element, cmp) && climbs ==> r == TopProbe(data, count, element, cmp))
            && (!HasMatch(data, count, element, cmp) && !climbs ==> r == NotFound)
    decreases right - left + 1
  {
    if left > right {
      assert !HasMatch(data, count, element, cmp);
    } else {
      var mid := Midpoint(left, right);
      if mid == count {
        assert !HasMatch(data, count, element, cmp);
        assert AboveAll(data, count, element, cmp);
      } else {
        var result := cmp(element, data[mid]);
        if result < 0 {
          SearchOutcome(data, count, element, left, mid - 1, cmp);
        } else if result > 0 {
          SearchOutcome(data, count, element, mid + 1, right, cmp);
        }
      }
    }
  }

  /** The public search on a vector whose live elements are sorted by the
      comparer it uses: a live match is always found, and a live index is
      returned only for a match. With no live match the answer is -1,
      except when `element` sorts after every live element: then the search
      ends on the spare slot `data[Count]`, raising the exception when the
      store is exactly full and reporting index `Count` when that slot
      compares equal. */
  lemma BinarySearchOutcome<T(!new)>(v: Vector<T>, element: T, comparer: Option<Comparer<T>>, natural: Comparer<T>)
    requires Valid(v)
    requires TotalOrder(Resolve(comparer, natural))
    requires SortedBy(Resolve(comparer, natural), Live(v))
    ensures var cmp := Resolve(comparer, natural);
            var r := BinarySearchWith(v, element, comparer, natural);
            && ((r.Found? && r.index < v.count) <==> HasMatch(v.data, v.count, element, cmp))
            && (!HasMatch(v.data, v.count, element, cmp) && AboveAll(v.data, v.count, element, cmp) ==>
                  r == TopProbe(v.data, v.count, element, cmp))
            && (!HasMatch(v.data, v.count, element, cmp) && !AboveAll(v.data, v.count, element, cmp) ==>
                  r == NotFound)
  {
    var cmp := Resolve(comparer, natural);
    SortedIsPartitioned(v.data, v.count, element, cmp);
    SearchOutcome(v.data, v.count, element, 0, v.count, cmp);
  }

  /** The search as evidently intended: the public entry points start it on
      `[0, Count - 1]`. It then never reads outside the live elements, so it
      never raises and never answers with a spare slot; on an empty vector
      it answers -1 at once. */
  function BinarySearchFixed<T>(v: Vector<T>, element: T, comparer: Option<Comparer<T>>, natural: Comparer<T>): (r: SearchResult)
    requires Valid(v)
    ensures !r.OutOfRange?
    ensures r.Found? ==> 0 <= r.index < v.count && Resolve(comparer, natural)(element, v.data[r.index]) == 0
    ensures v.count == 0 ==> r == NotFound
  {
    Search(v.data, element, 0, v.count - 1, Resolve(comparer, natural))
  }

  /** On a sorted vector the corrected search finds a match exactly when
      there is a live one, and otherwise answers -1. */
  lemma BinarySearchFixedCorrect<T(!new)>(v: Vector<T>, element: T, comparer: Option<Comparer<T>>, natural: Comparer<T>)
    requires Valid(v)
    requires TotalOrder(Resolve(comparer, natural))
    requires SortedBy(Resolve(comparer, natural), Live(v))
    ensures var r := BinarySearchFixed(v, element, comparer, natural);
            && (r.Found? <==> HasMatch(v.data, v.count, element, Resolve(comparer, natural)))
            && (r.NotFound? <==> !HasMatch(v.data, v.count, element, Resolve(comparer, natural)))
  {
    var cmp := Resolve(comparer, natural);
    SortedIsPartitioned(v.data, v.count, element, cmp);
    SearchOutcome(v.data, v.count, element, 0, v.count - 1, cmp);
  }

  /** Sorting with the default sorter and then searching, with the same
      comparer, for any element the vector held finds an equal one among the
      live elements. This holds for the search as written too. */
  lemma SortThenSearchFindsEveryElement<T(!new)>(v: Vector<T>, comparer: Option<Comparer<T>>, natural: Comparer<T>, i: int)
    requires Valid(v) && 0 <= i < v.count
    requires TotalOrder(Resolve(comparer, natural))
    ensures |EffectiveSorter(None, natural)(Live(v), comparer)| == v.count
    ensures var w := SortWith(v, None, comparer, natural);
            var r := BinarySearchWith(w, v.data[i], comparer, natural);
            && r.Found? && r.index < w.count
            && Resolve(comparer, natural)(v.data[i], w.data[r.index]) == 0
            && BinarySearchFixed(w, v.data[i], comparer, natural).Found?
  {
    var cmp := Resolve(comparer, natural);
    DefaultSortSortsLive(v, comparer, natural);
    var w := SortWith(v, None, comparer, natural);
    var e := v.data[i];
    assert e in multiset(Live(v)) by {
      assert Live(v)[i] == e;
    }
    assert e in Live(w);
    var j :| 0 <= j < |Live(w)| && Live(w)[j] == e;
    Reflexive(cmp, e);
    assert w.data[j] == e;
    assert HasMatch(w.data, w.count, e, cmp);
    BinarySearchOutcome(w, e, comparer, natural);
    BinarySearchFixedCorrect(w, e, comparer, natural);
  }

  /** After `Sort`, whose store is exactly `Count` long, searching for an
      element that sorts after every element raises IndexOutOfRangeException:
      the search climbs to `data[Count]`, which no longer exists. The
      corrected search answers -1. */
  lemma SortThenSearchAboveAllThrows<T(!new)>(v: Vector<T>, element: T, comparer: Option<Comparer<T>>, natural: Comparer<T>)
    requires Valid(v)
    requires TotalOrder(Resolve(comparer, natural))
    requires forall i :: 0 <= i < v.count ==> Resolve(comparer, natural)(element, v.data[i]) > 0
    ensures |EffectiveSorter(None, natural)(Live(v), comparer)| == v.count
    ensures var w := SortWith(v, None, comparer, natural);
            && BinarySearchWith(w, element, comparer, natural) == OutOfRange
            && BinarySearchFixed(w, element, comparer, natural) == NotFound
  {
    var cmp := Resolve(comparer, natural);
    DefaultSortSortsLive(v, comparer, natural);
    var w := SortWith(v, None, comparer, natural);
    forall k | 0 <= k < w.count
      ensures cmp(element, w.data[k]) > 0
    {
      assert w.data[k] == Live(w)[k];
      assert Live(w)[k] in multiset(Live(v));
      var m :| 0 <= m < |Live(v)| && Live(v)[m] == Live(w)[k];
      assert v.data[m] == w.data[k];
    }
    assert AboveAll(w.data, w.count, element, cmp);
    BinarySearchOutcome(w, element, comparer, natural);
    BinarySearchFixedCorrect(w, element, comparer, natural);
  }

  /** An empty vector built with capacity 0 raises on every search: `0 <= 0`
      admits the probe of `data[0]`. */
  lemma EmptyZeroCapacitySearchThrows(element: int)
    ensures BinarySearch(New(0, 0).value, element, IntCompare) == OutOfRange
    ensures BinarySearchFixed(New(0, 0).value, element, None, IntCompare) == NotFound
  {
  }

  /** The spare slot `data[Count]` holds `default(T)` (0 for `int`), and the
      search compares against it: a vector of negative numbers with room to
      spare reports 0 at index `Count`, an index the indexer then rejects
      and `IndexOf` disagrees with; an empty default vector reports 0 at
      index 0. */
  lemma PhantomMatchInSpareSlot()
    ensures var v := AddAll(NewDefault(0), [-5, -3], 0);
            && BinarySearch(v, 0, IntCompare) == Found(2)
            && Get(v, 2) == Err(IndexOutOfRange)
            && IndexOf(v, 0) == -1
            && BinarySearchFixed(v, 0, None, IntCompare) == NotFound
    ensures BinarySearch(NewDefault(0), 0, IntCompare) == Found(0)
    ensures BinarySearchFixed(NewDefault(0), 0, None, IntCompare) == NotFound
  {
  }

  /** The phantom match in general: for any sorted vector of negative `int`s
      with a spare slot (which holds `default(int)`, 0), the search for 0
      climbs past every live element and reports index `Count`. */
  lemma SpareSlotMatchesDefault(v: Vector<int>)
    requires Valid(v) && SparesAreBlank(v, 0) && v.count < |v.data|
    requires SortedBy(IntCompare, Live(v))
    requires forall i :: 0 <= i < v.count ==> v.data[i] < 0
    ensures BinarySearch(v, 0, IntCompare) == Found(v.count)
    ensures BinarySearchFixed(v, 0, None, IntCompare) == NotFound
  {
    IntCompareIsTotalOrder();
    assert AboveAll(v.data, v.count, 0, IntCompare);
    assert !HasMatch(v.data, v.count, 0, IntCompare);
    BinarySearchOutcome(v, 0, None, IntCompare);
    BinarySearchFixedCorrect(v, 0, None, IntCompare);
  }
}
