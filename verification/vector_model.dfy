/** The vector as a value: its backing store and its element count. Every
    operation of the C# class is a function from the old vector to the new
    one (or to the exception it raises). */
module VectorModel {
  import opened Outcomes
  import opened Ordering
  import opened Sorting

  /** DEFAULT_CAPACITY: the capacity of a vector built without one, and the
      fixed number of slots every growth adds. */
  const DefaultCapacity: nat := 10

  /** `data` is the backing array (its length is the true capacity); `count`
      is `Count`, the number of live elements at the front of `data`. */
  datatype Vector<T> = Vector(data: seq<T>, count: nat)

  /** The class invariant: the live elements fit in the backing store. */
  predicate Valid<T>(v: Vector<T>) {
    v.count <= |v.data|
  }

  /** The caller-visible elements, `data[0..Count)`. */
  function Live<T>(v: Vector<T>): seq<T>
    requires Valid(v)
  {
    v.data[..v.count]
  }

  /** Every spare slot (at or beyond `Count`) still holds `zero`, the value
      the runtime fills a fresh array with (`default(T)`). */
  predicate SparesAreBlank<T(==)>(v: Vector<T>, zero: T) {
    forall i :: v.count <= i < |v.data| ==> v.data[i] == zero
  }

  /** `new Vector<T>(capacity)`: an empty vector over `capacity` fresh slots.
      The array allocation raises OverflowException for a negative size. */
  function New<T>(capacity: int, zero: T): (r: Result<Vector<T>>)
    ensures r.Err? <==> capacity < 0
    ensures r.Err? ==> r.error == Overflow
    ensures r.Ok? ==> Valid(r.value) && r.value.count == 0 && |r.value.data| == capacity
    ensures r.Ok? ==> forall i :: 0 <= i < |r.value.data| ==> r.value.data[i] == zero
  {
    if capacity < 0 then Err(Overflow)
    else Ok(Vector(seq(capacity, _ => zero), 0))
  }

  /** `new Vector<T>()`: the constructor above with DEFAULT_CAPACITY. */
  function NewDefault<T>(zero: T): (r: Vector<T>)
    ensures Valid(r) && r.count == 0 && |r.data| == DefaultCapacity
    ensures SparesAreBlank(r, zero)
  {
    New(DefaultCapacity, zero).value
  }

  /** The public `Capacity` property as written: it is declared with the
      initial value 0 and never assigned. */
  function CapacityAsWritten<T>(v: Vector<T>): int {
    0
  }

  /** The capacity the property is documented to report: the number of
      allocated slots, which never falls below `Count`. */
  function Capacity<T>(v: Vector<T>): (r: nat)
    requires Valid(v)
    ensures v.count <= r
    ensures v.count == r <==> v.count == |v.data|
  {
    |v.data|
  }

  /** The indexer's getter: bounds are checked against `Count`, not against
      the array's length. */
  function Get<T>(v: Vector<T>, index: int): (r: Result<T>)
    requires Valid(v)
    ensures r.Err? <==> index < 0 || v.count <= index
    ensures r.Err? ==> r.error == IndexOutOfRange
    ensures r.Ok? ==> r.value == Live(v)[index]
  {
    if index >= v.count || index < 0 then Err(IndexOutOfRange)
    else Ok(v.data[index])
  }

  /** The indexer's setter: the same bounds check, then one slot is
      overwritten. */
  function Set<T>(v: Vector<T>, index: int, value: T): (r: Result<Vector<T>>)
    requires Valid(v)
    ensures r.Err? <==> index < 0 || v.count <= index
    ensures r.Err? ==> r.error == IndexOutOfRange
    ensures r.Ok? ==> && Valid(r.value)
                      && r.value.count == v.count
                      && |r.value.data| == |v.data|
                      && r.value.data[index] == value
                      && forall j :: 0 <= j < |v.data| && j != index ==> r.value.data[j] == v.data[j]
  {
    if index >= v.count || index < 0 then Err(IndexOutOfRange)
    else Ok(Vector(v.data[index := value], v.count))
  }

  /** `ExtendData(extraCapacity)`: a fresh array `extra` slots longer, into
      which only the live prefix is copied; the other slots are fresh. */
  function ExtendData<T>(v: Vector<T>, extra: nat, zero: T): (r: Vector<T>)
    requires Valid(v)
    ensures Valid(r) && r.count == v.count
    ensures |r.data| == |v.data| + extra
    ensures Live(r) == Live(v)
    ensures SparesAreBlank(r, zero)
  {
    Vector(v.data[..v.count] + seq(|v.data| + extra - v.count, _ => zero), v.count)
  }

  /** `Add(element)`: grow by DEFAULT_CAPACITY slots when full, then store the
      element at index `Count` and increment `Count`. */
  function Add<T>(v: Vector<T>, element: T, zero: T): (r: Vector<T>)
    requires Valid(v)
    ensures Valid(r) && r.count == v.count + 1
    ensures Live(r) == Live(v) + [element]
    ensures v.count == |v.data| ==> |r.data| == |v.data| + DefaultCapacity
    ensures v.count < |v.data| ==> r.data == v.data[v.count := element]
    ensures SparesAreBlank(v, zero) ==> SparesAreBlank(r, zero)
  {
    var grown := if v.count == |v.data| then ExtendData(v, DefaultCapacity, zero) else v;
    Vector(grown.data[grown.count := element], grown.count + 1)
  }

  /** `IndexOf(element)`: the first live index holding an element equal to
      `element`, or -1 when there is none. */
  function IndexOf<T(==)>(v: Vector<T>, element: T): (r: int)
    requires Valid(v)
    ensures -1 <= r < v.count
    ensures 0 <= r ==> v.data[r] == element && forall j :: 0 <= j < r ==> v.data[j] != element
    ensures r == -1 <==> forall j :: 0 <= j < v.count ==> v.data[j] != element
  {
    IndexFrom(v.data, v.count, element, 0)
  }

  /** The linear scan of `IndexOf` from position `i` on. */
  function IndexFrom<T(==)>(data: seq<T>, count: nat, element: T, i: nat): (r: int)
    requires i <= count <= |data|
    ensures r == -1 || i <= r < count
    ensures 0 <= r ==> data[r] == element && forall j :: i <= j < r ==> data[j] != element
    ensures r == -1 <==> forall j :: i <= j < count ==> data[j] != element
    decreases count - i
  {
    if i == count then -1
    else if data[i] == element then i
    else IndexFrom(data, count, element, i + 1)
  }

  /** The sorter `Sort` runs: the installed one, or a new `DefaultSorter`
      when the `Sorter` property has been set to `null`. */
  function EffectiveSorter<T>(installed: Option<Sorter<T>>, natural: Comparer<T>): Sorter<T> {
    match installed
    case None => DefaultSorter(natural)
    case Some(s) => s
  }

  /** `Sort(comparer)`: shrink the backing array to exactly `Count` slots,
      then let the sorter reorder it, handing it `comparer` (or `null`). The
      sorter works in place, so it cannot change the length. */
  function SortWith<T>(v: Vector<T>, installed: Option<Sorter<T>>, comparer: Option<Comparer<T>>,
                       natural: Comparer<T>): (r: Vector<T>)
    requires Valid(v)
    requires |EffectiveSorter(installed, natural)(Live(v), comparer)| == v.count
    ensures Valid(r) && r.count == v.count
    ensures |r.data| == v.count
    ensures SortsCorrectly(EffectiveSorter(installed, natural), Live(v), comparer, natural) ==>
              && multiset(Live(r)) == multiset(Live(v))
              && SortedBy(Resolve(comparer, natural), Live(r))
  {
    var sorter := EffectiveSorter(installed, natural);
    var resized := v.data[..v.count];
    var sorted := if comparer.None? then sorter(resized, None) else sorter(resized, comparer);
    assert Live(Vector(sorted, v.count)) == sorted;
    Vector(sorted, v.count)
  }

  /** `Sort()`: the same, handing the sorter a `null` comparer. */
  function Sort<T>(v: Vector<T>, installed: Option<Sorter<T>>, natural: Comparer<T>): (r: Vector<T>)
    requires Valid(v)
    requires |EffectiveSorter(installed, natural)(Live(v), None)| == v.count
    ensures r == SortWith(v, installed, None, natural)
  {
    var sorter := EffectiveSorter(installed, natural);
    Vector(sorter(v.data[..v.count], None), v.count)
  }

  /** Sorting with the default sorter (installed, or reinstalled because the
      property was `null`) yields a sorted permutation of the live elements
      and a backing store exactly `Count` long. */
  lemma DefaultSortSortsLive<T(!new)>(v: Vector<T>, comparer: Option<Comparer<T>>, natural: Comparer<T>)
    requires Valid(v)
    requires TotalOrder(Resolve(comparer, natural))
    ensures |EffectiveSorter(None, natural)(Live(v), comparer)| == v.count
    ensures var r := SortWith(v, None, comparer, natural);
            && |r.data| == r.count == v.count
            && multiset(Live(r)) == multiset(Live(v))
            && SortedBy(Resolve(comparer, natural), Live(r))
  {
    DefaultSorterSortsCorrectly(Live(v), comparer, natural);
  }

  /** `Add` applied to each element of `xs` in turn. */
  function AddAll<T>(v: Vector<T>, xs: seq<T>, zero: T): (r: Vector<T>)
    requires Valid(v)
    ensures Valid(r)
    decreases |xs|
  {
    if |xs| == 0 then v else AddAll(Add(v, xs[0], zero), xs[1..], zero)
  }

  /** Appending keeps every earlier element at its index, across any number
      of growths: the live elements are the old ones followed by `xs`. */
  lemma {:induction false} AddAllAppends<T>(v: Vector<T>, xs: seq<T>, zero: T)
    requires Valid(v)
    ensures AddAll(v, xs, zero).count == v.count + |xs|
    ensures Live(AddAll(v, xs, zero)) == Live(v) + xs
    decreases |xs|
  {
    if |xs| > 0 {
      AddAllAppends(Add(v, xs[0], zero), xs[1..], zero);
      assert Live(v) + [xs[0]] + xs[1..] == Live(v) + xs;
    }
  }

  /** After `N` appends to an empty vector, `Count == N` and the indexer
      returns the `i`-th appended value at index `i`. */
  lemma AppendedValuesReadBack<T>(xs: seq<T>, zero: T, i: int)
    requires 0 <= i < |xs|
    ensures var v := AddAll(NewDefault(zero), xs, zero);
            v.count == |xs| && Get(v, i) == Ok(xs[i])
  {
    AddAllAppends(NewDefault(zero), xs, zero);
  }

  /** `IndexOf` never looks at the spare slots: two vectors with the same
      live elements give the same answer. */
  lemma IndexOfReadsOnlyLive<T>(v: Vector<T>, w: Vector<T>, element: T)
    requires Valid(v) && Valid(w) && Live(v) == Live(w)
    ensures IndexOf(v, element) == IndexOf(w, element)
  {
  }

  /** Reading back through the indexer after a write through it: the
      written slot yields the new value, every other index reads as before,
      and a rejected write changes nothing. */
  lemma SetThenGet<T>(v: Vector<T>, index: int, value: T, j: int)
    requires Valid(v)
    ensures match Set(v, index, value)
            case Ok(w) => Get(w, j) == if j == index then Ok(value) else Get(v, j)
            case Err(_) => Get(v, index).Err?
  {
  }

  /** An index `IndexOf` reports is one the getter accepts, holding the
      element; when it reports -1 no index the getter accepts holds it. */
  lemma IndexOfAgreesWithGet<T>(v: Vector<T>, element: T, j: int)
    requires Valid(v)
    ensures 0 <= IndexOf(v, element) ==> Get(v, IndexOf(v, element)) == Ok(element)
    ensures IndexOf(v, element) == -1 ==> Get(v, j) != Ok(element)
  {
  }

  /** Copying only the live prefix loses nothing while the spare slots are
      blank: the grown store is the old store followed by `extra` fresh
      slots. */
  lemma ExtendDataKeepsWholeStore<T>(v: Vector<T>, extra: nat, zero: T)
    requires Valid(v) && SparesAreBlank(v, zero)
    ensures ExtendData(v, extra, zero).data == v.data + seq(extra, _ => zero)
  {
  }

  /** The state-changing operations a caller can apply to a vector. A sort
      here uses the default sorter, installed or reinstalled. */
  datatype Op<!T> = Append(element: T) | Assign(index: int, value: T) | SortBy(comparer: Option<Comparer<T>>)

  /** One operation; an indexer assignment that raises leaves the vector
      as it was. */
  function Apply<T(!new)>(v: Vector<T>, op: Op<T>, zero: T, natural: Comparer<T>): (r: Vector<T>)
    requires Valid(v)
    ensures Valid(r)
  {
    match op
    case Append(e) => Add(v, e, zero)
    case Assign(i, x) => (match Set(v, i, x) case Ok(w) => w case Err(_) => v)
    case SortBy(c) =>
      assert |InsertionSort(Live(v), Resolve(c, natural))| == v.count;
      SortWith(v, None, c, natural)
  }

  /** A sequence of operations, applied in order. */
  function Run<T(!new)>(v: Vector<T>, ops: seq<Op<T>>, zero: T, natural: Comparer<T>): (r: Vector<T>)
    requires Valid(v)
    ensures Valid(r)
    decreases |ops|
  {
    if |ops| == 0 then v else Run(Apply(v, ops[0], zero, natural), ops[1..], zero, natural)
  }

  /** Nothing ever writes a spare slot: from construction on, every slot at
      or beyond `Count` holds `default(T)`. In particular `data[Count]`, when
      it exists, is always `default(T)`. */
  lemma {:induction false} SparesStayBlank<T(!new)>(v: Vector<T>, ops: seq<Op<T>>, zero: T, natural: Comparer<T>)
    requires Valid(v) && SparesAreBlank(v, zero)
    ensures SparesAreBlank(Run(v, ops, zero, natural), zero)
    decreases |ops|
  {
    if |ops| > 0 {
      var w := Apply(v, ops[0], zero, natural);
      assert SparesAreBlank(w, zero);
      SparesStayBlank(w, ops[1..], zero, natural);
    }
  }

  /** The `Capacity` property misreports every vector that owns a slot:
      it reads 0 while the backing store is longer. */
  lemma CapacityAsWrittenMisreports<T>(zero: T)
    ensures var v := NewDefault(zero);
            CapacityAsWritten(v) == 0 && Capacity(v) == DefaultCapacity
    ensures forall x: T :: CapacityAsWritten(Add(NewDefault(zero), x, zero)) == 0
                        != Capacity(Add(NewDefault(zero), x, zero))
  {
  }
}
