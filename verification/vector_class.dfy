/** The C# class itself: a backing array, a count and an installable sorter,
    with each method proved to do what the corresponding function of
    `VectorModel` / `Searching` describes. */
module VectorClass {
  import opened Outcomes
  import opened Ordering
  import opened Sorting
  import VM = VectorModel
  import Searching

  class Vector<T(==)> {
    /** The backing array; its length is the true capacity. */
    var data: array<T>
    /** `Count`. */
    var count: nat
    /** The `Sorter` property; callers may set it to `null` (None). */
    var sorter: Option<Sorter<T>>
    /** `default(T)`, the value of every slot of a fresh array. */
    const zero: T
    /** The element type's `CompareTo`, i.e. `Comparer<T>.Default`. */
    const natural: Comparer<T>

    /** The class invariant, and the fact that no spare slot has ever been
        written. */
    ghost predicate Valid()
      reads this, data
    {
      && count <= data.Length
      && VM.SparesAreBlank(Model(), zero)
    }

    /** The vector as a value. */
    ghost function Model(): VM.Vector<T>
      reads this, data
    {
      VM.Vector(data[..], count)
    }

    /** `new Vector<T>(capacity)`; a negative capacity raises, see `VM.New`. */
    constructor (capacity: nat, zero: T, natural: Comparer<T>)
      ensures Valid() && Model() == VM.New(capacity, zero).value && fresh(data)
      ensures this.zero == zero && this.natural == natural
      ensures sorter == Some(DefaultSorter(natural))
    {
      data := new T[capacity](_ => zero);
      count := 0;
      sorter := Some(DefaultSorter(natural));
      this.zero := zero;
      this.natural := natural;
    }

    /** `new Vector<T>()`: DEFAULT_CAPACITY slots. */
    constructor Default(zero: T, natural: Comparer<T>)
      ensures Valid() && Model() == VM.NewDefault(zero) && fresh(data)
      ensures this.zero == zero && this.natural == natural
      ensures sorter == Some(DefaultSorter(natural))
    {
      data := new T[VM.DefaultCapacity](_ => zero);
      count := 0;
      sorter := Some(DefaultSorter(natural));
      this.zero := zero;
      this.natural := natural;
    }

    /** The indexer's getter. */
    method Get(index: int) returns (r: Result<T>)
      requires Valid()
      ensures r == VM.Get(Model(), index)
    {
      if index >= count || index < 0 {
        return Err(IndexOutOfRange);
      }
      return Ok(data[index]);
    }

    /** The indexer's setter. */
    method Set(index: int, value: T) returns (r: Outcome)
      requires Valid()
      modifies data
      ensures Valid()
      ensures r.Fail? <==> VM.Set(old(Model()), index, value).Err?
      ensures r.Fail? ==> r.error == IndexOutOfRange && Model() == old(Model())
      ensures r.Pass? ==> Model() == VM.Set(old(Model()), index, value).value
    {
      if index >= count || index < 0 {
        return Fail(IndexOutOfRange);
      }
      data[index] := value;
      return Pass;
    }

    /** `ExtendData(extraCapacity)`: copy the live prefix into a longer,
        fresh array. */
    method ExtendData(extra: nat)
      requires Valid()
      modifies this
      ensures Valid() && fresh(data)
      ensures Model() == VM.ExtendData(old(Model()), extra, zero)
      ensures sorter == old(sorter)
    {
      var z := zero;
      var newData := new T[data.Length + extra](_ => z);
      var i := 0;
      while i < count
        invariant 0 <= i <= count
        invariant forall j :: 0 <= j < i ==> newData[j] == data[j]
        invariant forall j :: i <= j < newData.Length ==> newData[j] == zero
        modifies newData
      {
        newData[i] := data[i];
        i := i + 1;
      }
      assert newData[..] == data[..count] + seq(data.Length + extra - count, _ => zero);
      data := newData;
    }

    /** `Add(element)`: the array is replaced only when it is full. */
    method Add(element: T)
      requires Valid()
      modifies this, data
      ensures Valid()
      ensures old(count) < old(data.Length) ==> data == old(data)
      ensures old(count) == old(data.Length) ==> fresh(data)
      ensures Model() == VM.Add(old(Model()), element, zero)
      ensures sorter == old(sorter)
    {
      if count == data.Length {
        ExtendData(VM.DefaultCapacity);
      }
      data[count] := element;
      count := count + 1;
    }

    /** `IndexOf(element)`: the linear scan of the live prefix. */
    method IndexOf(element: T) returns (r: int)
      requires Valid()
      ensures r == VM.IndexOf(Model(), element)
    {
      var i := 0;
      while i < count
        invariant 0 <= i <= count
        invariant forall j :: 0 <= j < i ==> data[j] != element
      {
        if data[i] == element {
          return i;
        }
        i := i + 1;
      }
      return -1;
    }

    /** A fresh array holding `s`. */
    static method ArrayOf(s: seq<T>) returns (a: array<T>)
      ensures fresh(a) && a[..] == s
    {
      a := new T[|s|](i requires 0 <= i < |s| => s[i]);
    }

    /** `Array.Resize(ref data, count)`: the same array when it already has
        `count` slots, otherwise the live prefix in a fresh one. */
    method Resize()
      requires Valid()
      modifies this
      ensures data.Length == count == old(count) && data[..] == old(data[..count])
      ensures old(count) == old(data.Length) ==> data == old(data)
      ensures old(count) < old(data.Length) ==> fresh(data)
      ensures sorter == old(sorter)
    {
      if count != data.Length {
        data := ArrayOf(data[..count]);
      }
    }

    /** The sorter reordering the array in place. */
    method SortInPlace(sorted: seq<T>)
      requires |sorted| == data.Length
      modifies data
      ensures data[..] == sorted
    {
      forall i | 0 <= i < data.Length {
        data[i] := sorted[i];
      }
    }

    /** `Sort()`: reinstall the default sorter if the property is `null`,
        shrink the array to `Count` slots (`Array.Resize`), then let the
        sorter reorder it in place with a `null` comparer. */
    method Sort()
      requires Valid()
      requires |VM.EffectiveSorter(sorter, natural)(data[..count], None)| == count
      modifies this, data
      ensures Valid() && sorter.Some?
      ensures old(count) == old(data.Length) ==> data == old(data)
      ensures old(count) < old(data.Length) ==> fresh(data)
      ensures sorter == Some(VM.EffectiveSorter(old(sorter), natural))
      ensures Model() == VM.Sort(old(Model()), old(sorter), natural)
    {
      if sorter.None? {
        sorter := Some(DefaultSorter(natural));
      }
      Resize();
      var sorted := sorter.value(data[..], None);
      SortInPlace(sorted);
    }

    /** `Sort(comparer)`: as `Sort()`, handing the sorter `comparer`, or
        `null` when `comparer` is `null`. */
    method SortWith(comparer: Option<Comparer<T>>)
      requires Valid()
      requires |VM.EffectiveSorter(sorter, natural)(data[..count], comparer)| == count
      modifies this, data
      ensures Valid() && sorter.Some?
      ensures old(count) == old(data.Length) ==> data == old(data)
      ensures old(count) < old(data.Length) ==> fresh(data)
      ensures sorter == Some(VM.EffectiveSorter(old(sorter), natural))
      ensures Model() == VM.SortWith(old(Model()), old(sorter), comparer, natural)
    {
      if sorter.None? {
        sorter := Some(DefaultSorter(natural));
      }
      Resize();
      var sorted;
      if comparer.None? {
        sorted := sorter.value(data[..], None);
      } else {
        sorted := sorter.value(data[..], comparer);
      }
      SortInPlace(sorted);
    }

    /** The private recursive `BinarySearch(element, left, right, comparer)`,
        reading the backing array; a read outside it is the exception. */
    method SearchRange(element: T, left: int, right: int, comparer: Option<Comparer<T>>) returns (r: Searching.SearchResult)
      ensures r == Searching.Search(data[..], element, left, right, Resolve(comparer, natural))
      decreases right - left + 1
    {
      var cmp := Resolve(comparer, natural);
      if left <= right {
        var mid := Searching.Midpoint(left, right);
        if mid < 0 || data.Length <= mid {
          return Searching.OutOfRange;
        }
        var result := cmp(element, data[mid]);
        if result == 0 {
          return Searching.Found(mid);
        }
        if result < 0 {
          r := SearchRange(element, left, mid - 1, Some(cmp));
          return;
        }
        if result > 0 {
          r := SearchRange(element, mid + 1, right, Some(cmp));
          return;
        }
      }
      return Searching.NotFound;
    }

    /** `BinarySearch(element)`. */
    method BinarySearch(element: T) returns (r: Searching.SearchResult)
      requires Valid()
      ensures r == Searching.BinarySearch(Model(), element, natural)
    {
      r := SearchRange(element, 0, count, None);
    }

    /** `BinarySearch(element, comparer)`. */
    method BinarySearchWith(element: T, comparer: Option<Comparer<T>>) returns (r: Searching.SearchResult)
      requires Valid()
      ensures r == Searching.BinarySearchWith(Model(), element, comparer, natural)
    {
      r := SearchRange(element, 0, count, comparer);
    }
  }

  /** A default vector of `int` after `Add(5)`, `Add(1)`, `Add(3)`. */
  method FiveOneThree() returns (v: Vector<int>)
    ensures fresh(v) && fresh(v.data) && v.Valid()
    ensures VM.Live(v.Model()) == [5, 1, 3]
    ensures v.natural == IntCompare && v.sorter == Some(DefaultSorter(IntCompare))
  {
    v := new Vector.Default(0, IntCompare);
    v.Add(5);
    v.Add(1);
    v.Add(3);
  }

  /** The program's ordinary use, through the class: appends, `Sort()`, and
      a search for an element the vector holds. */
  method AddSortSearch() returns (v: Vector<int>, r: Searching.SearchResult)
    ensures v.count == 3 && v.data.Length == 3
    ensures r.Found? && 0 <= r.index < v.count && v.data[r.index] == 3
  {
    v := FiveOneThree();
    var before := v.Model();
    assert before.data[2] == 3;
    IntCompareIsTotalOrder();
    DefaultSorterSortsCorrectly(v.data[..v.count], None, IntCompare);
    Searching.SortThenSearchFindsEveryElement(before, None, IntCompare, 2);
    var w := VM.SortWith(before, None, None, IntCompare);
    assert VM.Sort(before, v.sorter, IntCompare) == w;
    v.Sort();
    assert v.Model() == w;
    r := v.BinarySearch(3);
    assert r == Searching.BinarySearchWith(w, 3, None, IntCompare);
    assert IntCompare(3, w.data[r.index]) == 0;
  }
}
