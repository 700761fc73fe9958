# Vector<T> with recursive binary search, in Dafny

This project models `Vector<T>` from `VectorBinarySearch/Vector.cs`: a generic
growable array with a bounds-checked indexer, fixed-increment growth, a linear
`IndexOf`, a pluggable sorter (`ISorter`, defaulting to `DefaultSorter`), and a
recursive, comparer-driven binary search.

It has two layers:

- `VectorModel` and `Searching` model the vector as a value,
  `Vector(data: seq<T>, count: nat)`. `data` is the backing array, and its
  length is the true capacity. `count` is `Count`. Every operation is a pure
  function from the old vector to the new one, or to the exception it raises
  (`Outcomes.Result`). The contracts and lemmas live here.
- `VectorClass.Vector` is the class itself, over an `array<T>` with `Valid()`.
  Each method is proved to compute exactly the corresponding function of the
  value model (`Model()`), loop by loop and call by call.

Modelling choices:

- `zero: T` stands for `default(T)`, the value the runtime puts in every slot of
  a new array. Appends, indexer writes and default sorts never leave anything
  but `default(T)` at or beyond `Count` (`VectorModel.SparesStayBlank`). The
  class keeps this as part of `Valid()`, whatever sorter is installed, because a
  sort leaves no spare slots. So a spare slot `data[Count]`, whenever it exists,
  holds `default(T)`.
- A capacity of 0 is accepted. Only a negative capacity raises, with the
  OverflowException of the array allocation (`VectorModel.New`).
- A comparer is a function `(T, T) -> int`. `natural` stands for the element
  type's `CompareTo` (`Comparer<T>.Default`). A `null` comparer is `None`.
  `Ordering.TotalOrder` states the laws a comparer is assumed to obey where a
  lemma needs them.
- A sorter is a function `(seq<T>, Option<Comparer<T>>) -> seq<T>`. A
  user-supplied `ISorter` is arbitrary. The vector relies only on it keeping
  the length, because it sorts an array in place. `DefaultSorter` resolves a
  `null` comparer to the natural order and sorts. Here `Array.Sort` is
  represented by an insertion sort. The lemmas about sorting use only its
  sorted-permutation result, but the class contracts fix its exact output,
  including the stable order of elements that compare equal.
- A binary search ends in `Found(i)` (returns `i`), `NotFound` (returns -1) or
  `OutOfRange`. `OutOfRange` is the IndexOutOfRangeException raised when it
  reads `data[mid]` outside the array.

## Model

| member | source | states |
|---|---|---|
| VectorModel.New | VectorBinarySearch/Vector.cs:25-28 | fails, with an overflow, exactly when the capacity is negative; otherwise an empty valid vector with exactly `capacity` slots, all holding `default(T)` (capacity 0 allowed) |
| VectorClass.Vector.Default | VectorBinarySearch/Vector.cs:31 | the default constructor builds the value `VectorModel.NewDefault` describes in a fresh array, with the default sorter installed |
| VectorModel.NewDefault | VectorBinarySearch/Vector.cs:31 | the default constructor gives an empty vector with 10 slots, all spare slots blank |
| VectorModel.Capacity | VectorBinarySearch/Vector.cs:21-22 | the capacity the property documents never falls below `Count`, and equals it exactly when the store is full |
| VectorModel.CapacityAsWritten | VectorBinarySearch/Vector.cs:22 | the `Capacity` getter as written: the initial value 0, whatever the vector holds |
| VectorModel.CapacityAsWrittenMisreports | VectorBinarySearch/Vector.cs:22 | the `Capacity` property as written reads 0 on a new default vector (10 slots) and after its first `Add` |
| VectorModel.Get | VectorBinarySearch/Vector.cs:37-41 | the getter fails with IndexOutOfRange exactly when `index < 0` or `index >= Count`, even for an index inside the array; otherwise it yields the live element at `index` |
| VectorModel.Set | VectorBinarySearch/Vector.cs:42-46 | the setter fails exactly when the getter does; on success slot `index` holds the value, every other slot is unchanged, and `Count` and the array length are unchanged |
| VectorModel.ExtendData | VectorBinarySearch/Vector.cs:52-57 | the array grows by exactly `extra` slots; the live elements are the same, in the same order; `Count` is unchanged; every slot past `Count` is fresh |
| VectorModel.SetThenGet | VectorBinarySearch/Vector.cs:35-47 | after a successful write, the getter returns the new value at that index and the old result at every other index; a write is rejected only where the getter is |
| VectorModel.ExtendDataKeepsWholeStore | VectorBinarySearch/Vector.cs:52-57 | while spare slots hold `default(T)`, copying only the live prefix gives the old store followed by `extra` fresh slots, so nothing is lost |
| VectorModel.Add | VectorBinarySearch/Vector.cs:61-65 | `Count` goes up by one and the live elements become the old ones followed by `element`; the array grows by 10 exactly when it was full, and otherwise only slot `Count` changes; blank spare slots stay blank |
| VectorModel.AddAllAppends | VectorBinarySearch/Vector.cs:52-65 | after any number of appends, however many growths they cause, the live elements are the old ones followed by the appended ones in order |
| VectorModel.AppendedValuesReadBack | VectorBinarySearch/Vector.cs:31-65 | after N appends to a new vector, `Count == N` and the getter at `i` returns the `i`-th appended value |
| VectorModel.SparesStayBlank | VectorBinarySearch/Vector.cs:52-104 | across any sequence of appends, indexer writes (failing or not) and default sorts, every slot at or beyond `Count` keeps holding `default(T)` |
| VectorModel.IndexOf | VectorBinarySearch/Vector.cs:71-78 | the result is the least live index holding an equal element, or -1 exactly when no live element is equal |
| VectorModel.IndexFrom | VectorBinarySearch/Vector.cs:73-76 | the scan from position `i` returns the first equal element's index at or after `i` and before `Count`, or -1 exactly when there is none |
| VectorModel.IndexOfAgreesWithGet | VectorBinarySearch/Vector.cs:35-78 | an index `IndexOf` reports is accepted by the getter and holds the element; when it reports -1, no index the getter accepts holds the element |
| VectorModel.IndexOfReadsOnlyLive | VectorBinarySearch/Vector.cs:71-78 | two vectors with the same live elements get the same `IndexOf` answer, whatever their spare slots hold |
| VectorModel.EffectiveSorter | VectorBinarySearch/Vector.cs:93 | the sorter `Sort` runs: the installed one, or a new `DefaultSorter` when the property is `null` (also line 100) |
| VectorModel.SortWith | VectorBinarySearch/Vector.cs:98-104 | the array ends up exactly `Count` long with `Count` unchanged; when the sorter meets its contract, the live elements are a permutation of the old ones in non-decreasing order under the comparer, or under the natural order for `null` |
| VectorModel.Sort | VectorBinarySearch/Vector.cs:91-96 | `Sort()` is the same as `Sort(null)` |
| VectorModel.DefaultSortSortsLive | VectorBinarySearch/Vector.cs:82-104 | with the default sorter (installed, or reinstalled because the property is `null`) the result is a sorted permutation of the live elements, exactly `Count` slots long |
| Ordering.Resolve | VectorBinarySearch/Vector.cs:138 | a `null` comparer falls back to the natural order, `Comparer<T>.Default` (also line 86) |
| Sorting.DefaultSorter | VectorBinarySearch/Vector.cs:82-89 | `DefaultSorter.Sort`: resolve a `null` comparer to the natural order, then sort |
| Sorting.DefaultSorterSortsCorrectly | VectorBinarySearch/Vector.cs:84-88 | `DefaultSorter` keeps the length and returns a permutation sorted by the comparer, or by the natural order when the comparer is `null` |
| Searching.Midpoint | VectorBinarySearch/Vector.cs:143 | the midpoint lies within `[left, right]`, and is the floor of the average when `left` is non-negative |
| Searching.Search | VectorBinarySearch/Vector.cs:135-164 | the recursion terminates, shrinking `right - left + 1`; an index it returns lies in `[left, right]` and compares equal to `element`; it can raise only when the range reaches outside the array |
| Searching.SearchOutcome | VectorBinarySearch/Vector.cs:140-163 | from any range the entry points can reach on a sorted prefix, a live match is always found; otherwise it returns -1, unless `element` sorts after every live element, in which case the outcome is that of probing the spare slot `data[Count]` |
| Searching.BinarySearchWith | VectorBinarySearch/Vector.cs:181-184 | a returned index is at most `Count`, so possibly the spare slot `Count` itself, and compares equal under the resolved comparer; an exception means the array is exactly `Count` long |
| Searching.BinarySearch | VectorBinarySearch/Vector.cs:176-179 | the one-argument overload behaves as the comparer overload with `null` |
| Searching.BinarySearchOutcome | VectorBinarySearch/Vector.cs:176-184 | on a sorted vector, a live index is returned exactly when a live element compares equal; with no match it returns -1, except when `element` sorts after every live element: then it raises if the array is full, and returns `Count` if `default(T)` in `data[Count]` compares equal |
| Searching.SortThenSearchFindsEveryElement | VectorBinarySearch/Vector.cs:91-184 | after a default sort, searching with the same comparer for any element the vector held returns a live index that compares equal |
| Searching.SortThenSearchAboveAllThrows | VectorBinarySearch/Vector.cs:91-178 | after a sort, searching for an element above every element raises IndexOutOfRange (path: resize at line 94, probe at 143-146, entry at 178) |
| Searching.EmptyZeroCapacitySearchThrows | VectorBinarySearch/Vector.cs:140-146 | an empty vector with capacity 0 raises on every search, because `0 <= 0` admits a read of `data[0]` |
| Searching.PhantomMatchInSpareSlot | VectorBinarySearch/Vector.cs:140-151 | a vector holding -5 and -3 with spare room reports 0 at index 2 (`Count`), which the getter rejects and `IndexOf` does not find; an empty default vector reports 0 at index 0 |
| Searching.SpareSlotMatchesDefault | VectorBinarySearch/Vector.cs:140-151 | for every sorted `int` vector of negative numbers with a spare slot, `BinarySearch(0)` returns `Count`, the index of the spare slot holding `default(int)`; the corrected search returns -1 |
| Searching.BinarySearchFixed | VectorBinarySearch/Vector.cs:176-184 | with the upper bound `Count - 1`, the search never raises, returns only live indices that compare equal, and returns -1 at once on an empty vector |
| Searching.BinarySearchFixedCorrect | VectorBinarySearch/Vector.cs:135-184 | on a sorted vector the corrected search returns an index exactly when a live element compares equal, and -1 exactly when none does |
| VectorClass.Vector.Get | VectorBinarySearch/Vector.cs:37-41 | the array getter agrees with `VectorModel.Get` on the class's value |
| VectorClass.Vector.Set | VectorBinarySearch/Vector.cs:42-46 | the array setter fails exactly when `VectorModel.Set` does, leaves the value unchanged then, and otherwise produces `VectorModel.Set`'s vector |
| VectorClass.Vector.ExtendData | VectorBinarySearch/Vector.cs:52-57 | the copy loop into a fresh array produces `VectorModel.ExtendData`'s vector |
| VectorClass.Vector.Add | VectorBinarySearch/Vector.cs:61-65 | produces `VectorModel.Add`'s vector and leaves the installed sorter alone; the array object is kept when there was room and is a fresh one when it was full (line 63) |
| VectorClass.Vector.IndexOf | VectorBinarySearch/Vector.cs:71-78 | the loop returns `VectorModel.IndexOf`'s answer |
| VectorClass.Vector.Sort | VectorBinarySearch/Vector.cs:91-96 | reinstalls the default sorter when the property is `null`, then produces `VectorModel.Sort`'s vector, sorting the same array in place when it was full and a fresh `Count`-slot array otherwise |
| VectorClass.Vector.SortWith | VectorBinarySearch/Vector.cs:98-104 | the same for `Sort(comparer)` against `VectorModel.SortWith`, with the same array kept when full and a fresh one otherwise |
| VectorClass.Vector.Resize | VectorBinarySearch/Vector.cs:94 | `Array.Resize` to `Count` slots keeps the live elements in order, keeps the array object when it already has `Count` slots, and otherwise allocates a fresh one (also line 101) |
| VectorClass.Vector.SearchRange | VectorBinarySearch/Vector.cs:135-164 | the recursive method over the array returns exactly `Searching.Search`'s outcome, exception included |
| VectorClass.Vector.BinarySearch | VectorBinarySearch/Vector.cs:176-179 | returns `Searching.BinarySearch`'s outcome |
| VectorClass.Vector.BinarySearchWith | VectorBinarySearch/Vector.cs:181-184 | returns `Searching.BinarySearchWith`'s outcome |
| VectorClass.AddSortSearch | VectorBinarySearch/Vector.cs:31-179 | the class used as the program uses it: `new Vector<int>()`, `Add(5)`, `Add(1)`, `Add(3)`, `Sort()`, then `BinarySearch(3)` finds a live slot holding 3 in the three-slot array |

The anonymous class constructor, `new Vector<T>(capacity)` (lines 25-28), is
proved to build the value `VectorModel.New` describes for a non-negative
capacity, in a fresh array, with the default sorter installed.

## Findings

| source | as written | input that shows it | evidently intended | confidence | as-written member | corrected member |
|---|---|---|---|---|---|---|
| VectorBinarySearch/Vector.cs:178 | both overloads start the search on `[0, Count]`; the comment calls `Count` the last index | `Vector(0)` with nothing added, then `BinarySearch(7)`: reads `data[0]` of an empty array and raises | upper bound `Count - 1`: an empty vector answers -1 | high; not executed | Searching.EmptyZeroCapacitySearchThrows | Searching.BinarySearchFixed |
| VectorBinarySearch/Vector.cs:94 | after `Sort()` the array is exactly `Count` long, and the search can still climb to `data[Count]` | add 5, 1, 3; `Sort()`; `BinarySearch(9)` raises IndexOutOfRangeException | `BinarySearch(9)` returns -1 | high; not executed | Searching.SortThenSearchAboveAllThrows | Searching.BinarySearchFixedCorrect |
| VectorBinarySearch/Vector.cs:176-179 | the probe of the spare slot compares `element` against `default(T)` | `new Vector<int>()`, add -5 and -3, `BinarySearch(0)` returns 2, and the indexer rejects index 2 | -1, since no live element equals 0 | high; not executed | Searching.PhantomMatchInSpareSlot | Searching.BinarySearchFixedCorrect |
| VectorBinarySearch/Vector.cs:22 | `Capacity` is never assigned after its initialiser, so it always reads 0 | `new Vector<int>()`: `Capacity` is 0 while the array has 10 slots | the length of the backing array | high; not executed | VectorModel.CapacityAsWrittenMisreports | VectorModel.Capacity |

The class `VectorClass.Vector` keeps the search as written, because it models the
code. `Searching.BinarySearchFixed` is the corrected search. Both searches are
characterised: `Searching.SearchOutcome` and `Searching.BinarySearchOutcome`
describe the search as written, and `Searching.BinarySearchFixedCorrect`
describes the corrected one.

## Left out

- The internals of `Array.Sort`, `Comparer<T>.Default` and `Array.Resize` are not modelled. These are library calls. The default sorter is an insertion sort, and the lemmas use only its sorted-permutation result. `Array.Resize` is modelled by its effect: the same array when it already has `Count` slots, otherwise the live prefix in a fresh array of `Count` slots.
- Sorting.DefaultSorter: elements that compare equal end up in insertion sort's stable order, which `Array.Sort` (an unstable sort) does not promise; no lemma relies on that order, but the class's `Sort` and `SortWith` contracts, which equal the default sorter's output, do fix it.
- A user-supplied `ISorter` is arbitrary. The model assumes only that it keeps the length, which an in-place array sort cannot change. Sortedness after `Sort` is stated only for a sorter that meets the sorter contract.
- The commented-out iterative binary search (lines 185-237) is not modelled. It is dead code.
- `null` elements and reference-type `Equals`/`CompareTo` are not modelled. Elements are values compared with `==` and with a comparer function that is assumed total where a lemma needs it.
- Exceptions raised by a user comparer or sorter are not modelled.
- Searching.Midpoint: does not model the 32-bit overflow of `left + right`. The same goes for the 32-bit range of `Count` and the capacity, which cannot be reached by any vector that fits in memory.
- The cost of growth is not modelled. Growth is additive: 10 slots at a time, copying the live prefix each time.
- Thread safety is not modelled. The class makes no concurrency promise.
- The class constructor takes a non-negative capacity. The overflow a negative capacity raises is modelled in `VectorModel.New`.
- The `Sorter` property's getter and setter are not separate members. They are the class's public `sorter` field.
