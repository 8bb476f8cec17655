# A verified model of a growable array list and its quicksort

This project models the two components of the `com.mogilan.task1` library in Dafny:

- **`ArrayList<E>`**: a growable array container. It has a backing buffer `elements`, whose length is the capacity, and a live count `size`. It supports append with growth, indexed insert, `get`, `set`, removal by index and by value, `clear`, `sort` and bracketed rendering.
- **`SortUtil.quicksort`**: an in-place quicksort over the slots `0..highIndex` of an array. It picks a random pivot, parks it in the last slot, runs a two-pointer partition and recurses on both sides.

Files:

- `wrappers.dfy` (module `Wrappers`). `Option` stands for a Java reference that may be `null`. `Error`, `Result` and `Outcome` stand for the exceptions `IndexOutOfBoundsException` and `NullPointerException`.
- `java_arrays.dfy` (module `JavaArrays`). Models `System.arraycopy` and `Arrays.copyOf`, the two library routines the list moves its elements with. `ArrayCopy` is a simultaneous `forall` assignment. So it copies correctly even when source and destination overlap, as `System.arraycopy` promises.
- `sort_util.dfy` (module `SortUtil`). The comparator contract as predicates, then the sort itself: `Swap`, `GetPivot`, `Partition`, the recursive `QuicksortRange` and the public `Quicksort`. Lemmas about sorted sequences and permutations support the proof.
- `array_list.dfy` (module `ArrayLists`). The capacity arithmetic, the forward scan of `remove(Object)` as a function `ScanFrom`, and the rendering of `toString()` as a function `Show`. Then the class `ArrayList` over `array<Option<T>>`, whose methods mirror the Java methods one for one. A client method, `ListClient`, shows what callers can conclude from the contracts alone: appends, a rejected insert at the end position, removal by value, and `get` after `clear`.

Modelling choices:

- Elements of the list are `Option<T>`, with `None` standing for `null`.
- `Contents()` is the list as users see it: `elements[..size]`. Every mutating method states the new `Contents()`. It also states the whole new buffer, including which slots beyond `size` are kept, nulled or fresh, and whether the buffer was replaced and with what capacity.
- `ceil(1.5 c) + 1` is computed in integers as `(3c + 1) / 2 + 1`. The contract characterises it as a ceiling: `3c <= 2(r - 1) < 3c + 2`.
- Comparisons go through `SortUtil.Resolve`. It uses the comparator when one is given and the natural order (a `compareTo` function passed in) otherwise. The resolved ordering must be a total preorder: `cmp(x, y) <= 0` exactly when `cmp(y, x) >= 0`, and "at most" is transitive. This is the part of the `java.util.Comparator` contract that sorting relies on.
- The random pivot is a nondeterministic choice in `[low, high)`. This is the range `nextInt(high - low) + low` draws from. The pivot can therefore never already sit in the last slot.
- `remove(Object)` with a non-null target calls `equals` on each slot. If it meets a null slot before a match, that call dereferences null. The model makes this an error outcome, `Err(NullPointer)`, and leaves the list unchanged. It does not add a precondition that would exclude the case.
- `add(int, E)` checks its index with `Objects.checkIndex(index, size)`. So `index == size` is rejected, and inserting into an empty list always fails. The model keeps this.

## Model

| member | source | states |
|---|---|---|
| `SortUtil.Resolve` | src/main/java/com/mogilan/task1/SortUtil.java:87-92 | comparisons use the comparator when one is given, otherwise the elements' natural order |
| `SortUtil.Swap` | src/main/java/com/mogilan/task1/SortUtil.java:94-98 | the two slots exchange values, every other slot is unchanged, and the multiset of the array is preserved |
| `SortUtil.GetPivot` | src/main/java/com/mogilan/task1/SortUtil.java:64-69 | the pivot is the old value of some index in `[low, high)`; that value is moved to slot `high` and the old `high` value takes its place; nothing else changes |
| `SortUtil.Partition` | src/main/java/com/mogilan/task1/SortUtil.java:71-85 | returns `p` in `[low, high]`: slots `[low, p)` are at most the pivot, slot `p` holds the pivot, slots `(p, high]` are at least the pivot; the result is a permutation and slots outside `[low, high]` are untouched; the nested loops terminate |
| `SortUtil.QuicksortRange` | src/main/java/com/mogilan/task1/SortUtil.java:52-62 | sorts slots `low..high` non-decreasingly as a permutation of the array, touching nothing outside the range; a range with `low >= high` is left exactly as it was; both recursive calls are on strictly smaller ranges |
| `SortUtil.Quicksort` | src/main/java/com/mogilan/task1/SortUtil.java:45-50 | a null array fails with a null-pointer error; otherwise `highIndex` outside `[0, length)` fails with out-of-range; both checks leave the array unchanged; on success `0..highIndex` is sorted, the array is a permutation of the input, slots beyond `highIndex` are untouched, and under a total order an already sorted range is returned unchanged |
| `SortUtil.JoinSorted` | src/main/java/com/mogilan/task1/SortUtil.java:53-61 | a sorted left part at most the pivot, the pivot, then a sorted right part at least the pivot together form a sorted range |
| `SortUtil.QuicksortStep` | src/main/java/com/mogilan/task1/SortUtil.java:57-61 | after partitioning, sorting the left side and then the right side (each a permutation of its side that leaves the rest alone) leaves the whole range sorted |
| `SortUtil.SortedUnique` | src/test/java/com/mogilan/task1/SortUtilTest.java:20-31 | under a total order, two sorted sequences holding the same multiset are equal; so the sort's result is determined by its input's multiset, and sorting a sorted range changes nothing |
| `SortUtil.SegmentPermutation` | src/main/java/com/mogilan/task1/SortUtil.java:94-98 | two arrays that are permutations of each other and agree outside a segment hold the same multiset inside it |
| `SortUtil.BoundPreserved` | src/main/java/com/mogilan/task1/SortUtil.java:57-61 | a bound that every element of a segment meets still holds after that segment is permuted |
| `JavaArrays.ArrayCopy` | src/main/java/com/mogilan/task1/ArrayList.java:279 | the destination range receives the source range as it was before the call; everything else in the destination is unchanged, also when the two ranges overlap in one array |
| `JavaArrays.CopyOf` | src/main/java/com/mogilan/task1/ArrayList.java:269 | a fresh array of the requested length holding the original followed by nulls |
| `ArrayLists.MovingCapacity` | src/main/java/com/mogilan/task1/ArrayList.java:283-286 | the result minus one is the ceiling of 1.5 times the capacity, so the new capacity is strictly larger |
| `ArrayLists.GrowCapacity` | src/main/java/com/mogilan/task1/ArrayList.java:263-270 | an empty buffer grows to 10, a non-empty one to the ceiling of 1.5 times its capacity plus one; either way there is room for another element |
| `ArrayLists.ScanFrom` | src/main/java/com/mogilan/task1/ArrayList.java:151-165 | the scan stops at the first slot equal to the target, with every earlier slot different from it; or it stops at a null slot met by a non-null target before any match; or it finds neither and the target is absent |
| `ArrayLists.RemoveFirstMatch` | src/main/java/com/mogilan/task1/ArrayList.java:159-161 | removing the first match takes exactly one copy of the target out of the list's multiset, and the target was present |
| `ArrayLists.NoMatchMeansAbsent` | src/main/java/com/mogilan/task1/ArrayList.java:154-158 | a scan that finds nothing proves the target absent; a null target matches only null and never causes a null dereference; it matches exactly when the list holds a null |
| `ArrayLists.JoinedAgree` | src/main/java/com/mogilan/task1/ArrayList.java:249-259 | the left-to-right build of the loop and the front-first reading "first, then ', ', then the rest" produce the same string |
| `ArrayLists.Show` | src/main/java/com/mogilan/task1/ArrayList.java:243-261 | the rendering is `"[]"` for an empty list; otherwise it starts with `[`, ends with `]`, and holds the elements' renderings joined by `", "` from the first to the last |
| `ArrayLists.ShiftedIntoNulls` | src/main/java/com/mogilan/task1/ArrayList.java:273-277 | the two copies into a fresh null-filled buffer give the prefix, a null gap at the index, the moved suffix, then nulls |
| `ArrayLists.ClosedGap` | src/main/java/com/mogilan/task1/ArrayList.java:288-293 | shifting the tail left and nulling the last live slot yields the contents without the removed slot, followed by a null and the untouched slots beyond |
| `ArrayLists.ArrayList.constructor` | src/main/java/com/mogilan/task1/ArrayList.java:63-65 | an empty list with a zero-capacity buffer |
| `ArrayLists.ArrayList.WithCapacity` | src/main/java/com/mogilan/task1/ArrayList.java:71-73 | an empty list whose buffer holds `initialCapacity` nulls |
| `ArrayLists.ArrayList.Size` | src/main/java/com/mogilan/task1/ArrayList.java:208-210 | the number of elements in the list |
| `ArrayLists.ArrayList.Get` | src/main/java/com/mogilan/task1/ArrayList.java:132-135 | succeeds exactly when `0 <= index < size`, and then returns the element at `index`; fails out-of-range otherwise |
| `ArrayLists.ArrayList.Grow` | src/main/java/com/mogilan/task1/ArrayList.java:263-270 | a fresh buffer of the grown capacity that holds the old buffer followed by nulls |
| `ArrayLists.ArrayList.Add` | src/main/java/com/mogilan/task1/ArrayList.java:84-89 | the contents become the old contents plus the element at the end; a full buffer is first replaced by a fresh one of the grown capacity with nulls beyond the elements; otherwise the same buffer is kept and the slots beyond the new size are unchanged |
| `ArrayLists.ArrayList.MoveElementsRightFromIndex` | src/main/java/com/mogilan/task1/ArrayList.java:272-281 | the slots from `index` move one to the right; a full buffer is replaced by a fresh one of capacity `ceil(1.5c) + 1`, filled in one pass with a null gap at `index`; otherwise the shift is in place and slot `index` keeps its old value |
| `ArrayLists.ArrayList.AddAt` | src/main/java/com/mogilan/task1/ArrayList.java:106-111 | fails out-of-range exactly when the index is not in `[0, size)`, and the end position is rejected; on failure the list is unchanged; on success the contents are `old[..index] + [e] + old[index..]`, and the buffer is grown to `ceil(1.5c) + 1` when it was full |
| `ArrayLists.ArrayList.Clear` | src/main/java/com/mogilan/task1/ArrayList.java:118-121 | the list becomes empty with a zero-capacity buffer, after which `Get(0)` fails |
| `ArrayLists.ArrayList.SimpleRemoveElement` | src/main/java/com/mogilan/task1/ArrayList.java:288-293 | removes slot `index`: the later slots move one left, the size drops by one, the vacated slot at the new size becomes null and slots beyond the old size are unchanged |
| `ArrayLists.ArrayList.Remove` | src/main/java/com/mogilan/task1/ArrayList.java:151-165 | when the scan finds a first match at `i`, that slot is removed and the result is `true`; when the target is absent, the result is `false` and the list is unchanged; when a non-null target meets a null slot first, it fails with a null-pointer error and the list is unchanged |
| `ArrayLists.ArrayList.RemoveAt` | src/main/java/com/mogilan/task1/ArrayList.java:177-182 | fails out-of-range with the list unchanged unless `0 <= index < size`; otherwise returns the old element at `index`, the contents become `old[..index] + old[index+1..]` and the vacated slot is nulled |
| `ArrayLists.ArrayList.Set` | src/main/java/com/mogilan/task1/ArrayList.java:195-200 | fails out-of-range with nothing changed unless `0 <= index < size`; otherwise returns the old element and changes only slot `index`, keeping the size |
| `ArrayLists.ArrayList.Sort` | src/main/java/com/mogilan/task1/ArrayList.java:231-235 | a list of at most one element is left alone; otherwise the contents become a sorted permutation of themselves; the size and the slots beyond it are untouched |
| `ArrayLists.ArrayList.ToString` | src/main/java/com/mogilan/task1/ArrayList.java:243-261 | the loop over the buffer returns `Show(Contents())`: `"[]"` for an empty list, else the elements joined by `", "` in brackets |

## Left out

- Java `int` arithmetic. `size`, indices and capacities are unbounded integers. The overflow of `(int) Math.ceil(c * 1.5) + 1` and of `size++` for lists near `Integer.MAX_VALUE` is not modelled.
- `ArrayLists.ArrayList.WithCapacity` takes a `nat`. A negative initial capacity, which throws `NegativeArraySizeException` in Java, cannot be passed.
- The shared static `EMPTY_ELEMENTS` array is modelled as a fresh zero-length array. Identity sharing between lists is not captured. This is harmless, because no operation writes to a zero-length buffer.
- `java.util.Random` is replaced by a nondeterministic choice of the pivot index in the same range. Uniformity is not modelled.
- Runtime failures inside comparisons are not modelled. These are `ClassCastException` for elements that are not `Comparable` or are of mixed types, and `NullPointerException` for null elements under the natural order or a comparator that does not handle null. `SortUtil.Quicksort` and `ArrayLists.ArrayList.Sort` instead require the resolved ordering to be a total preorder on the element type. These orderings are total on `Option<T>`, so they place `None` somewhere. The model therefore sorts a list holding `null` successfully where Java throws `NullPointerException`, both under the natural order and under a comparator that does not handle null.
- Comparators and `equals` are pure functions without side effects. `equals` is Dafny value equality on `T`.
- Element rendering via `StringBuilder.append(Object)` is a caller-supplied `render: T -> string`. A null slot renders as `"null"`.
- Garbage collection of replaced buffers, thread safety, and the `List` interface, which has no logic of its own, are not modelled.
- `ArrayLists.ArrayList.Sort` ignores the outcome of `SortUtil.Quicksort`. From the list, the buffer is never null and `size - 1` is always in range, so the outcome is always success.
