# MyArrayList in Dafny

A verified model of the core of the Java repository EvgLav/MyArrayList. The core has three parts:

- **`MyArrayList`**: a growable list. A backing array `elements` holds the items, and the count `size` says how many of its leading slots are live. The class provides a checked `get`, the unchecked mutators `setInternal`, `upSize` and `downSize`, and a `resize` that doubles the backing array. Its `toString` prints the live elements.
- **`Actions`**: static mutators that work directly on the backing array: append, insert-at, remove-at, clear and set. Insert-at and remove-at shift elements with `System.arraycopy`.
- **`QuickSort`**: an in-place Lomuto quicksort over the live slots, driven by a `Comparator`.

Files:

- `errors.dfy`: the value types every module shares.
  - `Option`: a slot that may hold Java `null`. A cleared slot is `None`.
  - `Error`: the three exception classes the code can throw: `IllegalArgumentException`, `IndexOutOfBoundsException` and `ArrayIndexOutOfBoundsException`.
  - `Outcome` and `Result`: a thrown exception is modelled as a returned `Fail`/`Failure`. State changed before the throw stays changed.
- `array_list.dfy` (module `ArrayList`):
  - the class `MyArrayList`, with `elements: array<Option<T>>` and `size: nat`;
  - `Valid()`, meaning `size <= elements.Length`, and the ghost view `Contents() == elements[..size]`;
  - `ArrayCopy`, the semantics of `System.arraycopy`: every bound is checked before anything is written, and overlapping copies behave as if through a temporary buffer;
  - the `toString` rendering.
- `actions.dfy` (module `Actions`): the five mutators, each a method on the class. Each is proved against the sequence functions `InsertAt` and `RemoveAt`, or against a sequence update of `Contents()`.
- `quick_sort.dfy` (module `QuickSort`): `swap`, `partition`, the recursive `quickSort` and `sort`.
  - They are proved against ordering predicates over the comparator `cmp: (Option<T>, Option<T>) -> int`.
  - The comparator is required to be a total preorder, which is the Java `Comparator` contract.
- `scenarios.dfy` (module `Scenarios`): concrete runs of the demonstration program `Main.java` and of the repository's unit tests, each with its expected result as a postcondition.

A list made with capacity 0 can never grow: the code doubles the capacity, and doubling 0 gives 0. Zero capacity is accepted by the constructor, so this is a degenerate growth policy rather than an excluded input. The model follows the code: `Actions.Append` fails on such a list. The non-stalling policy is modelled separately as `MyArrayList.ResizeFixed`; see Findings.

## Model

| member | source | states |
|---|---|---|
| `ArrayList.ArrayCopy` | src/main/java/array/MyArrayList.java:87 | This is the `System.arraycopy` of `resize`, and also of insert-at and remove (src/main/java/actions/Actions.java:51 and :72). `System.arraycopy` succeeds exactly when every position and length is non-negative and both windows fit. On failure it throws ArrayIndexOutOfBounds and leaves the destination as it was. On success the destination is its old prefix, then the old source window, then its old suffix, even when source and destination are the same array. |
| `ArrayList.Render` | src/main/java/array/MyArrayList.java:115-125 | The text always starts with `[` and ends with `]`. A list with no live elements renders as `[]`. |
| `ArrayList.JoinedConcat` | src/main/java/array/MyArrayList.java:117-122 | For two non-empty runs of slots, the rendering of the concatenation is the two renderings joined by exactly one `", "`. So there is a separator between neighbours and none before the first or after the last. |
| `ArrayList.MyArrayList.constructor` | src/main/java/array/MyArrayList.java:18-21 | A new list has capacity 10 (`DEFAULT_SIZE`), size 0 and no elements, and every slot of its backing array is null. |
| `ArrayList.MyArrayList.WithCapacity` | src/main/java/array/MyArrayList.java:33-34 | For a capacity that passed the sign check, the new list has exactly that capacity and no elements, and every slot of its backing array is null. |
| `ArrayList.NewWithCapacity` | src/main/java/array/MyArrayList.java:29-35 | The capacity constructor throws IllegalArgumentException exactly when the capacity is negative. Otherwise the new list is valid, has that capacity and is empty, and every slot of its backing array is null. |
| `ArrayList.MyArrayList.Get` | src/main/java/array/MyArrayList.java:44-49 | `get` succeeds exactly when `0 <= index < size` and then returns the live slot at `index`. Otherwise it throws IndexOutOfBounds. It modifies nothing. |
| `ArrayList.MyArrayList.Size` | src/main/java/array/MyArrayList.java:56-58 | `size()` is the number of live elements. |
| `ArrayList.MyArrayList.SetInternal` | src/main/java/array/MyArrayList.java:75-77 | The unchecked write changes only slot `index` of the backing array. Size, capacity and every other slot stay as they were. |
| `ArrayList.MyArrayList.Resize` | src/main/java/array/MyArrayList.java:85-89 | The list gets a fresh backing array of exactly twice the old length. Size and every live element keep their positions. Slots past `size` are null. |
| `ArrayList.MyArrayList.ResizeFixed` | src/main/java/array/MyArrayList.java:85-89 | Corrected growth: the same as `resize`, except that an empty backing array grows to one slot, so afterwards there is always room for one more element. |
| `ArrayList.MyArrayList.UpSize` | src/main/java/array/MyArrayList.java:96-98 | The size grows by exactly one and nothing else changes. The caller must guarantee that the slot exists. |
| `ArrayList.MyArrayList.DownSize` | src/main/java/array/MyArrayList.java:105-107 | The size shrinks by exactly one and nothing else changes. |
| `ArrayList.MyArrayList.ToString` | src/main/java/array/MyArrayList.java:115-125 | The `StringBuilder` loop produces `Render` of the live elements: `[`, each live slot in index order with `", "` between neighbours and `null` for a null slot, then `]`. |
| `Actions.InsertAt` | src/main/java/actions/Actions.java:51-53 | Inserting at `index` gives one more element, with the new element at `index`. Everything before `index` is unchanged, and everything from `index` on has moved one place right. |
| `Actions.RemoveAt` | src/main/java/actions/Actions.java:72-74 | Removing at `index` gives one element fewer. Everything before `index` is unchanged, and everything after `index` has moved one place left. |
| `Actions.RemoveAtInsertAt` | src/main/java/actions/Actions.java:43-75 | Removing the element just inserted at `index` restores the list. |
| `Actions.InsertAtRemoveAt` | src/main/java/actions/Actions.java:43-75 | Re-inserting the element just removed from `index` restores the list. |
| `Actions.InsertAtEnd` | src/main/java/actions/Actions.java:23-55 | Inserting at position `size` is the same as appending. |
| `Actions.ShiftRightStore` | src/main/java/actions/Actions.java:51-53 | After insert-at's right shift by `arraycopy` and the store at `index`, the first `size + 1` slots are the insertion and the slots after them are untouched. |
| `Actions.ShiftLeftClear` | src/main/java/actions/Actions.java:72-73 | After remove-at's left shift by `arraycopy` and the nulling of the last live slot, the first `size - 1` slots are the removal, that slot is null, and the slots from `size` on are untouched. |
| `Actions.Append` | src/main/java/actions/Actions.java:23-29 | `add(list, e)` appends `e`. It resizes exactly when the list is full, and then by doubling. Slots past the new size keep their values. On a list of capacity 0 the store into slot 0 throws ArrayIndexOutOfBounds and the list stays empty. |
| `Actions.AppendFixed` | src/main/java/actions/Actions.java:23-29 | Corrected append using `ResizeFixed`: it always appends `e`, and it grows exactly when the list is full. |
| `Actions.Insert` | src/main/java/actions/Actions.java:43-55 | Insert-at as written. An index outside `[0, size]` throws IndexOutOfBounds before any change. On a full list, `arraycopy` runs on the stale array and throws ArrayIndexOutOfBounds. By then the capacity has doubled, while size and elements are unchanged, and every slot past `size` is null. With room, the elements become the insertion on the same array, and the slots past the new size are untouched. |
| `Actions.InsertFixed` | src/main/java/actions/Actions.java:43-55 | Corrected insert-at: it fails only on a bad index, with nothing changed. Otherwise the elements become the insertion. The list grows exactly when it was full. |
| `Actions.ShiftIn` | src/main/java/actions/Actions.java:51-53 | With room for one more, the shift, `upSize` and store of insert-at grow the size by one and make the elements the insertion. Slots past the new size are untouched. |
| `Actions.Remove` | src/main/java/actions/Actions.java:67-75 | `remove` throws IndexOutOfBounds, changing nothing, exactly when `index` is outside `[0, size)`. Otherwise the elements become the removal and the vacated slot `size - 1` is null. The array and the slots past the old size are unchanged. |
| `Actions.Clear` | src/main/java/actions/Actions.java:85-93 | `clear` leaves size 0 and every previously live slot null. Capacity, the backing array and the slots past the old size are unchanged. |
| `Actions.Set` | src/main/java/actions/Actions.java:106-111 | `set` throws IndexOutOfBounds, changing nothing, exactly when `index` is outside `[0, size)`. Otherwise only position `index` of the elements changes. |
| `QuickSort.SortedIffAdjacent` | src/main/java/sort/QuickSort.java:20-41 | For a comparator obeying the `Comparator` contract, every pair being in order is equivalent to every adjacent pair being in order, which is what the tests check. |
| `QuickSort.SortedUnique` | src/main/java/sort/QuickSort.java:20-22 | If the comparator separates unequal values, two sorted arrangements of the same multiset are identical. So the sorted result is determined by the input. |
| `QuickSort.SwapPermutes` | src/main/java/sort/QuickSort.java:77-81 | Exchanging two slots of a window rearranges that window. |
| `QuickSort.SortedAroundPivot` | src/main/java/sort/QuickSort.java:36-39 | Suppose both sides of a pivot are sorted, everything left of it is no later than it, and everything right of it is greater. Then the whole window is sorted. |
| `QuickSort.ScanTake` | src/main/java/sort/QuickSort.java:60-62 | When the scanned element is no later than the pivot, advancing `i` and swapping keeps the partition-loop invariant one step further. |
| `QuickSort.ScanSkip` | src/main/java/sort/QuickSort.java:59-60 | When the scanned element is greater than the pivot, the partition-loop invariant holds one step further. |
| `QuickSort.ScanFinish` | src/main/java/sort/QuickSort.java:65-66 | The final swap of the pivot into `i + 1` leaves the window partitioned around `i + 1`. |
| `QuickSort.SortedBelowLast` | src/main/java/sort/QuickSort.java:56-60 | In a window already in order, no slot before the pivot compares greater than the pivot, so the scan takes every slot. |
| `QuickSort.SortedShrink` | src/main/java/sort/QuickSort.java:36-39 | A window in order stays in order on every sub-window. On a window in order `partition` returns `high`, so the left call `quickSort(low, high - 1)` again gets a window in order and the right call an empty one. |
| `QuickSort.CombineSorted` | src/main/java/sort/QuickSort.java:36-39 | A partition followed by sorting both sides in place sorts the window, rearranges only inside it, and leaves everything outside it unchanged. |
| `QuickSort.Swap` | src/main/java/sort/QuickSort.java:77-81 | `swap` exchanges exactly slots `i` and `j`. Both reads go through the checked `get`, which cannot fail here because `i` and `j` are live. |
| `QuickSort.PartitionScan` | src/main/java/sort/QuickSort.java:57-64 | The scan loop of `partition` ends with `i` in `[low - 1, high)`, the pivot still last, `[low, i]` no later than the pivot and `(i, high)` greater. Only the window was rearranged. When the caller sets the ghost flag `inOrder`, which it may do only if nothing before the pivot compares greater than it, every slot was swapped with itself, so `i == high - 1` and the array is unchanged. |
| `QuickSort.Partition` | src/main/java/sort/QuickSort.java:55-67 | `partition` returns `p` in `[low, high]` with the old `a[high]` at `p`. Everything in `[low, p)` compares `<= 0` with it and everything in `(p, high]` compares `> 0`. The window is rearranged and the slots outside it are unchanged. When the caller sets the ghost flag `inOrder`, which it may do only if the window is already in order, it returns `high` and the array is unchanged, for any comparator. |
| `QuickSort.QuickSortRange` | src/main/java/sort/QuickSort.java:35-41 | `quickSort(low, high)` terminates, with `high - low + 1` decreasing. It sorts the window `[low, high]`, rearranges only inside it, and is a no-op when `low >= high`. When the caller sets the ghost flag `inOrder`, which it may do only if the window is already in order, it changes nothing, for any comparator. |
| `QuickSort.Sort` | src/main/java/sort/QuickSort.java:20-22 | After `sort`, every pair and every adjacent pair of live elements is in order. The live elements are a rearrangement of the old ones, and size and slots past `size` are unchanged. A list of at most one element is untouched. An already sorted list leaves the backing array exactly as it was, whatever the comparator, so sorting twice gives the result of sorting once. |
| `Scenarios.FullInsertAsWritten` | src/main/java/Main.java:12-25 | The demonstration program, as written, throws ArrayIndexOutOfBounds at its insert-at. The list still holds 10, 20, 30, 40, 50, but with capacity 10. |
| `Scenarios.DemoFixed` | src/main/java/Main.java:12-34 | With the corrected insert-at, the program's list becomes 10, 20, 25, 30, 40, 50 (capacity 10), then 10, 20, 25, 40, 50, then 10, 15, 25, 40, 50. |
| `Scenarios.DemoFixedList` | src/main/java/Main.java:12-34 | The corrected demonstration run, through the list operations alone (five appends, insert 25 at 2, remove at 3, set 1 to 15), builds 10, 15, 25, 40, 50 with capacity 10. |
| `Scenarios.DemoSortAndClear` | src/main/java/Main.java:36-42 | Continuing the corrected demonstration run (five appends, insert 25 at 2, remove at 3, set 1 to 15), sorting 10, 15, 25, 40, 50 in natural order leaves it unchanged. `clear` empties it and keeps the capacity 10. |
| `Scenarios.OnlyNaturalArrangement` | src/test/java/SortTest/QuickSortTest.java:20-31 | The only natural-order arrangement of 30, 10, 20 is 10, 20, 30. |
| `Scenarios.SortNaturalScenario` | src/test/java/ActionsTest/ActionsTest.java:126-134 | Appending 30, 10, 20 and sorting in natural order gives 10, 20, 30. |
| `Scenarios.OnlyReverseArrangement` | src/test/java/ActionsTest/ActionsTest.java:140-148 | The only reverse-order arrangement of 30, 10, 20 is 30, 20, 10. |
| `Scenarios.SortReverseScenario` | src/test/java/ActionsTest/ActionsTest.java:140-148 | Appending 30, 10, 20 and sorting in reverse order gives 30, 20, 10. |
| `Scenarios.RenderTenTwentyThirty` | src/main/java/array/MyArrayList.java:115-125 | The live elements 10, 20, 30 render as `[10, 20, 30]`. |
| `Scenarios.RenderScenario` | src/test/java/ActionsTest/ActionsTest.java:20-28 | Three appends print as `[10, 20, 30]`. After `clear` the list prints as `[]`. |
| `Scenarios.InsertWithRoomScenario` | src/test/java/ActionsTest/ActionsTest.java:34-43 | Inserting 15 at index 1 of 10, 20, 30 succeeds and gives 10, 15, 20, 30. |
| `Scenarios.RemoveAndSetScenario` | src/test/java/ActionsTest/ActionsTest.java:60-94 | Removing index 1 of 10, 20, 30 gives 10, 30. Setting index 1 of 10, 20 to 30 gives 10, 30. |
| `Scenarios.OutOfRangeScenario` | src/test/java/ActionsTest/ActionsTest.java:49-105 | On the list 10: insert at 2, remove at 1 and set at 1 all throw IndexOutOfBounds and leave 10 in place. `get(0)` on an empty list throws too (src/test/java/ArrayTest/MyArrayTest.java:59-62), and capacity -5 throws IllegalArgument (src/test/java/ArrayTest/MyArrayTest.java:39-41). |
| `Scenarios.RawSlotScenario` | src/test/java/ArrayTest/MyArrayTest.java:47-78 | Two raw writes plus `upSize` calls, then `resize`, give size 2 and capacity 4. A raw-written slot 10 reads back through `get`. |
| `Scenarios.ZeroCapacityAsWritten` | src/main/java/actions/Actions.java:23-29 | Appending to a list of capacity 0 throws ArrayIndexOutOfBounds. The list stays empty with capacity 0. |
| `Scenarios.ZeroCapacityFixed` | src/main/java/actions/Actions.java:23-29 | With corrected growth, the same append gives the list 7 with capacity 1. |

## Left out

- `getRawArray` (MyArrayList.java:65-67) hands out the backing array itself. The model does not expose it to outside writers. A test that writes raw slots and then calls `upSize` is modelled as `SetInternal` followed by `UpSize`.
- Java `int` arithmetic: `elements.length * 2` and `size++` can overflow for lists near 2^31 elements. The model uses unbounded integers.
- The text of an element in `toString` comes from `String.valueOf`. The model takes an element-to-text function as a parameter. A null slot prints as `null`. The scenarios use `Scenarios.Decimal` for `Integer`.
- `Actions.sort` (Actions.java:122-124) only forwards to `QuickSort.sort`, which is modelled as `QuickSort.Sort`.
- `QuickSort.Sort`: requires the `Comparator` contract (a total preorder). With a comparator that breaks that contract, the Java code still terminates and still only rearranges the elements. The model states nothing for that case.
- Comparators over null: `Comparator.naturalOrder()` throws NullPointerException on a null element. `Scenarios.NaturalOrder` orders null first instead. The scenarios never sort a null.
- The sort methods take element types without allocation-dependent values (`T(!new)`), so that the comparator predicates can quantify over all values.
- The unchecked cast `(T) elements[index]` and the generic variance `Comparator<? super T>` have no counterpart: slots and the comparator share one type.
- The ghost parameter `inOrder` of `QuickSort.PartitionScan`, `QuickSort.Partition` and `QuickSort.QuickSortRange` has no Java counterpart and is erased at run time. It only switches on the extra conclusion that a window already in order is left unchanged. `QuickSort.Sort` sets it exactly when the list is sorted, so its own ensures states that conclusion without any condition.
- `QuickSort.Partition`: requires only `low <= high`, whereas Java calls it only when `low < high`. The model proves it for the wider range.
- The capacity constructor is split into `MyArrayList.WithCapacity`, for a non-negative capacity, and `NewWithCapacity`, which performs the sign check. A Dafny constructor cannot fail.
- Recursion depth: the Java recursion can exhaust the stack on large, adversarial inputs. The model has no stack.
- The printing in `Main.java` and the one-million-append performance test (MyArrayTest.java:101-109) are not modelled.

## Findings

| source | as written | input that shows it | evidently intended | confidence | as-written member | corrected member |
|---|---|---|---|---|---|---|
| src/main/java/actions/Actions.java:47-51 | insert-at reads the backing array into a local before `resize`, then shifts within that stale array, whose length equals `size` | capacity 5 holding 10, 20, 30, 40, 50, then insert 25 at index 2 (src/main/java/Main.java:12-25): `arraycopy` throws ArrayIndexOutOfBounds after the capacity has already doubled | shift within the resized array, so the insert succeeds | high; not executed | `Scenarios.FullInsertAsWritten` | `Actions.InsertFixed` |
| src/main/java/array/MyArrayList.java:86 | growth doubles the length, and doubling 0 gives 0 | `new MyArrayList<>(0)` followed by `add(list, 7)`: the store into slot 0 throws ArrayIndexOutOfBounds | the first growth of an empty array gives at least one slot | high; not executed | `Scenarios.ZeroCapacityAsWritten` | `Actions.AppendFixed` |
