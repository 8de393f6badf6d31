# CustomList in Dafny

This project models `CustomList<T>`, a generic growable array list. The
list keeps its elements in a backing array `_items`. Only the first `_size`
slots are live. The model covers the list's public operations and the
private static helpers they delegate to:

- `ListHelper.Copy`, an overlap-aware copy between arrays
- `ListHelper.Clear`, which resets a range
- `ListHelper.IndexOf`, a linear scan
- `ListHelper.BinarySearch`
- `ListHelper.Sort`, the entry point to the library sort
- `FuncToComparer`, which adapts a comparison delegate

The Dafny modules follow the program's structure:

- `Errors` (`errors.dfy`): the exceptions the list throws, as values (`Error`), and the `Result`/`Outcome` wrappers that carry them.
- `ListHelper` (`list_helper.dfy`): the static helpers, imperative over `array`. Each one is proved against a specification function: `Moved` for copies, `IndexOfIn` for the scan, `Search` for the binary search, `SortSeq`/`SortedBy` for the sort.
- `CustomCollections` (`custom_list.dfy`): the class `CustomList`, plus the capacity growth rule as functions.
  - The class has fields `items: array<T>` and `size: int`.
  - `Valid()` is `0 <= size <= items.Length`.
  - `Contents()` is `items[..size]`.
  - Every method states its whole new state. That covers the live elements, the capacity, whether the backing array was replaced, and what the slots past the count hold (`TailKept`).
- `Clients` (`clients.dfy`): operations paired with their partners. These are the getter after the setter, `RemoveAt` after `Insert`, and `AddRange` against one-by-one appends.
- `Findings` and `FindingsOnList` (`findings.dfy`): the defects described under "## Findings", each shown on a concrete list.

The element type's `default(T)`, `EqualityComparer<T>.Default` and
`Comparer<T>.Default` are passed in as an `ElementTraits` value. Each list
holds one, and it never changes. Comparers are total functions returning an
`int`. A sort or a search is proved correct under a comparer that keeps the
`ValidComparer` contract (antisymmetric and transitive).

The model follows the code. In these places the code does not do what an
array list's usual contract promises, and the model does what the code does:

- The collection constructor (`CustomList(IEnumerable<T>)` given an `ICollection<T>`) copies the elements into the backing array but never sets `_size`. The new list therefore has `Count == 0` (`CustomList.FromCollection`).
- `IndexOf`, `Contains` and `Remove` scan the backing array over `[0, Length - 1)`. They do not scan the live range `[0, Count)`.
- `BinarySearch` searches `[0, Count]` with both bounds inclusive, not `[0, Count)`.
- `InsertRange` with an enumeration that is not an `ICollection<T>` discards the current contents and the index. The list becomes exactly that enumeration.
- `Sort(Comparison<T>)` given null first sorts with the default ordering. It then falls through to a second sort through an adapter around the null delegate. That sort fails with `ArgumentException` once two elements are compared.
- The indexer and `Insert` throw `ArgumentOutOfRangeException`, not `IndexOutOfRangeException`. So does the capacity setter when the value is below the count.
- `InsertRange` checks for a null source before it checks the index.
- A self-insertion (`InsertRange(i, this)`) shifts the tail right, then copies the front part and the shifted tail into the gap. `CustomList.InsertSelf` proves that the result is the original contents with a copy of themselves inserted at `i`.

## Model

| member | source | states |
|---|---|---|
| ListHelper.CopyChecks | CustomListSolution/CustomList.cs:435-444 | The copy is allowed exactly when the length and both indices are non-negative and both windows fit their arrays. A negative length or index is ArgumentOutOfRange; a window past an array's end is IndexOutOfRange, and no other error is returned. |
| ListHelper.Copy | CustomListSolution/CustomList.cs:429-465 | Every check is made before the first write, so on failure the destination is unchanged. On success the window `[di, di+n)` holds the source's original `src[si..si+n)` and every other slot is as before. This holds when source and destination are the same array, in either overlap direction. |
| ListHelper.CopyForward | CustomListSolution/CustomList.cs:463-464 | The ascending loop delivers the original source window. This includes the same-array case where the source lies after the destination. |
| ListHelper.CopyBackward | CustomListSolution/CustomList.cs:455-460 | Within one array, with the source before the destination, the descending loop delivers the original source window even though the two overlap. |
| ListHelper.Clear | CustomListSolution/CustomList.cs:493-506 | It succeeds exactly when `startIndex >= 0` and `endIndex <= Length`. Otherwise the error is ArgumentOutOfRange or IndexOutOfRange, in the code's order. Exactly the slots in `[startIndex, endIndex)` become the default value; all others keep their values. |
| ListHelper.IndexOfIn | CustomListSolution/CustomList.cs:484-489 | The lowest index whose element is equal to the item, with no equal element before it, or -1 exactly when no element is equal. |
| ListHelper.ScanEnd | CustomListSolution/CustomList.cs:472-473 | The scan stops before the upper bound `Length - 1`, so it covers all slots but the last one (none for an empty array). |
| ListHelper.IndexOf | CustomListSolution/CustomList.cs:467-491 | As written: the result is the first match within `a[..Length-1]`, or -1. |
| ListHelper.IndexOfLive | CustomListSolution/CustomList.cs:467-491 | Corrected scan over the live range `[0, count)`: it returns the first index whose element is equal to the item, or -1 exactly when none is. |
| ListHelper.Resolve | CustomListSolution/CustomList.cs:513-522 | The comparer in force is the given one, or the default ordering when none is given. |
| ListHelper.Mid | CustomListSolution/CustomList.cs:532 | The probe `lo + ((hi - lo) >> 1)` always lies within `[lo, hi]`. |
| ListHelper.Search | CustomListSolution/CustomList.cs:530-554 | The reference for the search loop over inclusive bounds, written as a recursion: probe the midpoint, answer on a tie, otherwise narrow and repeat, and answer `~lo` once the bounds cross. Its one stated property is that the only failure, a probe outside the array, is ArgumentException. `SearchSound`, `SearchInBounds` and `SearchLocates` state the rest. |
| ListHelper.SearchSound | CustomListSolution/CustomList.cs:530-554 | For any contents: a non-negative answer is a slot within the bounds that compares equal to the value; a negative answer is `~p` for some `p` in `[lo, hi+1]`; a failure is always ArgumentException. |
| ListHelper.SearchInBounds | CustomListSolution/CustomList.cs:530-541 | While the upper bound lies inside the array, no probe falls outside it, so the search never fails. |
| ListHelper.SearchLocates | CustomListSolution/CustomList.cs:530-554 | On a partitioned range, if everything below `lo` compares less than the value and everything above `hi` compares greater, the search returns a matching slot, or the complement of the exact insertion point. |
| ListHelper.SearchLiveCorrect | CustomListSolution/CustomList.cs:524-554 | A search over `[0, count-1]` of a partitioned live range always succeeds, and its answer is correct in the sense of `Located`. |
| ListHelper.BinarySearch | CustomListSolution/CustomList.cs:508-555 | As written, with `hi = count` inclusive. `count < startIndex` is InvalidOperation. Otherwise the result is the `Search` over `[startIndex, count]`. A hit compares equal, lies within `[startIndex, count]` and inside the array. When `count < Length` the search never fails. |
| ListHelper.BinarySearchLive | CustomListSolution/CustomList.cs:524-554 | Corrected search over `[0, count-1]`. It never fails. A hit is a live slot that compares equal; a miss is the complement of a point in `[0, count]`. |
| ListHelper.SortedIsPartitioned | CustomListSolution/CustomList.cs:508-555 | A range sorted under a valid comparer is partitioned around every value. Together with `SearchLiveCorrect`, a search over a sorted live range is correct. |
| ListHelper.SortedSearchAgreesWithScan | CustomListSolution/CustomList.cs:467-555 | On a live range sorted under a valid comparer whose ties are exactly the equal elements, the corrected binary search never fails. It finds a slot exactly when the corrected linear scan finds the value. |
| ListHelper.AscendingIsSorted | CustomListSolution/CustomList.cs:563 | Under a transitive comparer, ascending neighbours give a fully sorted sequence. |
| ListHelper.InsertSorted | CustomListSolution/CustomList.cs:563 | Insertion into a run adds exactly one copy of the element (a multiset equality). |
| ListHelper.SortSeq | CustomListSolution/CustomList.cs:563 | The stand-in for the library sort returns a permutation of its input. |
| ListHelper.InsertSortedAscending | CustomListSolution/CustomList.cs:563 | Under an antisymmetric comparer, insertion keeps a run ascending. |
| ListHelper.SortSeqAscending | CustomListSolution/CustomList.cs:563 | Under an antisymmetric comparer, the stand-in sort's output is ascending. |
| ListHelper.SortSeqSorted | CustomListSolution/CustomList.cs:563 | Under a valid comparer, the stand-in sort's output is sorted. |
| ListHelper.Sort | CustomListSolution/CustomList.cs:557-569 | A negative index or count is ArgumentOutOfRange; a range past the end is ArgumentException; on failure nothing changes. On success the range is a permutation of itself, sorted under a valid comparer, and the slots outside the range are unchanged. |
| ListHelper.MovedSlices | CustomListSolution/CustomList.cs:446-464 | A completed copy, read as slices: the prefix before the window, the window (equal to the source window) and the suffix after it. |
| ListHelper.FuncToComparer | CustomListSolution/CustomList.cs:571-584 | The adapter compares exactly as the delegate it wraps, for every pair. |
| CustomCollections.GrowthTarget | CustomListSolution/CustomList.cs:420-422 | The new capacity is at least `min` and above the old one. It is the default capacity 4 for an empty array when that suffices, and otherwise double the old one when that suffices and does not exceed 0x7FEFFFFF. It is 0x7FEFFFFF when doubling would exceed that, and `min` itself when `min` exceeds it or exceeds the doubled (or default) capacity. |
| CustomCollections.EnsuredCapacity | CustomListSolution/CustomList.cs:416-425 | The capacity after `EnsureCapacity(min)` is at least `min` and never shrinks. It is unchanged when there is already room, and the growth target otherwise. |
| CustomCollections.CapacityAfterAdds | CustomListSolution/CustomList.cs:145-149 | After `n` single appends the capacity holds all `count + n` elements and is not below the starting capacity. |
| CustomCollections.CapacityAfterAddsBound | CustomListSolution/CustomList.cs:416-425 | After any number of single appends the capacity is at most the largest of three values: the starting capacity, the default capacity, and twice the final count. The growth rule never over-allocates by more than double. |
| CustomCollections.InsertedThenRemoved | CustomListSolution/CustomList.cs:238-253 | Inserting an item at `index` puts it at `index` and lengthens the sequence by one. Removing at `index` then restores the original sequence. |
| CustomCollections.CustomList.constructor | CustomListSolution/CustomList.cs:22-25 | An empty list over a zero-length backing array. |
| CustomCollections.CustomList.WithCapacity | CustomListSolution/CustomList.cs:27-33 | An empty list whose backing array holds `capacity` default values. |
| CustomCollections.CustomList.FromCollection | CustomListSolution/CustomList.cs:35-50 | The backing array is exactly the collection's elements, but the count stays 0, so the list is empty. |
| CustomCollections.CustomList.FromEnumeration | CustomListSolution/CustomList.cs:51-60 | The live elements are exactly the enumeration. The capacity is what that many appends to an empty list produce, and the unused slots hold the default value. |
| CustomCollections.CustomList.Count | CustomListSolution/CustomList.cs:96-99 | The count is the number of live elements. |
| CustomCollections.CustomList.Capacity | CustomListSolution/CustomList.cs:66-71 | The capacity is never below the count. |
| CustomCollections.CustomList.SetCapacity | CustomListSolution/CustomList.cs:72-93 | A value below the count is ArgumentOutOfRange and changes nothing. Otherwise the capacity becomes exactly `value` and the live elements are kept in order. The backing array is kept when the value equals the current length, and is a fresh one otherwise. The unused slots of a fresh array hold the default value. |
| CustomCollections.CustomList.EnsureCapacity | CustomListSolution/CustomList.cs:416-425 | The live elements are kept. The new capacity is `EnsuredCapacity(old capacity, min)`. The backing array is replaced only when it was too small. |
| CustomCollections.CustomList.TrimExcess | CustomListSolution/CustomList.cs:411-414 | The live elements are kept, and the capacity becomes exactly the count. The backing array is kept when the count already equals the capacity, and is a fresh one otherwise. |
| CustomCollections.CustomList.Get | CustomListSolution/CustomList.cs:108-115 | It returns the live element at `index` exactly when `0 <= index < Count`, and ArgumentOutOfRange otherwise. |
| CustomCollections.CustomList.Set | CustomListSolution/CustomList.cs:116-123 | A valid index changes that one slot; an invalid index is ArgumentOutOfRange and changes nothing. |
| CustomCollections.CustomList.Add | CustomListSolution/CustomList.cs:145-149 | The live elements become the old ones followed by the item. The capacity follows the growth rule for `Count + 1`. The array is replaced only when it was full. |
| CustomCollections.CustomList.AppendAll | CustomListSolution/CustomList.cs:299-302 | Appending a sequence one element at a time extends the live elements by that sequence. The capacity is `CapacityAfterAdds`. The backing array is kept when the sequence fits the old capacity, and is a fresh one when it does not. |
| CustomCollections.CustomList.Insert | CustomListSolution/CustomList.cs:238-254 | It succeeds exactly for `0 <= index <= Count`. The item then lands at `index`, with the old elements before it and after it kept in order. Otherwise it is ArgumentOutOfRange with no change. The capacity follows the growth rule for `Count + 1`. |
| CustomCollections.CustomList.InsertRange | CustomListSolution/CustomList.cs:256-304 | A null source is ArgumentNull; otherwise an index outside `[0, Count]` is ArgumentOutOfRange. Another collection is spliced in at `index`. The list itself is spliced in as its own old contents. In both cases the capacity follows the growth rule, and the backing array is kept exactly when it already had room. Any other enumeration replaces the whole contents and the array. A failure changes nothing. |
| CustomCollections.CustomList.InsertCollection | CustomListSolution/CustomList.cs:268-292 | The live elements become the old prefix, then the collection, then the old suffix. Room is made once, for `Count` plus the collection's length elements. The backing array is kept exactly when it already had that room, and is fresh otherwise. |
| CustomCollections.CustomList.InsertSelf | CustomListSolution/CustomList.cs:268-292 | A self-insertion yields the old prefix, then the old contents in full, then the old suffix. No overlapping copy corrupts the data. Room is made for `2 * Count` elements, and the backing array is kept exactly when it already had that room. |
| CustomCollections.CustomList.AddRange | CustomListSolution/CustomList.cs:151-154 | A collection is appended, and the list itself is appended as a copy of its old contents. In both cases the capacity follows the growth rule, and the backing array is kept exactly when it already had room. An enumeration replaces the contents, with the capacity of that many appends to an empty list. A null source is ArgumentNull with no change. |
| CustomCollections.CustomList.RemoveAt | CustomListSolution/CustomList.cs:338-353 | It succeeds exactly for `0 <= index < Count`. The count then drops by one and the live elements are the old ones without the one at `index`. The vacated slot holds the default value, and the slots past it are kept. Otherwise it is ArgumentOutOfRange with no change. |
| CustomCollections.CustomList.Remove | CustomListSolution/CustomList.cs:326-336 | If the scan finds no match, the result is false and nothing changes. If the match is live, the result is true and that element is removed as by `RemoveAt`. If the match lies past the count, the result is ArgumentOutOfRange and nothing changes. |
| CustomCollections.CustomList.Clear | CustomListSolution/CustomList.cs:206-213 | The count becomes 0 and the backing array is kept. The previously live slots hold the default value and the slots past them are unchanged. |
| CustomCollections.CustomList.IndexOf | CustomListSolution/CustomList.cs:233-236 | The first match among all backing slots but the last, or -1. |
| CustomCollections.CustomList.Contains | CustomListSolution/CustomList.cs:215-221 | True exactly when some slot before the last backing slot holds an equal element. |
| CustomCollections.CustomList.BinarySearch | CustomListSolution/CustomList.cs:156-204 | The result is the search over `[0, Count]`. A hit compares equal. The search fails (ArgumentException) only when the list is full. When the list is not full and the range `[0, Count]` is partitioned, the answer is correct. |
| CustomCollections.CustomList.Sort | CustomListSolution/CustomList.cs:355-379 | The live elements are permuted, and sorted when the comparer in force is valid. The slots past the count are untouched. |
| CustomCollections.CustomList.SortComparison | CustomListSolution/CustomList.cs:381-397 | With a delegate: a permutation, sorted when the delegate is valid. With null: the live elements are sorted by the default ordering, then ArgumentException once `Count >= 2`. |
| CustomCollections.CustomList.CopyTo | CustomListSolution/CustomList.cs:228-231 | It succeeds exactly when the live elements fit from `arrayIndex` on. The destination then holds its old prefix, then the live elements, then its old suffix. Otherwise the error is ArgumentOutOfRange or IndexOutOfRange, and the destination is unchanged. |
| CustomCollections.CustomList.CopyToArray | CustomListSolution/CustomList.cs:223-226 | It succeeds exactly when the destination is at least `Count` long. The destination then starts with the live elements. |
| CustomCollections.CustomList.ToArray | CustomListSolution/CustomList.cs:399-404 | A fresh array whose contents are exactly the live elements. |
| CustomCollections.CustomList.GetEnumerator | CustomListSolution/CustomList.cs:306-319 | The enumeration yields exactly the live elements, in order. |
| CustomCollections.Splice | CustomListSolution/CustomList.cs:274-290 | The array steps of inserting a collection: the first `n` plus the collection's length slots become prefix, collection, suffix, and the later slots are unchanged. |
| CustomCollections.SpliceOne | CustomListSolution/CustomList.cs:247-252 | The array steps of `Insert`: the first `n + 1` slots become prefix, item, suffix, and the later slots are unchanged. |
| CustomCollections.SpliceSelf | CustomListSolution/CustomList.cs:274-284 | The three overlapping copies of a self-insertion leave prefix, the whole old live range and suffix in the first `2n` slots. The later slots are unchanged. |
| CustomCollections.NewArray | CustomListSolution/CustomList.cs:81 | A new array of `n` slots is fresh and every slot holds the element type's default value. |
| CustomCollections.NewArrayOf | CustomListSolution/CustomList.cs:287-288 | The temporary array for a collection's elements is fresh and holds exactly those elements. |
| CustomCollections.MoveWithin | CustomListSolution/CustomList.cs:446-460 | A same-array copy that passes the checks moves the original window, whatever the overlap. |
| Clients.SetThenGet | CustomListSolution/CustomList.cs:106-124 | Reading an index just written returns the written value. An index outside the live range is ArgumentOutOfRange for both accessors. |
| Clients.AddThenGetLast | CustomListSolution/CustomList.cs:145-149 | After `Add(item)` the last live element is `item`. |
| Clients.InsertThenRemoveAt | CustomListSolution/CustomList.cs:338-353 | `Insert(i, x)` followed by `RemoveAt(i)` leaves the live elements as they were. |
| Clients.AddRangeAsAppends | CustomListSolution/CustomList.cs:151-154 | `AddRange` of a collection gives the same live elements as appending its elements one by one. |
| Clients.SnapshotSurvivesTrim | CustomListSolution/CustomList.cs:411-414 | A copy taken with `ToArray` keeps its elements after `TrimExcess` and a write through the indexer. The list ends with capacity equal to its count and the written value in slot 0. |
| Clients.InsertEmptyChangesNothing | CustomListSolution/CustomList.cs:268-293 | Inserting an empty collection at a valid index keeps the backing array, all of its slots and the count. |
| Findings.IndexOfMissesLastSlot | CustomListSolution/CustomList.cs:472-489 | On the full array `[7, 8, 9]` the scan as written misses 9; the live-range scan finds it at 2. |
| Findings.IndexOfSeesStaleSlot | CustomListSolution/CustomList.cs:472-489 | With one live element over `[7, 8, 9]`, the scan as written reports the stale slot 1 for 8; the live-range scan reports -1. |
| Findings.LiveScanFindsLastElement | CustomListSolution/CustomList.cs:467-491 | The corrected scan finds 9 at index 2 in the full array `[7, 8, 9]`. |
| Findings.SearchToCountFails | CustomListSolution/CustomList.cs:524-536 | A search for 5 in the full array `[1, 2]`, over `[0, 2]`, probes slot 2 and fails with ArgumentException. |
| Findings.SearchLiveAnswersEnd | CustomListSolution/CustomList.cs:524-554 | The same search over the live range `[0, 1]` answers `~2`, the insertion point at the end. |
| Findings.SearchToCountFindsStale | CustomListSolution/CustomList.cs:524-543 | With live `[1, 2]` over `[1, 2, 5]`, the search for 5 reports slot 2, which is not a live index. |
| Findings.SearchAndScanDisagree | CustomListSolution/CustomList.cs:472-554 | On the sorted full array `[7, 8, 9]`, the binary search as written finds 9 at slot 2, while the scan as written reports it absent. |
| FindingsOnList.FullListMissesLastElement | CustomListSolution/CustomList.cs:215-236 | A list of capacity 3 holding 7, 8, 9 answers -1 to `IndexOf(9)` and false to `Contains(9)`. |
| FindingsOnList.SortedListSearchesDisagree | CustomListSolution/CustomList.cs:156-236 | A list of capacity 3 holding the sorted 7, 8, 9 answers 2 to `BinarySearch(9)` and -1 to `IndexOf(9)`. |
| FindingsOnList.FullListSearchFails | CustomListSolution/CustomList.cs:156-169 | A full list of capacity 2 holding 1, 2 fails `BinarySearch(5)` with ArgumentException. |

## Left out

- `SynchronizedList`, the `Synchronized` property and `SyncRoot`: locking and concurrency are not modelled.
- The demonstration program `Program.cs` is not part of this model.
- `ToString` and `IsReadOnly`: formatting and a constant, with nothing to prove.
- Message texts of exceptions, and the re-wrapping of an `ArgumentException` into a new one: both are modelled as the same `Error` value.
- `Array.Sort` internals are stood in for by an insertion sort (`SortSeq`). The model keeps the library's range checks and its promise: a permutation, sorted under a consistent comparer.
- ListHelper.Sort, CustomCollections.CustomList.Sort and CustomCollections.CustomList.SortComparison: a comparer or comparison delegate that throws, and the default comparer failing for a type without an ordering, are not modelled. Comparers are total functions, so the `InvalidOperationException`-to-`ArgumentException` path of `Sort` is not modelled; the out-of-range probe of `BinarySearch` is. A comparer that does not throw but is inconsistent (for example, one that does not return 0 for an element compared with itself) may also make the library sort throw ArgumentException on some runtimes. These members promise `Pass` for every comparer, whereas for such a comparer the source may throw instead.
- `EqualityComparer<T>.Default`, `Comparer<T>.Default` and `default(T)` are parameters (`ElementTraits`). The null-item branch of `IndexOf` is folded into the equality, because the default equality matches null only with null.
- Null arrays: `Copy`, `Clear`, `IndexOf`, `BinarySearch`, `Sort` and `CopyTo` given a null array, and the constructor given a null collection. Dafny arrays are never null, so these paths are not modelled.
- CustomCollections.CustomList.WithCapacity: requires `capacity >= 0`. A negative capacity would make `new T[capacity]` throw `OverflowException`, and that path is not modelled.
- 32-bit arithmetic: counts and capacities are unbounded integers. The overflow of `_items.Length * 2` and of `_size + count` is not modelled. The clamp to 0x7FEFFFFF is.
- The shared static empty array is modelled as a fresh zero-length array, so the identity shared between lists is not captured.
- CustomCollections.CustomList.InsertRange and CustomCollections.CustomList.AddRange take an enumeration as a sequence fixed before the call. (`FromEnumeration` does too, but there the list does not exist yet and cannot be read.) In the code, `InsertRange` resets the list to the empty array before it enumerates. A lazy enumeration that reads this same list (such as `list.Where(...)`) therefore sees an empty list, and the list ends up empty. That aliasing is not captured: the model says the list becomes the enumeration's elements as they were before the call.
- The enumerator is modelled as the sequence it yields. Its laziness, and the effect of changing the list while enumerating, are not captured.
- The `BinarySearch(T, Comparison<T>)` overload is folded into `CustomList.BinarySearch` with an optional comparer. A null comparison takes the default ordering, and a non-null one is wrapped by `FuncToComparer`, which compares identically.
- `ListHelper.BinarySearch` with a negative `startIndex` is modelled through `Search`, but the list only ever passes 0.

## Findings

| source | as written | input that shows it | evidently intended | confidence | as-written member | corrected member |
|---|---|---|---|---|---|---|
| CustomListSolution/CustomList.cs:472-489 | `IndexOf` scans the backing array over `[GetLowerBound, GetUpperBound)`, that is `[0, Length - 1)` | a full list of capacity 3 holding 7, 8, 9: `IndexOf(9)` is -1 and `Contains(9)` is false; with one live element 7 over `[7, 8, 9]`, `IndexOf(8)` is 1 | scan the live elements `[0, Count)` | not executed | ListHelper.IndexOf (shown by Findings.IndexOfMissesLastSlot) | ListHelper.IndexOfLive |
| CustomListSolution/CustomList.cs:524-536 | `BinarySearch` starts with `hi = count` and treats it as inclusive | a full list of capacity 2 holding 1, 2: `BinarySearch(5)` probes slot 2 and throws ArgumentException; live `[1, 2]` over `[1, 2, 5]` returns 2 for 5 | search `[0, Count - 1]`, returning a live hit or the complement of the insertion point | not executed | ListHelper.BinarySearch (shown by Findings.SearchToCountFails) | ListHelper.BinarySearchLive (proved by ListHelper.SearchLiveCorrect) |
| CustomListSolution/CustomList.cs:472-554 | After a sort, `BinarySearch` and `IndexOf` can disagree on presence, because each covers a different wrong range | a full list of capacity 3 holding the sorted 7, 8, 9: `BinarySearch(9)` is 2 while `IndexOf(9)` is -1 | on a sorted list both report the same presence | not executed | ListHelper.BinarySearch and ListHelper.IndexOf (shown by Findings.SearchAndScanDisagree) | ListHelper.BinarySearchLive and ListHelper.IndexOfLive (proved by ListHelper.SortedSearchAgreesWithScan) |
