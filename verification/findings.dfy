/** Places where the list's searches do not do what a list search is meant
    to do: the linear scan's range, the binary search's range, and the
    resulting disagreement between the two on a sorted list. Each is shown
    on a concrete list, next to the corrected search whose intended property
    is proved for all inputs. */
module Findings {
  import opened Errors
  import opened ListHelper

  /** The default equality on integers. */
  function IntEquals(x: int, y: int): bool
  {
    x == y
  }

  /** The default ordering on integers. */
  function IntOrder(x: int, y: int): int
  {
    if x < y then -1 else if x > y then 1 else 0
  }

  // ---------------------------------------------------------------------
  // IndexOf scans the backing array over [0, Length - 1)
  // ---------------------------------------------------------------------

  /** On a full backing array `[7, 8, 9]` the scan stops before the last
      slot, so the live element 9 is not found; the live-range scan finds
      it at 2. */
  lemma IndexOfMissesLastSlot()
    ensures IndexOfIn([7, 8, 9][..ScanEnd(3)], 9, IntEquals) == -1
    ensures IndexOfIn([7, 8, 9][..3], 9, IntEquals) == 2
  {
    assert [7, 8, 9][..ScanEnd(3)] == [7, 8];
    assert [7, 8, 9][..3] == [7, 8, 9];
  }

  /** With one live element over the backing array `[7, 8, 9]`, the scan
      reports the stale slot 1 for 8, an index past the count; the
      live-range scan reports -1. */
  lemma IndexOfSeesStaleSlot()
    ensures IndexOfIn([7, 8, 9][..ScanEnd(3)], 8, IntEquals) == 1
    ensures IndexOfIn([7, 8, 9][..1], 8, IntEquals) == -1
  {
    assert [7, 8, 9][..ScanEnd(3)] == [7, 8];
    assert [7, 8, 9][..1] == [7];
  }

  /** The corrected scan finds exactly the live elements, in particular the
      one in the last slot of a full array. */
  method LiveScanFindsLastElement() returns (index: int)
    ensures index == 2
  {
    var a := new int[3];
    a[0], a[1], a[2] := 7, 8, 9;
    assert a[..3] == [7, 8, 9];
    index := IndexOfLive(a, 3, 9, IntEquals);
    IndexOfMissesLastSlot();
  }

  // ---------------------------------------------------------------------
  // BinarySearch runs over [0, Count] inclusive
  // ---------------------------------------------------------------------

  /** On a full backing array `[1, 2]`, searching for 5 narrows to the probe
      of slot 2, which is out of range: the search fails with
      ArgumentException. */
  lemma SearchToCountFails()
    ensures Search([1, 2], 5, IntOrder, 0, 2) == Err(Argument)
  {
  }

  /** Over the live range of the same list the search answers `~2`: 5 would
      go at the end. */
  lemma SearchLiveAnswersEnd()
    ensures Search([1, 2], 5, IntOrder, 0, 1) == Ok(-3)
  {
  }

  /** With live elements `[1, 2]` over the backing array `[1, 2, 5]` (a
      stale 5 left past the count), the search for 5 reports slot 2, which
      is not a live index. */
  lemma SearchToCountFindsStale()
    ensures Search([1, 2, 5], 5, IntOrder, 0, 2) == Ok(2)
  {
  }

  // ---------------------------------------------------------------------
  // The two searches disagree after a sort
  // ---------------------------------------------------------------------

  /** On the sorted, full backing array `[7, 8, 9]` the binary search as
      written finds 9 at slot 2, while the linear scan as written reports
      it absent; the corrected pair agrees by
      `ListHelper.SortedSearchAgreesWithScan`. */
  lemma SearchAndScanDisagree()
    ensures Search([7, 8, 9], 9, IntOrder, 0, 3) == Ok(2)
    ensures IndexOfIn([7, 8, 9][..ScanEnd(3)], 9, IntEquals) == -1
  {
    assert [7, 8, 9][..ScanEnd(3)] == [7, 8];
  }
}

/** The findings shown on the list itself. */
module FindingsOnList {
  import opened Errors
  import opened ListHelper
  import opened CustomCollections
  import opened Findings

  /** The traits of `int`: default value 0, the default equality and
      ordering. */
  function IntTraits(): (t: ElementTraits<int>)
    ensures t.defaultValue == 0 && t.equals == IntEquals && t.compare == IntOrder
  {
    ElementTraits(0, IntEquals, IntOrder)
  }

  /** `IndexOf` on the list itself: a list of capacity 3 holding 7, 8, 9
      answers -1 for `IndexOf(9)` and `false` for `Contains(9)`. */
  method FullListMissesLastElement() returns (index: int, found: bool)
    ensures index == -1 && !found
  {
    var list := new CustomList<int>.WithCapacity(IntTraits(), 3);
    list.Add(7);
    list.Add(8);
    list.Add(9);
    assert list.items[..] == [7, 8, 9];
    assert list.Scanned() == [7, 8];
    index := list.IndexOf(9);
    found := list.Contains(9);
  }

  /** `BinarySearch` on the list itself: a full list of capacity 2 holding
      1 and 2 fails the search for 5. */
  method FullListSearchFails() returns (r: Result<int>)
    ensures r == Err(Argument)
  {
    var list := new CustomList<int>.WithCapacity(IntTraits(), 2);
    list.Add(1);
    list.Add(2);
    assert list.items[..] == [1, 2];
    r := list.BinarySearch(5, None);
    SearchToCountFails();
  }

  /** The disagreement on the list itself: a list of capacity 3 holding the
      sorted elements 7, 8, 9 answers 2 to `BinarySearch(9)` and -1 to
      `IndexOf(9)`. */
  method SortedListSearchesDisagree() returns (r: Result<int>, index: int)
    ensures r == Ok(2) && index == -1
  {
    var list := new CustomList<int>.WithCapacity(IntTraits(), 3);
    list.Add(7);
    list.Add(8);
    list.Add(9);
    assert list.items[..] == [7, 8, 9];
    r := list.BinarySearch(9, None);
    index := list.IndexOf(9);
    SearchAndScanDisagree();
  }
}
