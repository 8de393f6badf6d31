/** The list's private static helpers: an overlap-aware copy between arrays,
    a range reset, a linear scan, a binary search, the sort entry point and
    the adapter that turns a comparison delegate into a comparer.

    The equality and ordering of the element type (`EqualityComparer<T>.Default`
    and `Comparer<T>.Default`) are parameters here. A comparer is a total
    function returning a negative number, zero or a positive number. */
module ListHelper {
  import opened Errors

  // ---------------------------------------------------------------------
  // Copy
  // ---------------------------------------------------------------------

  /** `d` is what a destination holding `d0` holds after `n` elements
      starting at `src[si]` have been written over it starting at `d0[di]`:
      the window `[di, di + n)` comes from the source, every other slot is
      unchanged. */
  ghost predicate Moved<T>(d: seq<T>, src: seq<T>, si: int, d0: seq<T>, di: int, n: int)
  {
    && |d| == |d0|
    && 0 <= n && 0 <= si && si + n <= |src| && 0 <= di && di + n <= |d0|
    && forall k {:trigger d[k]} :: 0 <= k < |d| ==> d[k] == if di <= k < di + n then src[si + (k - di)] else d0[k]
  }

  /** The argument checks of `Copy`, in the order the code makes them. */
  function CopyChecks(srcLength: int, si: int, dstLength: int, di: int, n: int): (o: Outcome)
    ensures o.Pass? <==> 0 <= n && 0 <= si && 0 <= di && si + n <= srcLength && di + n <= dstLength
    ensures o.Fail? && o.error == ArgumentOutOfRange <==> n < 0 || si < 0 || di < 0
    ensures o.Fail? && o.error != ArgumentOutOfRange ==> o.error == IndexOutOfRange
  {
    if n < 0 then Fail(ArgumentOutOfRange)
    else if si < 0 then Fail(ArgumentOutOfRange)
    else if di < 0 then Fail(ArgumentOutOfRange)
    else if si + n > srcLength then Fail(IndexOutOfRange)
    else if di + n > dstLength then Fail(IndexOutOfRange)
    else Pass
  }

  /** Copies `n` elements from `src[si..]` to `dst[di..]`. When both are the
      same array the direction is chosen so that no element is read after it
      has been overwritten: forwards when the source lies after the
      destination, backwards when it lies before, not at all when they
      coincide. Every check is made before the first write. */
  method Copy<T>(src: array<T>, si: int, dst: array<T>, di: int, n: int) returns (o: Outcome)
    modifies dst
    ensures o == CopyChecks(src.Length, si, dst.Length, di, n)
    ensures o.Fail? ==> dst[..] == old(dst[..])
    ensures o.Pass? ==> Moved(dst[..], old(src[..]), si, old(dst[..]), di, n)
  {
    o := CopyChecks(src.Length, si, dst.Length, di, n);
    if o.Fail? {
      return;
    }
    if dst == src {
      if si == di {
        return;
      }
      if si > di {
        CopyForward(src, si, dst, di, n);
        return;
      } else {
        CopyBackward(dst, si, di, n);
        return;
      }
    }
    CopyForward(src, si, dst, di, n);
  }

  /** The ascending copy loop, safe unless the source overlaps the
      destination from below. */
  method CopyForward<T>(src: array<T>, si: int, dst: array<T>, di: int, n: int)
    requires 0 <= n && 0 <= si && si + n <= src.Length && 0 <= di && di + n <= dst.Length
    requires src == dst ==> si > di
    modifies dst
    ensures Moved(dst[..], old(src[..]), si, old(dst[..]), di, n)
  {
    ghost var s0, d0 := src[..], dst[..];
    var i := 0;
    while i < n
      invariant 0 <= i <= n
      invariant src != dst ==> src[..] == s0
      invariant forall k :: 0 <= k < dst.Length ==> dst[k] == if di <= k < di + i then s0[si + (k - di)] else d0[k]
    {
      dst[di + i] := src[si + i];
      i := i + 1;
    }
  }

  /** The descending copy loop within one array, for a source that lies
      before the destination. */
  method CopyBackward<T>(a: array<T>, si: int, di: int, n: int)
    requires 0 <= n && 0 <= si < di && di + n <= a.Length
    modifies a
    ensures Moved(a[..], old(a[..]), si, old(a[..]), di, n)
  {
    ghost var a0 := a[..];
    var i := n - 1;
    while i >= 0
      invariant -1 <= i < n
      invariant forall k {:trigger a[k]} :: 0 <= k < a.Length ==> a[k] == if di + i < k < di + n then a0[si + (k - di)] else a0[k]
    {
      a[di + i] := a[si + i];
      i := i - 1;
    }
  }

  // ---------------------------------------------------------------------
  // Clear
  // ---------------------------------------------------------------------

  /** `n` copies of `x`. */
  function Filled<T>(n: nat, x: T): (r: seq<T>)
    ensures |r| == n && forall k :: 0 <= k < n ==> r[k] == x
  {
    seq(n, _ => x)
  }

  /** Resets the slots `[startIndex, endIndex)` of `a` to the default value
      `dflt`, after checking that the range starts inside the array and does
      not run past its end. An empty or inverted range writes nothing. */
  method Clear<T>(a: array<T>, startIndex: int, endIndex: int, dflt: T) returns (o: Outcome)
    modifies a
    ensures o.Pass? <==> 0 <= startIndex && endIndex <= a.Length
    ensures startIndex < 0 ==> o == Fail(ArgumentOutOfRange)
    ensures 0 <= startIndex && endIndex > a.Length ==> o == Fail(IndexOutOfRange)
    ensures forall k :: 0 <= k < a.Length ==> a[k] == if o.Pass? && startIndex <= k < endIndex then dflt else old(a[k])
  {
    if startIndex < 0 {
      return Fail(ArgumentOutOfRange);
    }
    if endIndex > a.Length {
      return Fail(IndexOutOfRange);
    }
    o := Pass;
    var i := startIndex;
    while i < endIndex
      invariant i == startIndex || startIndex <= i <= endIndex
      invariant forall k :: 0 <= k < a.Length ==> a[k] == if startIndex <= k < i then dflt else old(a[k])
    {
      a[i] := dflt;
      i := i + 1;
    }
  }

  // ---------------------------------------------------------------------
  // IndexOf
  // ---------------------------------------------------------------------

  /** The lowest index of `s` whose element equals `item`, or -1. */
  function IndexOfIn<T>(s: seq<T>, item: T, eq: (T, T) -> bool): (r: int)
    ensures -1 <= r < |s|
    ensures r >= 0 ==> eq(s[r], item) && forall j :: 0 <= j < r ==> !eq(s[j], item)
    ensures r == -1 <==> forall j :: 0 <= j < |s| ==> !eq(s[j], item)
  {
    if |s| == 0 then -1
    else if eq(s[0], item) then 0
    else
      var r := IndexOfIn(s[1..], item, eq);
      assert forall j :: 1 <= j < |s| ==> s[j] == s[1..][j - 1];
      if r == -1 then -1 else r + 1
  }

  /** The end (exclusive) of the slots `IndexOf` examines: the scan runs from
      the array's lower bound 0 up to, but not including, its upper bound
      `Length - 1`, so the last slot is never looked at. */
  function ScanEnd(length: nat): (e: nat)
    ensures length > 0 ==> e == length - 1
    ensures e <= length
  {
    if length == 0 then 0 else length - 1
  }

  /** The linear search as written: it scans the backing array, not the
      live elements, over `[0, Length - 1)`. */
  method IndexOf<T>(a: array<T>, item: T, eq: (T, T) -> bool) returns (r: int)
    ensures r == IndexOfIn(a[..ScanEnd(a.Length)], item, eq)
  {
    var lo := 0;
    var hi := a.Length - 1;
    var i := lo;
    while i < hi
      invariant 0 <= i <= ScanEnd(a.Length)
      invariant forall j :: 0 <= j < i ==> !eq(a[j], item)
    {
      if eq(a[i], item) {
        return i;
      }
      i := i + 1;
    }
    return lo - 1;
  }

  /** The linear search over the live elements `[0, count)` only. */
  method IndexOfLive<T>(a: array<T>, count: int, item: T, eq: (T, T) -> bool) returns (r: int)
    requires 0 <= count <= a.Length
    ensures r == IndexOfIn(a[..count], item, eq)
    ensures -1 <= r < count
    ensures r >= 0 ==> eq(a[r], item)
    ensures r == -1 <==> forall j :: 0 <= j < count ==> !eq(a[j], item)
  {
    var i := 0;
    while i < count
      invariant 0 <= i <= count
      invariant forall j :: 0 <= j < i ==> !eq(a[j], item)
    {
      if eq(a[i], item) {
        return i;
      }
      i := i + 1;
    }
    return -1;
  }

  // ---------------------------------------------------------------------
  // BinarySearch
  // ---------------------------------------------------------------------

  /** The comparer in force: the one given, or the element type's default
      ordering when the given one is null. */
  function Resolve<T>(comparer: Option<(T, T) -> int>, defaultOrder: (T, T) -> int): (cmp: (T, T) -> int)
    ensures comparer.Some? ==> cmp == comparer.value
    ensures comparer.None? ==> cmp == defaultOrder
  {
    if comparer.Some? then comparer.value else defaultOrder
  }

  /** The probe between `lo` and `hi`: `lo + ((hi - lo) >> 1)`, the shift
      being a halving since `hi - lo` is not negative here. */
  function Mid(lo: int, hi: int): (i: int)
    requires lo <= hi
    ensures lo <= i <= hi
  {
    lo + (hi - lo) / 2
  }

  /** The binary search loop over the inclusive bounds `[lo, hi]` of `s`:
      it probes the midpoint, returns it when it compares equal to `value`,
      and otherwise narrows the bounds; when they cross it returns the
      bitwise complement `~lo`. A probe outside the array raises
      IndexOutOfRangeException, which the search re-raises as
      ArgumentException. */
  function Search<T>(s: seq<T>, value: T, cmp: (T, T) -> int, lo: int, hi: int): (r: Result<int>)
    ensures r.Err? ==> r.error == Argument
    decreases hi - lo + 1
  {
    if lo > hi then Ok(-lo - 1)
    else
      var i := Mid(lo, hi);
      if i < 0 || i >= |s| then Err(Argument)
      else
        var order := cmp(s[i], value);
        if order == 0 then Ok(i)
        else if order < 0 then Search(s, value, cmp, i + 1, hi)
        else Search(s, value, cmp, lo, i - 1)
  }

  /** One round of the search loop: the probe, then the answer or the
      narrowed bounds. */
  lemma SearchStep<T>(s: seq<T>, value: T, cmp: (T, T) -> int, lo: int, hi: int)
    requires lo <= hi
    ensures var i := Mid(lo, hi);
            Search(s, value, cmp, lo, hi) ==
              if i < 0 || i >= |s| then Err(Argument)
              else if cmp(s[i], value) == 0 then Ok(i)
              else if cmp(s[i], value) < 0 then Search(s, value, cmp, i + 1, hi)
              else Search(s, value, cmp, lo, i - 1)
  {
  }

  /** Every element of `s[..n]` that compares below `value` precedes every
      one that does not, and every one that compares above it follows every
      one that does not: what the search needs of the range it runs on. */
  ghost predicate Partitioned<T>(s: seq<T>, n: int, value: T, cmp: (T, T) -> int) {
    && 0 <= n <= |s|
    && forall j, k :: 0 <= j < k < n ==>
         (cmp(s[k], value) < 0 ==> cmp(s[j], value) < 0) &&
         (cmp(s[j], value) > 0 ==> cmp(s[k], value) > 0)
  }

  /** `r` is a correct answer of a search for `value` in `s[..n]`: a slot
      that compares equal, or the complement of the insertion point `p`
      with everything before `p` below `value` and everything from `p` on
      above it. */
  ghost predicate Located<T>(s: seq<T>, n: int, value: T, cmp: (T, T) -> int, r: int)
    requires 0 <= n <= |s|
  {
    && (r >= 0 ==> r < n && cmp(s[r], value) == 0)
    && (r < 0 ==>
          && -r - 1 <= n
          && (forall j :: 0 <= j < -r - 1 ==> cmp(s[j], value) < 0)
          && (forall j :: -r - 1 <= j < n ==> cmp(s[j], value) > 0))
  }

  /** Whatever the contents, a non-negative answer is a probed slot inside
      the bounds that compares equal to `value`, and a negative one is the
      complement of a point in `[lo, hi + 1]`. */
  lemma {:induction false} SearchSound<T>(s: seq<T>, value: T, cmp: (T, T) -> int, lo: int, hi: int)
    requires 0 <= lo <= hi + 1
    ensures var r := Search(s, value, cmp, lo, hi);
              && (r.Ok? && r.value >= 0 ==> lo <= r.value <= hi && r.value < |s| && cmp(s[r.value], value) == 0)
              && (r.Ok? && r.value < 0 ==> lo <= -r.value - 1 <= hi + 1)
              && (r.Err? ==> r.error == Argument)
    decreases hi - lo + 1
  {
    if lo <= hi {
      var i := Mid(lo, hi);
      if 0 <= i < |s| {
        var order := cmp(s[i], value);
        if order < 0 {
          SearchSound(s, value, cmp, i + 1, hi);
        } else if order > 0 {
          SearchSound(s, value, cmp, lo, i - 1);
        }
      }
    }
  }

  /** A search whose bounds stay inside `s` never probes outside the array,
      so it never fails; a search that starts with `hi == |s|` fails exactly
      when it narrows all the way up to the probe of `s[|s|]`. */
  lemma {:induction false} SearchInBounds<T>(s: seq<T>, value: T, cmp: (T, T) -> int, lo: int, hi: int)
    requires 0 <= lo && hi < |s|
    ensures Search(s, value, cmp, lo, hi).Ok?
    decreases hi - lo + 1
  {
    if lo <= hi {
      var i := Mid(lo, hi);
      var order := cmp(s[i], value);
      if order < 0 {
        SearchInBounds(s, value, cmp, i + 1, hi);
      } else if order > 0 {
        SearchInBounds(s, value, cmp, lo, i - 1);
      }
    }
  }

  /** On a partitioned range `s[..n]`, a search whose bounds bracket the
      undecided part (everything before `lo` compares below `value`,
      everything after `hi` above it) finds a correct answer. */
  lemma {:induction false} SearchLocates<T>(s: seq<T>, n: int, value: T, cmp: (T, T) -> int, lo: int, hi: int)
    requires 0 <= lo <= hi + 1 <= n
    requires Partitioned(s, n, value, cmp)
    requires forall j :: 0 <= j < lo ==> cmp(s[j], value) < 0
    requires forall j :: hi < j < n ==> cmp(s[j], value) > 0
    ensures Search(s, value, cmp, lo, hi).Ok?
    ensures Located(s, n, value, cmp, Search(s, value, cmp, lo, hi).value)
    decreases hi - lo + 1
  {
    if lo <= hi {
      var i := Mid(lo, hi);
      var order := cmp(s[i], value);
      if order < 0 {
        forall j | 0 <= j < i + 1 ensures cmp(s[j], value) < 0 {
          if j < i {
            PartitionedPair(s, n, value, cmp, j, i);
          }
        }
        SearchLocates(s, n, value, cmp, i + 1, hi);
      } else if order > 0 {
        forall j | i - 1 < j < n ensures cmp(s[j], value) > 0 {
          if j > i {
            PartitionedPair(s, n, value, cmp, i, j);
          }
        }
        SearchLocates(s, n, value, cmp, lo, i - 1);
      }
    }
  }

  /** What `Partitioned` says about two slots `j < k`. */
  lemma PartitionedPair<T>(s: seq<T>, n: int, value: T, cmp: (T, T) -> int, j: int, k: int)
    requires Partitioned(s, n, value, cmp) && 0 <= j < k < n
    ensures cmp(s[k], value) < 0 ==> cmp(s[j], value) < 0
    ensures cmp(s[j], value) > 0 ==> cmp(s[k], value) > 0
  {
  }

  /** The search over the live range `[0, count - 1]` answers correctly
      whenever that range is partitioned. */
  lemma SearchLiveCorrect<T>(s: seq<T>, count: int, value: T, cmp: (T, T) -> int)
    requires 0 <= count <= |s|
    ensures Partitioned(s, count, value, cmp) ==>
              Search(s, value, cmp, 0, count - 1).Ok? &&
              Located(s, count, value, cmp, Search(s, value, cmp, 0, count - 1).value)
  {
    if Partitioned(s, count, value, cmp) {
      SearchLocates(s, count, value, cmp, 0, count - 1);
    }
  }

  /** The binary search as written. The bounds start at `lo = startIndex`
      and `hi = count`, both inclusive, so the slot just past the live
      region, `array[count]`, can be probed; when `count` equals the array
      length that probe is out of range and the search fails with
      ArgumentException. */
  method BinarySearch<T>(a: array<T>, startIndex: int, count: int, value: T,
                         comparer: Option<(T, T) -> int>, defaultOrder: (T, T) -> int)
    returns (r: Result<int>)
    ensures count - startIndex < 0 ==> r == Err(InvalidOperation)
    ensures count - startIndex >= 0 ==> r == Search(a[..], value, Resolve(comparer, defaultOrder), startIndex, count)
    ensures 0 <= startIndex && r.Ok? && r.value >= 0 ==>
              startIndex <= r.value <= count && r.value < a.Length &&
              Resolve(comparer, defaultOrder)(a[r.value], value) == 0
    ensures 0 <= startIndex <= count < a.Length ==> r.Ok?
  {
    var cmp := Resolve(comparer, defaultOrder);
    ghost var s := a[..];
    var lo := startIndex;
    var hi := count;
    if hi - lo < 0 {
      return Err(InvalidOperation);
    }
    if 0 <= startIndex {
      SearchSound(s, value, cmp, startIndex, count);
    }
    if 0 <= startIndex && count < a.Length {
      SearchInBounds(s, value, cmp, startIndex, count);
    }
    while lo <= hi
      invariant lo <= hi + 1
      invariant Search(s, value, cmp, lo, hi) == Search(s, value, cmp, startIndex, count)
      decreases hi - lo + 1
    {
      SearchStep(s, value, cmp, lo, hi);
      var i := Mid(lo, hi);
      if i < 0 || i >= a.Length {
        return Err(Argument);
      }
      var order := cmp(a[i], value);
      assert order == cmp(s[i], value);
      if order == 0 {
        return Ok(i);
      }
      if order < 0 {
        lo := i + 1;
      } else {
        hi := i - 1;
      }
    }
    return Ok(-lo - 1);
  }

  /** The binary search over the live elements: inclusive bounds
      `[0, count - 1]`. It never fails, and on a partitioned range its
      answer is correct. */
  method BinarySearchLive<T>(a: array<T>, count: int, value: T, cmp: (T, T) -> int) returns (r: int)
    requires 0 <= count <= a.Length
    ensures Search(a[..], value, cmp, 0, count - 1) == Ok(r)
    ensures r >= 0 ==> r < count && cmp(a[r], value) == 0
    ensures r < 0 ==> 0 <= -r - 1 <= count
  {
    ghost var s := a[..];
    var lo := 0;
    var hi := count - 1;
    while lo <= hi
      invariant 0 <= lo <= hi + 1 <= count
      invariant Search(s, value, cmp, lo, hi) == Search(s, value, cmp, 0, count - 1)
      decreases hi - lo + 1
    {
      SearchStep(s, value, cmp, lo, hi);
      var i := Mid(lo, hi);
      var order := cmp(a[i], value);
      assert order == cmp(s[i], value);
      if order == 0 {
        r := i;
        break;
      }
      if order < 0 {
        lo := i + 1;
      } else {
        hi := i - 1;
      }
    }
    if lo > hi {
      r := -lo - 1;
    }
    SearchSound(s, value, cmp, 0, count - 1);
  }

  // ---------------------------------------------------------------------
  // Ordering, Sort and FuncToComparer
  // ---------------------------------------------------------------------

  /** The sign of `cmp(x, y)` is the opposite of that of `cmp(y, x)`. */
  ghost predicate Antisymmetric<T(!new)>(cmp: (T, T) -> int) {
    forall x, y :: cmp(x, y) < 0 <==> cmp(y, x) > 0
  }

  /** "Not above" is transitive. */
  ghost predicate Transitive<T(!new)>(cmp: (T, T) -> int) {
    forall x, y, z :: cmp(x, y) <= 0 && cmp(y, z) <= 0 ==> cmp(x, z) <= 0
  }

  /** The contract every comparer handed to the list is expected to keep. */
  ghost predicate ValidComparer<T(!new)>(cmp: (T, T) -> int) {
    Antisymmetric(cmp) && Transitive(cmp)
  }

  /** Each element of `s` is not above its successor. */
  ghost predicate Ascending<T>(s: seq<T>, cmp: (T, T) -> int) {
    forall i :: 0 < i < |s| ==> cmp(s[i - 1], s[i]) <= 0
  }

  /** No element of `s` is above any later one. */
  ghost predicate SortedBy<T>(s: seq<T>, cmp: (T, T) -> int) {
    forall j, k :: 0 <= j < k < |s| ==> cmp(s[j], s[k]) <= 0
  }

  /** Under a transitive comparer, ascending neighbours make a sorted sequence. */
  lemma {:induction false} AscendingIsSorted<T(!new)>(s: seq<T>, cmp: (T, T) -> int)
    requires Transitive(cmp) && Ascending(s, cmp)
    ensures SortedBy(s, cmp)
  {
    if |s| > 1 {
      var t := s[..|s| - 1];
      assert Ascending(t, cmp) by {
        forall i | 0 < i < |t| ensures cmp(t[i - 1], t[i]) <= 0 {
          assert t[i - 1] == s[i - 1] && t[i] == s[i];
        }
      }
      AscendingIsSorted(t, cmp);
      forall j, k | 0 <= j < k < |s| ensures cmp(s[j], s[k]) <= 0 {
        if k < |s| - 1 {
          assert s[j] == t[j] && s[k] == t[k];
        } else if j < k - 1 {
          assert cmp(s[j], s[k - 1]) <= 0 by {
            assert t[j] == s[j] && t[k - 1] == s[k - 1];
          }
          assert cmp(s[k - 1], s[k]) <= 0;
        }
      }
    }
  }

  /** A range sorted under a valid comparer is partitioned for every value,
      so a binary search over it is correct. */
  lemma SortedIsPartitioned<T(!new)>(s: seq<T>, n: int, value: T, cmp: (T, T) -> int)
    requires 0 <= n <= |s|
    requires ValidComparer(cmp) && SortedBy(s[..n], cmp)
    ensures Partitioned(s, n, value, cmp)
  {
    forall j, k | 0 <= j < k < n
      ensures cmp(s[k], value) < 0 ==> cmp(s[j], value) < 0
      ensures cmp(s[j], value) > 0 ==> cmp(s[k], value) > 0
    {
      assert s[..n][j] == s[j] && s[..n][k] == s[k];
      var x, y := s[j], s[k];
      assert cmp(x, y) <= 0;
      if cmp(y, value) < 0 && cmp(x, value) >= 0 {
        assert false;
      }
      if cmp(x, value) > 0 && cmp(y, value) <= 0 {
        assert false;
      }
    }
  }

  /** `x` inserted into `s` before the first element it is not above. */
  function InsertSorted<T>(x: T, s: seq<T>, cmp: (T, T) -> int): (r: seq<T>)
    ensures multiset(r) == multiset(s) + multiset{x}
    ensures |r| == |s| + 1
    ensures r[0] == x || (|s| > 0 && r[0] == s[0])
  {
    if |s| == 0 then [x]
    else if cmp(x, s[0]) <= 0 then [x] + s
    else
      assert s == [s[0]] + s[1..];
      [s[0]] + InsertSorted(x, s[1..], cmp)
  }

  /** Insertion sort; it stands in for the library sort. */
  function SortSeq<T>(s: seq<T>, cmp: (T, T) -> int): (r: seq<T>)
    ensures multiset(r) == multiset(s)
    ensures |r| == |s|
  {
    if |s| == 0 then []
    else
      assert s == [s[0]] + s[1..];
      InsertSorted(s[0], SortSeq(s[1..], cmp), cmp)
  }

  lemma {:induction false} InsertSortedAscending<T(!new)>(x: T, s: seq<T>, cmp: (T, T) -> int)
    requires Antisymmetric(cmp) && Ascending(s, cmp)
    ensures Ascending(InsertSorted(x, s, cmp), cmp)
  {
    if |s| == 0 {
    } else if cmp(x, s[0]) <= 0 {
      var r := [x] + s;
      forall i | 0 < i < |r| ensures cmp(r[i - 1], r[i]) <= 0 {
        if i > 1 {
          assert r[i - 1] == s[i - 2] && r[i] == s[i - 1];
        }
      }
    } else {
      var t := InsertSorted(x, s[1..], cmp);
      assert Ascending(s[1..], cmp) by {
        forall i | 0 < i < |s[1..]| ensures cmp(s[1..][i - 1], s[1..][i]) <= 0 {
          assert s[1..][i - 1] == s[i] && s[1..][i] == s[i + 1];
        }
      }
      InsertSortedAscending(x, s[1..], cmp);
      var r := [s[0]] + t;
      assert cmp(s[0], t[0]) <= 0 by {
        if t[0] == x {
          assert cmp(s[0], x) < 0;
        } else {
          assert t[0] == s[1];
        }
      }
      forall i | 0 < i < |r| ensures cmp(r[i - 1], r[i]) <= 0 {
        if i > 1 {
          assert r[i - 1] == t[i - 2] && r[i] == t[i - 1];
        }
      }
    }
  }

  lemma {:induction false} SortSeqAscending<T(!new)>(s: seq<T>, cmp: (T, T) -> int)
    requires Antisymmetric(cmp)
    ensures Ascending(SortSeq(s, cmp), cmp)
  {
    if |s| > 0 {
      SortSeqAscending(s[1..], cmp);
      InsertSortedAscending(s[0], SortSeq(s[1..], cmp), cmp);
    }
  }

  /** Under a valid comparer the stand-in sort returns a sorted sequence. */
  lemma SortSeqSorted<T(!new)>(s: seq<T>, cmp: (T, T) -> int)
    ensures ValidComparer(cmp) ==> SortedBy(SortSeq(s, cmp), cmp)
  {
    if ValidComparer(cmp) {
      SortSeqAscending(s, cmp);
      AscendingIsSorted(SortSeq(s, cmp), cmp);
    }
  }

  /** Sorts `a[startIndex..startIndex + count)` in place, after the range
      checks of the library sort: a negative index or length is
      ArgumentOutOfRangeException, a range past the end ArgumentException.
      The result is a permutation of the range, sorted when the comparer is
      valid; slots outside the range are unchanged. */
  method Sort<T(!new)>(a: array<T>, startIndex: int, count: int, cmp: (T, T) -> int) returns (o: Outcome)
    modifies a
    ensures startIndex < 0 || count < 0 ==> o == Fail(ArgumentOutOfRange)
    ensures 0 <= startIndex && 0 <= count && a.Length - startIndex < count ==> o == Fail(Argument)
    ensures o.Pass? <==> 0 <= startIndex && 0 <= count && startIndex + count <= a.Length
    ensures o.Fail? ==> a[..] == old(a[..])
    ensures o.Pass? ==>
              && a[..startIndex] == old(a[..startIndex])
              && a[startIndex + count..] == old(a[startIndex + count..])
              && multiset(a[startIndex..startIndex + count]) == old(multiset(a[startIndex..startIndex + count]))
              && (ValidComparer(cmp) ==> SortedBy(a[startIndex..startIndex + count], cmp))
  {
    if startIndex < 0 || count < 0 {
      return Fail(ArgumentOutOfRange);
    }
    if a.Length - startIndex < count {
      return Fail(Argument);
    }
    o := Pass;
    ghost var before := a[..];
    ghost var range := a[startIndex..startIndex + count];
    var sorted := SortSeq(a[startIndex..startIndex + count], cmp);
    SortSeqSorted(range, cmp);
    WriteBack(a, startIndex, sorted);
    MovedSlices(a[..], sorted, 0, before, startIndex, count);
    assert a[startIndex..startIndex + count] == sorted;
  }

  /** The loop that stores a sorted run back into `a` from `startIndex` on. */
  method WriteBack<T>(a: array<T>, startIndex: int, sorted: seq<T>)
    requires 0 <= startIndex && startIndex + |sorted| <= a.Length
    modifies a
    ensures Moved(a[..], sorted, 0, old(a[..]), startIndex, |sorted|)
  {
    var i := 0;
    while i < |sorted|
      invariant 0 <= i <= |sorted|
      invariant forall k :: 0 <= k < a.Length ==>
                  a[k] == if startIndex <= k < startIndex + i then sorted[k - startIndex] else old(a[k])
    {
      a[startIndex + i] := sorted[i];
      i := i + 1;
    }
  }

  /** A moved window read back as slices. */
  lemma MovedSlices<T>(d: seq<T>, src: seq<T>, si: int, d0: seq<T>, di: int, n: int)
    requires Moved(d, src, si, d0, di, n)
    ensures d[..di] == d0[..di]
    ensures d[di..di + n] == src[si..si + n]
    ensures d[di + n..] == d0[di + n..]
  {
  }

  /** After a sort, the corrected binary search and the corrected linear
      scan agree on presence: over a live range sorted under a valid
      comparer whose ties are exactly the equal elements, the search finds
      a slot exactly when the scan does. */
  lemma SortedSearchAgreesWithScan<T(!new)>(s: seq<T>, count: int, value: T,
                                            cmp: (T, T) -> int, eq: (T, T) -> bool)
    requires 0 <= count <= |s|
    requires ValidComparer(cmp) && SortedBy(s[..count], cmp)
    requires forall x, y :: cmp(x, y) == 0 <==> eq(x, y)
    ensures Search(s, value, cmp, 0, count - 1).Ok?
    ensures Search(s, value, cmp, 0, count - 1).value >= 0 <==> IndexOfIn(s[..count], value, eq) != -1
  {
    SortedIsPartitioned(s, count, value, cmp);
    SearchLiveCorrect(s, count, value, cmp);
    var r := Search(s, value, cmp, 0, count - 1).value;
    if r >= 0 {
      assert s[..count][r] == s[r];
      assert eq(s[..count][r], value);
    } else {
      forall j | 0 <= j < count ensures !eq(s[..count][j], value) {
        assert s[..count][j] == s[j];
      }
    }
  }

  /** The adapter that lets a comparison delegate be used as a comparer:
      it compares exactly as the delegate does. */
  function FuncToComparer<T(!new)>(comparison: (T, T) -> int): (comparer: (T, T) -> int)
    ensures forall x, y :: comparer(x, y) == comparison(x, y)
  {
    (x, y) => comparison(x, y)
  }
}
