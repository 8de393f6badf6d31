/** `CustomList<T>`: a growable array list. The live elements are
    `items[0..size)`; the slots past `size` belong to the backing array and
    may hold defaults or stale values. */
module CustomCollections {
  import opened Errors
  import opened ListHelper

  /** Capacity of the first backing array allocated by growth. */
  const DefaultCapacity := 4

  /** The largest capacity growth alone will choose. */
  const MaxLength := 0x7FEFFFFF

  /** What the list uses of its element type: `default(T)`, the default
      equality (a null item is matched only by null, which the default
      equality also does) and the default ordering. */
  datatype ElementTraits<!T> = ElementTraits(defaultValue: T, equals: (T, T) -> bool, compare: (T, T) -> int)

  /** The argument of `InsertRange` and `AddRange`, told apart the way the
      code tells it apart at run time. */
  datatype Source<T> =
    | Null                           // a null reference
    | Collection(elements: seq<T>)   // an ICollection<T> other than this list
    | Itself                         // this very list
    | Enumeration(elements: seq<T>)  // an IEnumerable<T> that is not an ICollection<T>

  /** The capacity growth picks when `min` slots are needed and `capacity`
      are available: twice the current capacity (the default capacity for an
      empty array), clamped to `MaxLength`, but never less than `min`. */
  function GrowthTarget(capacity: int, min: int): (r: int)
    requires 0 <= capacity < min
    ensures r >= min && r > capacity
    ensures r == min || r == DefaultCapacity || r == 2 * capacity || r == MaxLength
    ensures capacity == 0 && min <= DefaultCapacity ==> r == DefaultCapacity
    ensures 0 < capacity && 2 * capacity <= MaxLength && min <= 2 * capacity ==> r == 2 * capacity
    ensures 0 < capacity && 2 * capacity > MaxLength && min <= MaxLength ==> r == MaxLength
    ensures min > MaxLength ==> r == min
    ensures capacity == 0 && min > DefaultCapacity ==> r == min
    ensures 0 < capacity && min > 2 * capacity ==> r == min
  {
    var doubled := if capacity == 0 then DefaultCapacity else capacity * 2;
    var clamped := if doubled > MaxLength then MaxLength else doubled;
    if clamped < min then min else clamped
  }

  /** The capacity after making room for `min` elements: unchanged when
      there already is room, the growth target otherwise. */
  function EnsuredCapacity(capacity: nat, min: int): (r: int)
    ensures r >= min && r >= capacity
    ensures capacity >= min ==> r == capacity
    ensures capacity < min ==> r == GrowthTarget(capacity, min)
  {
    if capacity >= min then capacity else GrowthTarget(capacity, min)
  }

  /** The capacity after `n` single appends to a list of `count` elements
      and capacity `capacity`. */
  function CapacityAfterAdds(capacity: nat, count: nat, n: nat): (r: nat)
    requires count <= capacity
    ensures r >= count + n && r >= capacity
    decreases n
  {
    if n == 0 then capacity
    else CapacityAfterAdds(EnsuredCapacity(capacity, count + 1), count + 1, n - 1)
  }

  /** Appending one element at a time never leaves more room than the
      larger of the starting capacity, the default capacity and twice the
      final count: each growth at most doubles a full array. */
  lemma {:induction false} CapacityAfterAddsBound(capacity: nat, count: nat, n: nat)
    requires count <= capacity
    ensures var r := CapacityAfterAdds(capacity, count, n);
            r <= capacity || r <= DefaultCapacity || r <= 2 * (count + n)
    decreases n
  {
    if n > 0 {
      CapacityAfterAddsBound(EnsuredCapacity(capacity, count + 1), count + 1, n - 1);
    }
  }

  /** Removing the element just inserted at `index` gives back the original
      sequence: the partner of `Insert` and `RemoveAt` on the live
      elements. */
  lemma InsertedThenRemoved<T>(s: seq<T>, index: int, item: T)
    requires 0 <= index <= |s|
    ensures var t := s[..index] + [item] + s[index..];
            |t| == |s| + 1 && t[index] == item && t[..index] + t[index + 1..] == s
  {
    var t := s[..index] + [item] + s[index..];
    assert t[..index] == s[..index];
    assert t[index + 1..] == s[index..];
  }

  /** From slot `m` on, `now` holds what `before` held there (`keep`), or
      the default value `d` (not `keep`). */
  ghost predicate TailIs<T>(now: seq<T>, m: int, keep: bool, before: seq<T>, d: T)
  {
    0 <= m <= |now| &&
    if keep then |before| == |now| && now[m..] == before[m..]
    else now[m..] == Filled(|now| - m, d)
  }

  /** A tail fact about `mid` from slot `n` carries over to `now` from any
      later slot `m` past which `now` and `mid` agree. */
  lemma TailCarried<T>(now: seq<T>, mid: seq<T>, before: seq<T>, n: int, m: int, keep: bool, d: T)
    requires n <= m <= |now| == |mid|
    requires TailIs(mid, n, keep, before, d)
    requires now[m..] == mid[m..]
    ensures TailIs(now, m, keep, before, d)
  {
    assert now[m..] == mid[n..][m - n..];
    if keep {
      assert before[m..] == before[n..][m - n..];
    }
  }

  /** The backing array after an insertion of `item` at `index` into the
      first `n` slots of `b`: the shift right by one (`a`), then the store. */
  lemma InsertedAt<T>(b: seq<T>, a: seq<T>, n: int, index: int, item: T)
    requires 0 <= index <= n < |b|
    requires index < n ==> Moved(a, b, index, b, index + 1, n - index)
    requires index == n ==> a == b
    ensures a[index := item][..n + 1] == b[..n][..index] + [item] + b[..n][index..]
    ensures a[index := item][n + 1..] == b[n + 1..]
  {
    var r := a[index := item];
    var want := b[..n][..index] + [item] + b[..n][index..];
    forall k | 0 <= k <= n
      ensures r[k] == want[k]
    {
      if k > index {
        assert r[k] == b[k - 1];
      }
    }
  }

  /** `a` is `b` with the element at `index` of its first `n` live slots
      removed: the later live elements move one slot left, the vacated slot
      `n - 1` holds `d`, and the slots past `n` are kept. */
  ghost predicate RemovedFrom<T>(b: seq<T>, n: int, index: int, a: seq<T>, d: T)
  {
    && 0 <= index < n <= |b| && |a| == |b|
    && a[..n - 1] == b[..n][..index] + b[..n][index + 1..]
    && a[n - 1..] == [d] + b[n..]
  }

  /** The backing array after removing slot `index` from the first `n + 1`
      slots of `b`: the shift left by one (`a`), then the reset of slot `n`. */
  lemma RemovedAt<T>(b: seq<T>, a: seq<T>, n: int, index: int, d: T)
    requires 0 <= index <= n < |b|
    requires index < n ==> Moved(a, b, index + 1, b, index, n - index)
    requires index == n ==> a == b
    ensures RemovedFrom(b, n + 1, index, a[n := d], d)
  {
    var r := a[n := d];
    var want := b[..n + 1][..index] + b[..n + 1][index + 1..];
    forall k | 0 <= k < n
      ensures r[k] == want[k]
    {
      if k >= index {
        assert r[k] == b[k + 1];
      }
    }
    assert r[n..] == [d] + b[n + 1..];
  }

  /** The backing array after inserting another collection `c` at `index`
      into the first `n` slots of `b`: the shift right by `|c|` (`b1`), then
      the copy of `c` into the gap (`a`). */
  lemma CollectionInserted<T>(b: seq<T>, b1: seq<T>, a: seq<T>, c: seq<T>, n: int, index: int)
    requires 0 <= index <= n && n + |c| <= |b|
    requires index < n ==> Moved(b1, b, index, b, index + |c|, n - index)
    requires index == n ==> b1 == b
    requires Moved(a, c, 0, b1, index, |c|)
    ensures a[..n + |c|] == b[..n][..index] + c + b[..n][index..]
    ensures a[n + |c|..] == b[n + |c|..]
  {
    var want := b[..n][..index] + c + b[..n][index..];
    forall k | 0 <= k < n + |c|
      ensures a[k] == want[k]
    {
      if k < index {
        assert a[k] == b1[k] == b[k];
      } else if k < index + |c| {
        assert a[k] == c[k - index];
      } else {
        assert a[k] == b1[k] == b[k - |c|];
      }
    }
    forall k | n + |c| <= k < |b|
      ensures a[k] == b[k]
    {
      assert a[k] == b1[k];
    }
    assert a[n + |c|..] == b[n + |c|..];
  }

  /** The backing array after inserting the list into itself at `index`,
      its `n` elements being the first `n` slots of `b`: the shift right by
      `n` (`b1`), the copy of the front part into the gap (`b2`), then the
      copy of the shifted tail into the rest of the gap (`a`). */
  lemma SelfInserted<T>(b: seq<T>, b1: seq<T>, b2: seq<T>, a: seq<T>, n: int, index: int)
    requires 0 <= index <= n && 2 * n <= |b|
    requires index < n ==> Moved(b1, b, index, b, index + n, n - index)
    requires index == n ==> b1 == b
    requires Moved(b2, b1, 0, b1, index, index)
    requires Moved(a, b2, index + n, b2, index * 2, n - index)
    ensures a[..2 * n] == b[..n][..index] + b[..n] + b[..n][index..]
    ensures a[2 * n..] == b[2 * n..]
  {
    var want := b[..n][..index] + b[..n] + b[..n][index..];
    forall k | 0 <= k < 2 * n
      ensures a[k] == want[k]
    {
      if k < index {
        assert a[k] == b2[k] == b1[k] == b[k];
      } else if k < 2 * index {
        assert a[k] == b2[k] == b1[k - index] == b[k - index];
        assert want[k] == b[..n][k - index];
      } else if k < index + n {
        assert a[k] == b2[k + n - index] == b1[k + n - index] == b[k - index];
        assert want[k] == b[..n][k - index];
      } else {
        assert a[k] == b2[k] == b1[k] == b[k - n];
        assert want[k] == b[..n][index..][k - index - n];
      }
    }
    forall k | 0 <= k < |b| - 2 * n
      ensures a[2 * n..][k] == b[2 * n..][k]
    {
      assert a[2 * n + k] == b2[2 * n + k] == b1[2 * n + k];
    }
  }

  /** A fresh array of `n` default values, as `new T[n]` allocates it. */
  method NewArray<T>(n: nat, dflt: T) returns (a: array<T>)
    ensures fresh(a) && a[..] == Filled(n, dflt)
  {
    a := new T[n](_ => dflt);
  }

  class CustomList<T(!new)> {
    const traits: ElementTraits<T>
    var items: array<T>
    var size: int

    /** The list's invariant: the live count fits the backing array. */
    ghost predicate Valid()
      reads this
    {
      0 <= size <= items.Length
    }

    /** The live elements, in order. */
    ghost function Contents(): (s: seq<T>)
      reads this, items
      requires Valid()
      ensures |s| == size
    {
      items[..size]
    }

    /** The slots the linear search looks at: all but the last backing slot. */
    ghost function Scanned(): (s: seq<T>)
      reads this, items
      ensures |s| == ScanEnd(items.Length)
    {
      items[..ScanEnd(items.Length)]
    }

    /** Relative to a backing array `oldItems` with contents `oldBacking`:
        when the array was kept, the slots past the live count are as they
        were; when it was replaced, they hold the default value. */
    ghost predicate TailKept(oldItems: array<T>, oldBacking: seq<T>)
      reads this, items
      requires Valid()
    {
      TailIs(items[..], size, items == oldItems, oldBacking, traits.defaultValue)
    }

    // -------------------------------------------------------------------
    // Constructors
    // -------------------------------------------------------------------

    /** An empty list over the empty array. */
    constructor (traits: ElementTraits<T>)
      ensures Valid() && this.traits == traits
      ensures Contents() == [] && items.Length == 0 && fresh(items)
    {
      this.traits := traits;
      items := new T[0](_ => traits.defaultValue);
      size := 0;
    }

    /** An empty list with room for `capacity` elements. */
    constructor WithCapacity(traits: ElementTraits<T>, capacity: int)
      requires capacity >= 0
      ensures Valid() && this.traits == traits
      ensures Contents() == [] && items[..] == Filled(capacity, traits.defaultValue) && fresh(items)
    {
      this.traits := traits;
      items := new T[capacity](_ => traits.defaultValue);
      size := 0;
    }

    /** A list built from a collection of known count. The elements are
        copied into a backing array of exactly that size, but the count is
        never set, so the list starts out empty. */
    constructor FromCollection(traits: ElementTraits<T>, c: seq<T>)
      ensures Valid() && this.traits == traits
      ensures Contents() == [] && items[..] == c && fresh(items)
    {
      this.traits := traits;
      if |c| == 0 {
        items := new T[0](_ => traits.defaultValue);
      } else {
        items := new T[|c|](k requires 0 <= k < |c| => c[k]);
      }
      size := 0;
    }

    /** A list built by appending the elements of a sequence one by one. */
    constructor FromEnumeration(traits: ElementTraits<T>, e: seq<T>)
      ensures Valid() && this.traits == traits
      ensures Contents() == e
      ensures items.Length == CapacityAfterAdds(0, 0, |e|)
      ensures items[|e|..] == Filled(items.Length - |e|, traits.defaultValue) && fresh(items)
    {
      this.traits := traits;
      size := 0;
      items := new T[0](_ => traits.defaultValue);
      new;
      AppendAll(e);
    }

    // -------------------------------------------------------------------
    // Capacity
    // -------------------------------------------------------------------

    function Count(): (n: int)
      reads this, items
      requires Valid()
      ensures n == |Contents()|
    {
      size
    }

    function Capacity(): (c: int)
      reads this, items
      requires Valid()
      ensures c >= Count()
    {
      items.Length
    }

    /** The capacity setter. A value below the count is refused; otherwise
        the backing array becomes exactly `value` long (the empty array for
        0), keeping the live elements in order. */
    method SetCapacity(value: int) returns (o: Outcome)
      requires Valid()
      modifies this
      ensures Valid() && size == old(size) && Contents() == old(Contents())
      ensures o == if value < old(size) then Fail(ArgumentOutOfRange) else Pass
      ensures o.Pass? ==> items.Length == value
      ensures o.Fail? || value == old(items.Length) ==> items == old(items)
      ensures o.Pass? && value != old(items.Length) ==> fresh(items)
      ensures TailKept(old(items), old(items[..]))
    {
      if value < size {
        return Fail(ArgumentOutOfRange);
      }
      o := Pass;
      if value != items.Length {
        if value > 0 {
          var newArray := NewArray(value, traits.defaultValue);
          if size > 0 {
            var copied := Copy(items, 0, newArray, 0, size);
          }
          items := newArray;
        } else {
          items := NewArray(0, traits.defaultValue);
        }
      }
    }

    /** Makes room for at least `min` elements, growing by the growth rule. */
    method EnsureCapacity(min: int)
      requires Valid()
      modifies this
      ensures Valid() && size == old(size) && Contents() == old(Contents())
      ensures items.Length == EnsuredCapacity(old(items.Length), min)
      ensures old(items.Length) >= min ==> items == old(items)
      ensures old(items.Length) < min ==> fresh(items)
      ensures TailKept(old(items), old(items[..]))
    {
      if items.Length < min {
        var newCapacity := if items.Length == 0 then DefaultCapacity else items.Length * 2;
        if newCapacity > MaxLength {
          newCapacity := MaxLength;
        }
        if newCapacity < min {
          newCapacity := min;
        }
        var o := SetCapacity(newCapacity);
      }
    }

    /** Sets the capacity to the count. */
    method TrimExcess()
      requires Valid()
      modifies this
      ensures Valid() && size == old(size) && Contents() == old(Contents())
      ensures items.Length == size
      ensures size == old(items.Length) ==> items == old(items)
      ensures size != old(items.Length) ==> fresh(items)
    {
      var o := SetCapacity(size);
    }

    // -------------------------------------------------------------------
    // Indexer
    // -------------------------------------------------------------------

    /** The indexer's getter. */
    method Get(index: int) returns (r: Result<T>)
      requires Valid()
      ensures r.Ok? <==> 0 <= index < |Contents()|
      ensures r.Ok? ==> r.value == Contents()[index]
      ensures r.Err? ==> r.error == ArgumentOutOfRange
    {
      if index < 0 || index >= size {
        return Err(ArgumentOutOfRange);
      }
      return Ok(items[index]);
    }

    /** The indexer's setter: it changes slot `index` and nothing else. */
    method Set(index: int, value: T) returns (o: Outcome)
      requires Valid()
      modifies items
      ensures Valid()
      ensures o == if 0 <= index < size then Pass else Fail(ArgumentOutOfRange)
      ensures o.Pass? ==> Contents() == old(Contents())[index := value]
      ensures items[..] == if o.Pass? then old(items[..])[index := value] else old(items[..])
    {
      if index < 0 || index >= size {
        return Fail(ArgumentOutOfRange);
      }
      o := Pass;
      items[index] := value;
    }

    // -------------------------------------------------------------------
    // Adding
    // -------------------------------------------------------------------

    /** Appends `item`, growing first when the array is full. */
    method Add(item: T)
      requires Valid()
      modifies this, items
      ensures Valid()
      ensures Contents() == old(Contents()) + [item]
      ensures items.Length == EnsuredCapacity(old(items.Length), old(size) + 1)
      ensures old(size) < old(items.Length) ==> items == old(items)
      ensures old(size) == old(items.Length) ==> fresh(items)
      ensures TailKept(old(items), old(items[..]))
    {
      if size == items.Length {
        EnsureCapacity(size + 1);
      }
      items[size] := item;
      size := size + 1;
    }

    /** `foreach (T item in e) Add(item);` */
    method AppendAll(e: seq<T>)
      requires Valid()
      modifies this, items
      ensures Valid()
      ensures Contents() == old(Contents()) + e
      ensures items.Length == CapacityAfterAdds(old(items.Length), old(size), |e|)
      ensures items == old(items) || fresh(items)
      ensures old(size) + |e| <= old(items.Length) ==> items == old(items)
      ensures old(size) + |e| > old(items.Length) ==> fresh(items)
      ensures TailKept(old(items), old(items[..]))
    {
      var i := 0;
      while i < |e|
        invariant 0 <= i <= |e|
        invariant Valid()
        invariant Contents() == old(Contents()) + e[..i]
        invariant size == old(size) + i
        invariant CapacityAfterAdds(items.Length, size, |e| - i) == CapacityAfterAdds(old(items.Length), old(size), |e|)
        invariant items == old(items) || fresh(items)
        invariant old(size) + |e| <= old(items.Length) ==> items == old(items)
        invariant old(size) + i > old(items.Length) ==> fresh(items)
        invariant TailKept(old(items), old(items[..]))
      {
        Add(e[i]);
        i := i + 1;
      }
    }

    /** Inserts `item` at `index`, shifting the elements from `index` on one
        slot to the right. */
    method Insert(index: int, item: T) returns (o: Outcome)
      requires Valid()
      modifies this, items
      ensures Valid()
      ensures o == if 0 <= index <= old(size) then Pass else Fail(ArgumentOutOfRange)
      ensures o.Fail? ==> items == old(items) && size == old(size) && items[..] == old(items[..])
      ensures o.Pass? ==> Contents() == old(Contents())[..index] + [item] + old(Contents())[index..]
      ensures o.Pass? ==> items.Length == EnsuredCapacity(old(items.Length), old(size) + 1)
      ensures o.Pass? && old(size) < old(items.Length) ==> items == old(items)
      ensures o.Pass? && old(size) == old(items.Length) ==> fresh(items)
      ensures TailKept(old(items), old(items[..]))
    {
      if index < 0 || index > size {
        return Fail(ArgumentOutOfRange);
      }
      o := Pass;
      if size == items.Length {
        EnsureCapacity(size + 1);
      }
      ghost var b := items[..];
      SpliceOne(items, size, index, item);
      TailCarried(items[..], b, old(items[..]), size, size + 1, items == old(items), traits.defaultValue);
      size := size + 1;
    }

    /** Inserts the elements of `source` at `index`. A null source and an
        index outside `[0, Count]` are refused, in that order. A collection
        (possibly this list itself) is inserted in place: room is made once,
        the tail is shifted right by the inserted count and the gap is
        filled; for this list itself the gap is filled from the front part
        and from the shifted tail. Any other enumeration replaces the whole
        contents, whatever the index. */
    method InsertRange(index: int, source: Source<T>) returns (o: Outcome)
      requires Valid()
      modifies this, items
      ensures Valid()
      ensures o == if source.Null? then Fail(ArgumentNull)
                   else if !(0 <= index <= old(size)) then Fail(ArgumentOutOfRange)
                   else Pass
      ensures o.Fail? ==> items == old(items) && size == old(size) && items[..] == old(items[..])
      ensures o.Pass? && source.Collection? ==>
                Contents() == old(Contents())[..index] + source.elements + old(Contents())[index..] &&
                items.Length == EnsuredCapacity(old(items.Length), old(size) + |source.elements|)
      ensures o.Pass? && source.Collection? && old(items.Length) >= old(size) + |source.elements| ==>
                items == old(items)
      ensures o.Pass? && source.Collection? && old(items.Length) < old(size) + |source.elements| ==>
                fresh(items)
      ensures o.Pass? && source.Itself? ==>
                Contents() == old(Contents())[..index] + old(Contents()) + old(Contents())[index..] &&
                items.Length == EnsuredCapacity(old(items.Length), 2 * old(size))
      ensures o.Pass? && source.Itself? && old(items.Length) >= 2 * old(size) ==> items == old(items)
      ensures o.Pass? && source.Itself? && old(items.Length) < 2 * old(size) ==> fresh(items)
      ensures o.Pass? && source.Enumeration? ==>
                Contents() == source.elements &&
                items.Length == CapacityAfterAdds(0, 0, |source.elements|) && fresh(items)
      ensures items == old(items) || fresh(items)
      ensures TailKept(old(items), old(items[..]))
    {
      if source.Null? {
        return Fail(ArgumentNull);
      }
      if index < 0 || index > size {
        return Fail(ArgumentOutOfRange);
      }
      o := Pass;
      if source.Enumeration? {
        size := 0;
        items := NewArray(0, traits.defaultValue);
        AppendAll(source.elements);
        return;
      }
      if source.Itself? {
        InsertSelf(index);
      } else {
        InsertCollection(index, source.elements);
      }
    }

    /** The in-place part of `InsertRange` for a collection `c`: room is
        made once for `|c|` more elements, the tail from `index` is shifted
        right by `|c|` and `c` is copied into the gap. */
    method InsertCollection(index: int, c: seq<T>)
      requires Valid() && 0 <= index <= size
      modifies this, items
      ensures Valid()
      ensures Contents() == old(Contents())[..index] + c + old(Contents())[index..]
      ensures items.Length == EnsuredCapacity(old(items.Length), old(size) + |c|)
      ensures old(items.Length) >= old(size) + |c| ==> items == old(items)
      ensures old(items.Length) < old(size) + |c| ==> fresh(items)
      ensures TailKept(old(items), old(items[..]))
    {
      var count := |c|;
      if count > 0 {
        EnsureCapacity(size + count);
        ghost var b := items[..];
        Splice(items, size, index, c);
        TailCarried(items[..], b, old(items[..]), size, size + count, items == old(items), traits.defaultValue);
        size := size + count;
      }
    }

    /** The in-place part of `InsertRange` for the list itself: room is made
        once for `Count` more elements, the tail from `index` is shifted
        right by `Count`, then the front part and the shifted tail are copied
        into the gap. */
    method InsertSelf(index: int)
      requires Valid() && 0 <= index <= size
      modifies this, items
      ensures Valid()
      ensures Contents() == old(Contents())[..index] + old(Contents()) + old(Contents())[index..]
      ensures items.Length == EnsuredCapacity(old(items.Length), 2 * old(size))
      ensures old(items.Length) >= 2 * old(size) ==> items == old(items)
      ensures old(items.Length) < 2 * old(size) ==> fresh(items)
      ensures TailKept(old(items), old(items[..]))
    {
      var count := size;
      if count > 0 {
        EnsureCapacity(size + count);
        ghost var b := items[..];
        SpliceSelf(items, size, index);
        TailCarried(items[..], b, old(items[..]), size, size + count, items == old(items), traits.defaultValue);
        size := size + count;
      }
    }

    /** `InsertRange(Count, source)`. */
    method AddRange(source: Source<T>) returns (o: Outcome)
      requires Valid()
      modifies this, items
      ensures Valid()
      ensures o == if source.Null? then Fail(ArgumentNull) else Pass
      ensures o.Fail? ==> items == old(items) && size == old(size) && items[..] == old(items[..])
      ensures source.Collection? ==>
                Contents() == old(Contents()) + source.elements &&
                items.Length == EnsuredCapacity(old(items.Length), old(size) + |source.elements|)
      ensures source.Collection? && old(items.Length) >= old(size) + |source.elements| ==> items == old(items)
      ensures source.Collection? && old(items.Length) < old(size) + |source.elements| ==> fresh(items)
      ensures source.Itself? ==>
                Contents() == old(Contents()) + old(Contents()) &&
                items.Length == EnsuredCapacity(old(items.Length), 2 * old(size))
      ensures source.Itself? && old(items.Length) >= 2 * old(size) ==> items == old(items)
      ensures source.Itself? && old(items.Length) < 2 * old(size) ==> fresh(items)
      ensures source.Enumeration? ==>
                Contents() == source.elements &&
                items.Length == CapacityAfterAdds(0, 0, |source.elements|) && fresh(items)
      ensures items == old(items) || fresh(items)
      ensures TailKept(old(items), old(items[..]))
    {
      o := InsertRange(size, source);
    }

    // -------------------------------------------------------------------
    // Removing
    // -------------------------------------------------------------------

    /** Removes the element at `index`, shifting the later elements one slot
        left and resetting the vacated last slot to the default value. */
    method RemoveAt(index: int) returns (o: Outcome)
      requires Valid()
      modifies this, items
      ensures Valid() && items == old(items)
      ensures o == if 0 <= index < old(size) then Pass else Fail(ArgumentOutOfRange)
      ensures o.Fail? ==> size == old(size) && items[..] == old(items[..])
      ensures o.Pass? ==> size == old(size) - 1
      ensures o.Pass? ==> RemovedFrom(old(items[..]), old(size), index, items[..], traits.defaultValue)
    {
      if index < 0 || index >= size {
        return Fail(ArgumentOutOfRange);
      }
      o := Pass;
      ghost var b := items[..];
      size := size - 1;
      if index < size {
        MoveWithin(items, index + 1, index, size - index);
      }
      ghost var a := items[..];
      RemovedAt(b, a, size, index, traits.defaultValue);
      items[size] := traits.defaultValue;
      assert items[..] == a[size := traits.defaultValue];
    }

    /** Removes the element the linear search finds, if any. The search
        covers the backing array, so it may find a slot past the count, in
        which case the removal is refused as out of range. */
    method Remove(item: T) returns (r: Result<bool>)
      requires Valid()
      modifies this, items
      ensures Valid() && items == old(items)
      ensures var i := IndexOfIn(old(Scanned()), item, traits.equals);
              r == if i == -1 then Ok(false)
                   else if i < old(size) then Ok(true)
                   else Err(ArgumentOutOfRange)
      ensures r != Ok(true) ==> size == old(size) && items[..] == old(items[..])
      ensures r == Ok(true) ==> size == old(size) - 1
      ensures r == Ok(true) ==>
                RemovedFrom(old(items[..]), old(size), IndexOfIn(old(Scanned()), item, traits.equals),
                            items[..], traits.defaultValue)
    {
      var index := IndexOf(item);
      if index >= 0 {
        var o := RemoveAt(index);
        if o.Fail? {
          return Err(o.error);
        }
        return Ok(true);
      }
      return Ok(false);
    }

    /** Resets the live slots to the default value and empties the list;
        the capacity is kept. */
    method Clear()
      requires Valid()
      modifies this, items
      ensures Valid() && items == old(items) && size == 0
      ensures items[..] == Filled(old(size), traits.defaultValue) + old(items[..])[old(size)..]
    {
      if size > 0 {
        var cleared := ListHelper.Clear(items, 0, size, traits.defaultValue);
        size := 0;
      }
      assert items[..] == Filled(old(size), traits.defaultValue) + old(items[..])[old(size)..];
    }

    // -------------------------------------------------------------------
    // Searching
    // -------------------------------------------------------------------

    /** The linear search of the backing array, as written. */
    method IndexOf(item: T) returns (r: int)
      ensures r == IndexOfIn(Scanned(), item, traits.equals)
      ensures -1 <= r < ScanEnd(items.Length)
    {
      r := ListHelper.IndexOf(items, item, traits.equals);
    }

    /** Whether the linear search finds `item`. */
    method Contains(item: T) returns (b: bool)
      ensures b <==> IndexOfIn(Scanned(), item, traits.equals) != -1
      ensures b <==> exists j :: 0 <= j < ScanEnd(items.Length) && traits.equals(items[j], item)
    {
      var index := ListHelper.IndexOf(items, item, traits.equals);
      if index != -1 {
        return true;
      } else {
        assert forall j :: 0 <= j < ScanEnd(items.Length) ==> Scanned()[j] == items[j];
        return false;
      }
    }

    /** The binary search over `[0, Count]`, both bounds inclusive, with the
        given comparer or, when it is null, the default ordering. The three
        overloads of the source (no comparer, a comparer, a comparison
        delegate wrapped by `FuncToComparer`) all reduce to this one. */
    method BinarySearch(value: T, comparer: Option<(T, T) -> int>) returns (r: Result<int>)
      requires Valid()
      ensures r == Search(items[..], value, Resolve(comparer, traits.compare), 0, size)
      ensures r.Ok? && r.value >= 0 ==>
                r.value <= size && r.value < items.Length &&
                Resolve(comparer, traits.compare)(items[r.value], value) == 0
      ensures r.Err? ==> r.error == Argument && size == items.Length
      ensures size < items.Length && Partitioned(items[..], size + 1, value, Resolve(comparer, traits.compare)) ==>
                r.Ok? && Located(items[..], size + 1, value, Resolve(comparer, traits.compare), r.value)
    {
      r := ListHelper.BinarySearch(items, 0, size, value, comparer, traits.compare);
      if size < items.Length {
        SearchInBounds(items[..], value, Resolve(comparer, traits.compare), 0, size);
      } else {
        SearchSound(items[..], value, Resolve(comparer, traits.compare), 0, size);
      }
      if size < items.Length {
        SearchLiveCorrect(items[..], size + 1, value, Resolve(comparer, traits.compare));
        assert Search(items[..], value, Resolve(comparer, traits.compare), 0, size + 1 - 1) == r;
      }
    }

    // -------------------------------------------------------------------
    // Sorting
    // -------------------------------------------------------------------

    /** Sorts the live elements with the given comparer, or the default
        ordering when it is null. */
    method Sort(comparer: Option<(T, T) -> int>) returns (o: Outcome)
      requires Valid()
      modifies items
      ensures Valid() && o == Pass
      ensures multiset(Contents()) == multiset(old(Contents()))
      ensures ValidComparer(Resolve(comparer, traits.compare)) ==> SortedBy(Contents(), Resolve(comparer, traits.compare))
      ensures items[size..] == old(items[size..])
    {
      o := ListHelper.Sort(items, 0, size, Resolve(comparer, traits.compare));
    }

    /** Sorts with a comparison delegate. With a null delegate the live
        elements are sorted by the default ordering and execution then
        falls through to a second sort through an adapter around the null
        delegate: invoking it fails, which surfaces as ArgumentException,
        as soon as the library sort compares two elements. */
    method SortComparison(comparison: Option<(T, T) -> int>) returns (o: Outcome)
      requires Valid()
      modifies items
      ensures Valid()
      ensures multiset(Contents()) == multiset(old(Contents()))
      ensures comparison.None? ==>
                o == (if size >= 2 then Fail(Argument) else Pass) &&
                (ValidComparer(traits.compare) ==> SortedBy(Contents(), traits.compare))
      ensures comparison.Some? ==>
                o == Pass && (ValidComparer(comparison.value) ==> SortedBy(Contents(), comparison.value))
      ensures items[size..] == old(items[size..])
    {
      if comparison.None? {
        o := ListHelper.Sort(items, 0, size, traits.compare);
        o := if size >= 2 then Fail(Argument) else Pass;
      } else {
        var comparer := FuncToComparer(comparison.value);
        o := ListHelper.Sort(items, 0, size, comparer);
        assert ValidComparer(comparison.value) ==> ValidComparer(comparer);
        assert ValidComparer(comparison.value) ==> SortedBy(Contents(), comparison.value) by {
          if ValidComparer(comparison.value) {
            assert forall j, k :: 0 <= j < k < size ==>
              comparison.value(Contents()[j], Contents()[k]) == comparer(Contents()[j], Contents()[k]);
          }
        }
      }
    }

    // -------------------------------------------------------------------
    // Copying out and enumerating
    // -------------------------------------------------------------------

    /** Copies the live elements into `dest` from `arrayIndex` on. `dest`
        may be the backing array itself. */
    method CopyTo(dest: array<T>, arrayIndex: int) returns (o: Outcome)
      requires Valid()
      modifies dest
      ensures Valid() && size == old(size) && items == old(items)
      ensures o.Pass? <==> 0 <= arrayIndex && arrayIndex + size <= dest.Length
      ensures arrayIndex < 0 ==> o == Fail(ArgumentOutOfRange)
      ensures 0 <= arrayIndex && arrayIndex + size > dest.Length ==> o == Fail(IndexOutOfRange)
      ensures o.Fail? ==> dest[..] == old(dest[..])
      ensures o.Pass? ==> dest[..] == old(dest[..arrayIndex]) + old(Contents()) + old(dest[arrayIndex + size..])
    {
      o := Copy(items, 0, dest, arrayIndex, size);
    }

    /** `CopyTo(array, 0)`. */
    method CopyToArray(dest: array<T>) returns (o: Outcome)
      requires Valid()
      modifies dest
      ensures Valid() && size == old(size) && items == old(items)
      ensures o == if size <= dest.Length then Pass else Fail(IndexOutOfRange)
      ensures o.Pass? ==> dest[..] == old(Contents()) + old(dest[size..])
      ensures o.Fail? ==> dest[..] == old(dest[..])
    {
      o := CopyTo(dest, 0);
    }

    /** A fresh array holding exactly the live elements. */
    method ToArray() returns (r: array<T>)
      requires Valid()
      ensures fresh(r) && r[..] == Contents()
    {
      r := NewArray(size, traits.defaultValue);
      var copied := Copy(items, 0, r, 0, size);
    }

    /** The enumerator: it walks the backing array and yields slot after
        slot while fewer than `Count` have been yielded. */
    method GetEnumerator() returns (r: seq<T>)
      requires Valid()
      ensures r == Contents()
    {
      r := [];
      var i := 0;
      var k := 0;
      while k < items.Length
        invariant 0 <= k <= items.Length
        invariant i == k <= size
        invariant r == items[..i]
      {
        if i < size {
          i := i + 1;
          r := r + [items[k]];
        } else {
          break;
        }
        k := k + 1;
      }
    }
  }

  /** The copies of `InsertRange` for another collection `c`, on a
      backing array whose first `n` slots are live and which has room for
      `|c|` more: the tail from `index` is shifted right by `|c|`, then `c`,
      copied into a temporary array, is copied into the gap. */
  method Splice<T>(items: array<T>, n: int, index: int, c: seq<T>)
    requires 0 <= index <= n && n + |c| <= items.Length
    modifies items
    ensures items[..n + |c|] == old(items[..n])[..index] + c + old(items[..n])[index..]
    ensures items[n + |c|..] == old(items[n + |c|..])
  {
    ghost var b := items[..];
    if index < n {
      MoveWithin(items, index, index + |c|, n - index);
    }
    ghost var b1 := items[..];
    var itemsToInsert := NewArrayOf(c);
    var gap := Copy(itemsToInsert, 0, items, index, |c|);
    CollectionInserted(b, b1, items[..], c, n, index);
  }

  /** The steps of `Insert` on a backing array whose first `n` slots are
      live and which has room for one more: the tail from `index` is
      shifted right by one and `item` is stored in the gap. */
  method SpliceOne<T>(items: array<T>, n: int, index: int, item: T)
    requires 0 <= index <= n < items.Length
    modifies items
    ensures items[..n + 1] == old(items[..n])[..index] + [item] + old(items[..n])[index..]
    ensures items[n + 1..] == old(items[n + 1..])
  {
    ghost var b := items[..];
    if index < n {
      MoveWithin(items, index, index + 1, n - index);
    }
    ghost var a := items[..];
    InsertedAt(b, a, n, index, item);
    items[index] := item;
    assert items[..] == a[index := item];
  }

  /** The copies of `InsertRange` for the list itself, on a backing array
      whose first `n` slots are live and which has room for `n` more: the
      tail from `index` is shifted right by `n`, then the front part and the
      shifted tail are copied into the gap. */
  method SpliceSelf<T>(items: array<T>, n: int, index: int)
    requires 0 <= index <= n && 2 * n <= items.Length
    modifies items
    ensures items[..2 * n] == old(items[..n])[..index] + old(items[..n]) + old(items[..n])[index..]
    ensures items[2 * n..] == old(items[2 * n..])
  {
    ghost var b := items[..];
    if index < n {
      MoveWithin(items, index, index + n, n - index);
    }
    ghost var b1 := items[..];
    MoveWithin(items, 0, index, index);
    ghost var b2 := items[..];
    MoveWithin(items, index + n, index * 2, n - index);
    SelfInserted(b, b1, b2, items[..], n, index);
  }

  /** `Copy` within one array with arguments that pass its checks. */
  method MoveWithin<T>(a: array<T>, si: int, di: int, n: int)
    requires 0 <= n && 0 <= si && si + n <= a.Length && 0 <= di && di + n <= a.Length
    modifies a
    ensures Moved(a[..], old(a[..]), si, old(a[..]), di, n)
  {
    var o := Copy(a, si, a, di, n);
  }

  /** A fresh array holding `c`: the temporary array the elements of a
      collection are copied into before they are inserted. */
  method NewArrayOf<T>(c: seq<T>) returns (a: array<T>)
    ensures fresh(a) && a[..] == c
  {
    a := new T[|c|](k requires 0 <= k < |c| => c[k]);
  }
}
