/** Sequences of list operations and what they add up to: each operation
    meets its partner (the indexer's getter after its setter or after
    `Add`, `RemoveAt` after `Insert`, `AddRange` as repeated appends). */
module Clients {
  import opened Errors
  import opened CustomCollections

  /** Reading back a slot just written yields the written value; an index
      outside the live range is refused by both accessors alike. */
  method SetThenGet<T(!new)>(list: CustomList<T>, index: int, value: T) returns (r: Result<T>)
    requires list.Valid()
    modifies list.items
    ensures r == if 0 <= index < list.Count() then Ok(value) else Err(ArgumentOutOfRange)
  {
    var o := list.Set(index, value);
    r := list.Get(index);
  }

  /** After `Add(item)` the last live element is `item`. */
  method AddThenGetLast<T(!new)>(list: CustomList<T>, item: T) returns (r: Result<T>)
    requires list.Valid()
    modifies list, list.items
    ensures list.Valid() && r == Ok(item)
  {
    list.Add(item);
    r := list.Get(list.Count() - 1);
  }

  /** A snapshot taken with `ToArray` is not the array `TrimExcess` leaves
      behind: writing through the list afterwards leaves the snapshot as it
      was. */
  method SnapshotSurvivesTrim<T(!new)>(list: CustomList<T>, value: T) returns (t: array<T>)
    requires list.Valid()
    modifies list, list.items
    ensures fresh(t) && t[..] == old(list.Contents())
    ensures list.Valid() && list.Capacity() == list.Count()
    ensures list.Contents() == if 0 < |old(list.Contents())| then old(list.Contents())[0 := value] else old(list.Contents())
  {
    t := list.ToArray();
    list.TrimExcess();
    var o := list.Set(0, value);
  }

  /** Inserting at a valid index and then removing at that index leaves the
      live elements as they were. */
  method InsertThenRemoveAt<T(!new)>(list: CustomList<T>, index: int, item: T)
    requires list.Valid() && 0 <= index <= list.Count()
    modifies list, list.items
    ensures list.Valid() && list.Contents() == old(list.Contents())
  {
    ghost var before := list.Contents();
    var inserted := list.Insert(index, item);
    ghost var after := list.Contents();
    var removed := list.RemoveAt(index);
    InsertedThenRemoved(before, index, item);
    assert after == before[..index] + [item] + before[index..];
    assert list.Contents() == after[..index] + after[index + 1..];
  }

  /** Appending a collection with `AddRange` gives the same live elements as
      appending its elements one by one. */
  method AddRangeAsAppends<T(!new)>(list: CustomList<T>, other: CustomList<T>, c: seq<T>)
    requires list.Valid() && other.Valid() && list != other && list.items != other.items
    requires other.Contents() == list.Contents()
    modifies list, list.items, other, other.items
    ensures list.Valid() && other.Valid()
    ensures list.Contents() == other.Contents() == old(list.Contents()) + c
  {
    var o := list.AddRange(Collection(c));
    other.AppendAll(c);
  }

  /** Inserting an empty collection at a valid index changes nothing: the
      backing array, every one of its slots and the count stay as they
      were, so even the searches that read past the count see no change. */
  method InsertEmptyChangesNothing<T(!new)>(list: CustomList<T>, index: int) returns (o: Outcome)
    requires list.Valid() && 0 <= index <= list.Count()
    modifies list, list.items
    ensures list.Valid() && o == Pass
    ensures list.items == old(list.items) && list.size == old(list.size)
    ensures list.items[..] == old(list.items[..])
  {
    o := list.InsertRange(index, Collection([]));
    assert list.items[..] == list.items[..list.size] + list.items[list.size..];
  }
}
