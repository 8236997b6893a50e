/**
 * Clients of SimpleVector: the behaviours a user of the vector relies on,
 * proved from the contracts of the class alone.
 */
module Scenarios {
  import opened Capacity
  import opened Sequences
  import opened Vector

  /** Appending 5, 7 and 9 to an empty vector gives capacities 1, 2 and 4. */
  method AppendFromEmpty() returns (sizes: seq<nat>, capacities: seq<nat>, contents: seq<int>)
    ensures sizes == [1, 2, 3] && capacities == [1, 2, 4]
    ensures contents == [5, 7, 9]
  {
    var v := new SimpleVector<int>();
    v.PushBack(5);
    sizes, capacities := [v.GetSize()], [v.GetCapacity()];
    v.PushBack(7);
    sizes, capacities := sizes + [v.GetSize()], capacities + [v.GetCapacity()];
    v.PushBack(9);
    sizes, capacities := sizes + [v.GetSize()], capacities + [v.GetCapacity()];
    contents := v.items[..v.size];
  }

  /**
   * Appending n elements keeps their order and gives the capacity obtained by
   * applying the growth policy once per append.
   */
  method PushAll<T(0)>(v: SimpleVector<T>, xs: seq<T>)
    requires v.Valid()
    modifies v, v.items
    ensures v.Valid()
    ensures v.Items() == old(v.Items()) + xs
    ensures v.capacity == CapacityAfterPushes(old(v.size), old(v.capacity), |xs|)
  {
    var i := 0;
    while i < |xs|
      invariant 0 <= i <= |xs|
      invariant v.Valid()
      invariant v.items == old(v.items) || fresh(v.items)
      invariant v.Items() == old(v.Items()) + xs[..i]
      invariant v.capacity == CapacityAfterPushes(old(v.size), old(v.capacity), i)
    {
      v.PushBack(xs[i]);
      assert xs[..i + 1] == xs[..i] + [xs[i]];
      i := i + 1;
    }
  }

  /** A vector reserved for 10 elements takes 10 appends without reallocating. */
  method ReservedAppends() returns (capacity: nat, reallocated: bool)
    ensures capacity == 10 && !reallocated
  {
    var v := new SimpleVector<int>.Reserving(ReserveProxyObj(10));
    var storage := v.items;
    var i := 0;
    while i < 10
      invariant 0 <= i <= 10
      invariant v.Valid() && v.size == i && v.capacity == 10 && v.items == storage
    {
      v.PushBack(i);
      i := i + 1;
    }
    capacity, reallocated := v.GetCapacity(), v.items != storage;
  }

  /** Checked access at 100 on a three-element vector fails and leaves the vector as it was. */
  method CheckedAccessOutOfRange() returns (r: Result<int>, size: nat)
    ensures r == Failure(OutOfRange) && size == 3
  {
    var v := new SimpleVector<int>.FromList([1, 2, 3]);
    r := v.At(100);
    size := v.GetSize();
  }

  /** Reading back a vector built from a list gives the list, in order. */
  method ListRoundTrip<T(0)>(init: seq<T>) returns (read: seq<T>)
    ensures read == init
  {
    var v := new SimpleVector<T>.FromList(init);
    read := [];
    var i := 0;
    while i < v.GetSize()
      invariant 0 <= i <= |init| && v.Valid() && v.Items() == init
      invariant read == init[..i]
    {
      read := read + [v.Get(i)];
      i := i + 1;
    }
  }

  /** A copy compares equal to the vector it was copied from. */
  method CopyIsEqual<T(0, ==)>(v: SimpleVector<T>) returns (equal: bool)
    requires v.Valid()
    ensures equal
  {
    var c := new SimpleVector<T>.Copy(v);
    equal := Equal(c, v);
  }

  /**
   * The copy constructor as written, applied to a vector of three elements
   * and capacity four, records capacity four over a buffer of three slots:
   * the next PushBack on the copy would write past the end of its buffer.
   */
  method CopyOverstatesCapacity() returns (capacity: nat, storage: nat)
    ensures capacity == 4 && storage == 3
  {
    var v := new SimpleVector<int>();
    v.PushBack(1);
    v.PushBack(2);
    v.PushBack(3);
    var c := new SimpleVector<int>.CopyAsWritten(v);
    capacity, storage := c.capacity, c.items.Length;
  }

  /**
   * Inserting, at the front of [1, 2, 3] with capacity 4, the vector's own
   * element at position 2 (the value 3): as written, the tail is shifted
   * before the element is read, so 2 is inserted; the corrected Insert
   * inserts 3.
   */
  method InsertOwnElement() returns (asWritten: seq<int>, corrected: seq<int>)
    ensures asWritten == [2, 1, 2, 3]
    ensures corrected == [3, 1, 2, 3]
  {
    var v := new SimpleVector<int>();
    v.PushBack(1);
    v.PushBack(2);
    v.PushBack(3);
    var w := new SimpleVector<int>.Copy(v);
    w.Reserve(4);
    var _ := v.InsertElementAsWritten(0, 2);
    asWritten := v.items[..v.size];
    var x := w.Get(2);
    var _ := w.Insert(0, x);
    corrected := w.items[..w.size];
  }

  /** Erasing position i and inserting the erased value there again restores the vector. */
  method EraseThenInsertRestores<T(0)>(v: SimpleVector<T>, i: nat)
    requires v.Valid() && i < v.size
    modifies v, v.items
    ensures v.Valid() && v.Items() == old(v.Items())
  {
    var x := v.Get(i);
    var _ := v.Erase(i);
    var _ := v.Insert(i, x);
    EraseThenInsert(old(v.Items()), i);
  }

  /** Inserting at the end gives the same elements and capacity as PushBack. */
  method InsertAtEndIsPushBack<T(0)>(v: SimpleVector<T>, w: SimpleVector<T>, x: T)
    requires v.Valid() && w.Valid() && v.items != w.items && v != w
    requires v.Items() == w.Items() && v.capacity == w.capacity
    modifies v, v.items, w, w.items
    ensures v.Valid() && w.Valid()
    ensures v.Items() == w.Items() && v.capacity == w.capacity
  {
    var _ := v.Insert(v.size, x);
    w.PushBack(x);
    InsertAtEndIsAppend(old(v.Items()), x);
  }

  /** Reserving the same amount twice leaves what reserving it once leaves. */
  method ReserveTwice<T(0)>(v: SimpleVector<T>, k: nat)
    requires v.Valid()
    modifies v
    ensures v.Valid() && v.Items() == old(v.Items()) && v.size == old(v.size)
    ensures v.capacity == ReservedCapacity(old(v.capacity), k)
  {
    v.Reserve(k);
    v.Reserve(k);
    ReserveIdempotent(old(v.capacity), k);
  }
}
