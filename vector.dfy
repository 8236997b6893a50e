/**
 * SimpleVector: a growable vector over one owned, contiguous buffer.
 *
 * The vector holds `size` live elements in `items[0..size)` of a buffer of
 * `capacity` slots. Operations either write into the buffer in place or
 * allocate a larger buffer, copy the live elements into it and install it in
 * place of the old one. Positions (the source's iterators) are indices.
 *
 * The element type must have a default value only so that fresh storage can
 * be allocated; where the vector writes "the default value of the element
 * type" into live slots, that value is passed in explicitly.
 */
module Vector {
  import opened Capacity
  import opened Sequences
  import opened Lexicographic

  /** The recoverable error of the checked accessor. */
  datatype Error = OutOfRange

  datatype Result<T> = Success(value: T) | Failure(error: Error)

  /** A request for capacity, accepted by the reserving constructor. */
  datatype ReserveProxyObj = ReserveProxyObj(capacity: nat)

  /** Sets a[lo..hi) to value; every other slot keeps its value. */
  method Fill<T>(a: array<T>, lo: nat, hi: nat, value: T)
    requires lo <= hi <= a.Length
    modifies a
    ensures forall i :: 0 <= i < a.Length ==> a[i] == if lo <= i < hi then value else old(a[i])
  {
    var i := lo;
    while i < hi
      invariant lo <= i <= hi
      invariant forall j :: 0 <= j < a.Length ==> a[j] == if lo <= j < i then value else old(a[j])
    {
      a[i] := value;
      i := i + 1;
    }
  }

  /**
   * Copies src[lo..hi) into a different buffer dst, starting at slot at;
   * every other slot of dst keeps its value.
   */
  method CopyRange<T>(src: array<T>, lo: nat, hi: nat, dst: array<T>, at: nat)
    requires src != dst
    requires lo <= hi <= src.Length && at + (hi - lo) <= dst.Length
    modifies dst
    ensures forall i :: 0 <= i < dst.Length ==>
      dst[i] == if at <= i < at + (hi - lo) then src[lo + (i - at)] else old(dst[i])
  {
    var k := 0;
    while k < hi - lo
      invariant 0 <= k <= hi - lo
      invariant forall i :: 0 <= i < dst.Length ==>
        dst[i] == if at <= i < at + k then src[lo + (i - at)] else old(dst[i])
    {
      dst[at + k] := src[lo + k];
      k := k + 1;
    }
  }

  /**
   * Shifts a[lo..hi) one slot to the right, into a[lo+1..hi+1), working from
   * the back so that nothing is overwritten before it is read; slot lo and the
   * slots outside [lo, hi] keep their values.
   */
  method ShiftRight<T>(a: array<T>, lo: nat, hi: nat)
    requires lo <= hi < a.Length
    modifies a
    ensures forall i :: 0 <= i < a.Length ==> a[i] == if lo < i <= hi then old(a[i - 1]) else old(a[i])
  {
    var k := hi;
    while k > lo
      invariant lo <= k <= hi
      invariant forall i :: 0 <= i < a.Length ==> a[i] == if k < i <= hi then old(a[i - 1]) else old(a[i])
    {
      a[k] := a[k - 1];
      k := k - 1;
    }
  }

  class SimpleVector<T(0)> {
    var size: nat
    var capacity: nat
    var items: array<T>

    /** The live elements fit in the buffer, which has exactly `capacity` slots. */
    ghost predicate Valid()
      reads this
    {
      size <= capacity && capacity == items.Length
    }

    /** The vector's value: its live elements, in order. */
    ghost function Items(): seq<T>
      reads this, items
      requires Valid()
    {
      items[..size]
    }

    /** The empty vector: no elements and no storage. */
    constructor ()
      ensures Valid() && fresh(items)
      ensures size == 0 && capacity == 0 && Items() == []
    {
      size, capacity := 0, 0;
      items := new T[0];
    }

    /**
     * A vector of n copies of value, with capacity n. With the element type's
     * default value as value, this is also the size-only constructor.
     */
    constructor Filled(n: nat, value: T)
      ensures Valid() && fresh(items)
      ensures size == n && capacity == n
      ensures Items() == seq(n, _ => value)
    {
      var a := new T[n];
      Fill(a, 0, n, value);
      size, capacity, items := n, n, a;
    }

    /** A vector holding the elements of init in order, with capacity |init|. */
    constructor FromList(init: seq<T>)
      ensures Valid() && fresh(items)
      ensures size == |init| && capacity == |init|
      ensures Items() == init
    {
      var a := new T[|init|];
      var i := 0;
      while i < |init|
        invariant 0 <= i <= |init|
        invariant a[..i] == init[..i]
      {
        a[i] := init[i];
        i := i + 1;
      }
      size, capacity, items := |init|, |init|, a;
    }

    /**
     * The copy constructor as the source writes it: it takes over the other
     * vector's capacity but allocates only as many slots as the other vector
     * has elements. When the other vector has spare capacity the copy's
     * capacity exceeds its buffer, so the copy is not a valid vector.
     */
    constructor CopyAsWritten(other: SimpleVector<T>)
      requires other.Valid()
      ensures fresh(items)
      ensures size == other.size && capacity == other.capacity && items.Length == other.size
      ensures items[..size] == other.Items()
      ensures Valid() <==> other.size == other.capacity
    {
      var a := new T[other.size];
      CopyRange(other.items, 0, other.size, a, 0);
      size, capacity, items := other.size, other.capacity, a;
    }

    /** The copy constructor as intended: a deep copy whose capacity is the other's size. */
    constructor Copy(other: SimpleVector<T>)
      requires other.Valid()
      ensures Valid() && fresh(items)
      ensures size == other.size && capacity == other.size
      ensures Items() == other.Items()
    {
      var a := new T[other.size];
      CopyRange(other.items, 0, other.size, a, 0);
      size, capacity, items := other.size, other.size, a;
    }

    /**
     * The move constructor: takes over the other vector's size, capacity and
     * buffer, and leaves the other vector empty with no storage.
     */
    constructor Moved(moved: SimpleVector<T>)
      requires moved.Valid()
      modifies moved
      ensures Valid() && moved.Valid()
      ensures size == old(moved.size) && capacity == old(moved.capacity) && items == old(moved.items)
      ensures Items() == old(moved.Items())
      ensures moved.size == 0 && moved.capacity == 0 && moved.Items() == []
      ensures fresh(moved.items) && moved.items.Length == 0
    {
      size, capacity, items := moved.size, moved.capacity, moved.items;
      new;
      moved.size, moved.capacity := 0, 0;
      moved.items := new T[0];
    }

    /** The reserving constructor: no elements, and storage for the requested capacity. */
    constructor Reserving(reserved: ReserveProxyObj)
      ensures Valid() && fresh(items)
      ensures size == 0 && capacity == reserved.capacity && Items() == []
    {
      size, capacity := 0, reserved.capacity;
      items := new T[reserved.capacity];
    }

    /**
     * Grows the storage to exactly newCapacity slots when that is more than
     * the current capacity; otherwise does nothing. The elements never change.
     */
    method Reserve(newCapacity: nat)
      requires Valid()
      modifies this
      ensures Valid()
      ensures size == old(size) && Items() == old(Items())
      ensures capacity == ReservedCapacity(old(capacity), newCapacity)
      ensures if newCapacity > old(capacity) then fresh(items) else items == old(items)
    {
      if newCapacity > capacity {
        var grown := new T[newCapacity];
        CopyRange(items, 0, size, grown, 0);
        capacity, items := newCapacity, grown;
      }
    }

    /** Appends item (the copying overload): a full vector first reserves twice its capacity, or 1. */
    method PushBack(item: T)
      requires Valid()
      modifies this, items
      ensures Valid()
      ensures Items() == old(Items()) + [item]
      ensures capacity == CapacityAfterPush(old(size), old(capacity))
      ensures if old(size) == old(capacity) then fresh(items) else items == old(items)
    {
      if size == capacity {
        Reserve(if capacity == 0 then 1 else capacity * 2);
      }
      items[size] := item;
      size := size + 1;
    }

    /** Appends item (the moving overload): a full vector moves its elements into max(c + 1, 2c) slots. */
    method PushBackMove(item: T)
      requires Valid()
      modifies this, items
      ensures Valid()
      ensures Items() == old(Items()) + [item]
      ensures capacity == CapacityAfterPush(old(size), old(capacity))
      ensures if old(size) == old(capacity) then fresh(items) else items == old(items)
    {
      if size == capacity {
        var grown := new T[Grown(capacity)];
        CopyRange(items, 0, size, grown, 0);
        capacity, items := Grown(capacity), grown;
      }
      items[size] := item;
      size := size + 1;
    }

    /**
     * Inserts value before position index (index == size appends) and
     * returns the position of the inserted element. A full vector grows by
     * the same policy as PushBack; otherwise the tail is shifted in place.
     * The value is the one the caller passed, even when it was read from
     * this vector's own elements.
     */
    method Insert(index: nat, value: T) returns (pos: nat)
      requires Valid() && index <= size
      modifies this, items
      ensures Valid()
      ensures pos == index
      ensures Items() == Inserted(old(Items()), index, value)
      ensures capacity == CapacityAfterPush(old(size), old(capacity))
      ensures if old(size) == old(capacity) then fresh(items) else items == old(items)
    {
      if size == capacity {
        var grown := new T[Grown(capacity)];
        CopyRange(items, 0, index, grown, 0);
        grown[index] := value;
        CopyRange(items, index, size, grown, index + 1);
        capacity, items := Grown(capacity), grown;
      } else {
        ShiftRight(items, index, size);
        items[index] := value;
      }
      size := size + 1;
      pos := index;
    }

    /**
     * Insert as the source runs it when the value to insert is the vector's
     * own element at position j, passed by reference. A vector with room
     * shifts its tail first and reads the element afterwards, so when j lies
     * past index it inserts the element that was at j - 1. A full vector
     * reads the element from the old buffer, which is still intact.
     */
    method InsertElementAsWritten(index: nat, j: nat) returns (pos: nat)
      requires Valid() && index <= size && j < size
      modifies this, items
      ensures Valid()
      ensures pos == index
      ensures Items() == Inserted(old(Items()), index,
        if old(size) < old(capacity) && index < j then old(Items())[j - 1] else old(Items())[j])
      ensures capacity == CapacityAfterPush(old(size), old(capacity))
    {
      if size == capacity {
        var grown := new T[Grown(capacity)];
        CopyRange(items, 0, index, grown, 0);
        grown[index] := items[j];
        CopyRange(items, index, size, grown, index + 1);
        capacity, items := Grown(capacity), grown;
      } else {
        ShiftRight(items, index, size);
        items[index] := items[j];
      }
      size := size + 1;
      pos := index;
    }

    /** Drops the last element; the vector must not be empty. Storage is untouched. */
    method PopBack()
      requires Valid() && size > 0
      modifies this
      ensures Valid()
      ensures Items() == old(Items())[..old(size) - 1]
      ensures capacity == old(capacity) && items == old(items)
    {
      size := size - 1;
    }

    /**
     * Removes the element at position index by shifting the tail one slot to
     * the left, and returns the position now holding the element that
     * followed the removed one.
     */
    method Erase(index: nat) returns (pos: nat)
      requires Valid() && index < size
      modifies this, items
      ensures Valid()
      ensures pos == index
      ensures Items() == Erased(old(Items()), index)
      ensures capacity == old(capacity) && items == old(items)
    {
      var i := index + 1;
      while i < size
        invariant size == old(size) && capacity == old(capacity) && items == old(items)
        invariant index + 1 <= i <= size
        invariant forall j :: 0 <= j < items.Length ==>
          items[j] == if index <= j < i - 1 then old(items[j + 1]) else old(items[j])
      {
        items[i - 1] := items[i];
        i := i + 1;
      }
      size := size - 1;
      pos := index;
    }

    /** Exchanges size, capacity and buffer with other; no element is touched. */
    method Swap(other: SimpleVector<T>)
      requires Valid() && other.Valid()
      modifies this, other
      ensures Valid() && other.Valid()
      ensures size == old(other.size) && capacity == old(other.capacity) && items == old(other.items)
      ensures other.size == old(size) && other.capacity == old(capacity) && other.items == old(items)
      ensures Items() == old(other.Items()) && other.Items() == old(Items())
    {
      size, other.size := other.size, size;
      capacity, other.capacity := other.capacity, capacity;
      items, other.items := other.items, items;
    }

    /** Number of elements. */
    function GetSize(): (r: nat)
      reads this, items
      requires Valid()
      ensures r == |Items()|
    {
      size
    }

    /** Number of slots in the storage. */
    function GetCapacity(): (r: nat)
      reads this, items
      requires Valid()
      ensures r == items.Length && r >= |Items()|
    {
      capacity
    }

    function IsEmpty(): (r: bool)
      reads this, items
      requires Valid()
      ensures r <==> Items() == []
    {
      size == 0
    }

    /** Unchecked read access: the index must be in range. */
    function Get(index: nat): (r: T)
      reads this, items
      requires Valid() && index < size
      ensures r == Items()[index]
    {
      items[index]
    }

    /** Unchecked write access: the index must be in range. */
    method Set(index: nat, value: T)
      requires Valid() && index < size
      modifies items
      ensures Valid()
      ensures Items() == old(Items())[index := value]
    {
      items[index] := value;
    }

    /** Checked read access: OutOfRange exactly when index >= size. */
    function At(index: nat): (r: Result<T>)
      reads this, items
      requires Valid()
      ensures r.Failure? <==> index >= |Items()|
      ensures r.Failure? ==> r.error == OutOfRange
      ensures r.Success? ==> r.value == Items()[index]
    {
      if index >= size then Failure(OutOfRange) else Success(items[index])
    }

    /** Drops every element; capacity and storage are kept. */
    method Clear()
      requires Valid()
      modifies this
      ensures Valid()
      ensures Items() == []
      ensures capacity == old(capacity) && items == old(items)
    {
      size := 0;
    }

    /**
     * Sets the size to newSize: the first min(size, newSize) elements stay and
     * the positions from the old size up to newSize get defaultValue. When
     * newSize exceeds the capacity the storage first grows to
     * max(newSize, 2 * capacity).
     */
    method Resize(newSize: nat, defaultValue: T)
      requires Valid()
      modifies this, items
      ensures Valid()
      ensures Items() == Resized(old(Items()), newSize, defaultValue)
      ensures capacity == ResizeCapacity(old(capacity), newSize)
      ensures if newSize > old(capacity) then fresh(items) else items == old(items)
    {
      if newSize > capacity {
        var newCapacity := Max(newSize, 2 * capacity);
        var grown := new T[newCapacity];
        CopyRange(items, 0, size, grown, 0);
        capacity, items := newCapacity, grown;
      }
      if newSize > size {
        Fill(items, size, newSize, defaultValue);
      }
      size := newSize;
    }
  }

  /**
   * operator==: the same vector, or the same number of elements and equal
   * elements pairwise. Element equality is value equality, so this is
   * equality of the two vectors' values.
   */
  function Equal<T(0, ==)>(lhs: SimpleVector<T>, rhs: SimpleVector<T>): (r: bool)
    reads lhs, lhs.items, rhs, rhs.items
    requires lhs.Valid() && rhs.Valid()
    ensures r <==> lhs.Items() == rhs.Items()
  {
    lhs == rhs || (lhs.size == rhs.size && lhs.items[..lhs.size] == rhs.items[..rhs.size])
  }

  function NotEqual<T(0, ==)>(lhs: SimpleVector<T>, rhs: SimpleVector<T>): (r: bool)
    reads lhs, lhs.items, rhs, rhs.items
    requires lhs.Valid() && rhs.Valid()
    ensures r <==> lhs.Items() != rhs.Items()
  {
    !Equal(lhs, rhs)
  }

  /**
   * operator<: lexicographic comparison of the elements under the element
   * order less. The vectors agree up to some position k where lhs has ended
   * or holds the smaller element, and rhs goes on.
   */
  function Less<T(0)>(lhs: SimpleVector<T>, rhs: SimpleVector<T>, less: (T, T) -> bool): (r: bool)
    reads lhs, lhs.items, rhs, rhs.items
    requires lhs.Valid() && rhs.Valid()
    ensures r <==> exists k: nat :: FirstDifferenceAt(lhs.Items(), rhs.Items(), less, k)
  {
    LexLessIffFirstDifference(lhs.Items(), rhs.Items(), less);
    LexLess(lhs.items[..lhs.size], rhs.items[..rhs.size], less)
  }

  /** operator>: rhs < lhs; over a strict total order, neither less nor equal. */
  function Greater<T(0, !new)>(lhs: SimpleVector<T>, rhs: SimpleVector<T>, less: (T, T) -> bool): (r: bool)
    reads lhs, lhs.items, rhs, rhs.items
    requires lhs.Valid() && rhs.Valid()
    ensures StrictTotalOrder(less) ==>
      (r <==> !LexLess(lhs.Items(), rhs.Items(), less) && lhs.Items() != rhs.Items())
  {
    LexExactlyOne(lhs.Items(), rhs.Items(), less);
    Less(rhs, lhs, less)
  }

  /** operator<=: not lhs > rhs; over a strict total order, less or equal. */
  function LessEq<T(0, !new)>(lhs: SimpleVector<T>, rhs: SimpleVector<T>, less: (T, T) -> bool): (r: bool)
    reads lhs, lhs.items, rhs, rhs.items
    requires lhs.Valid() && rhs.Valid()
    ensures StrictTotalOrder(less) ==>
      (r <==> LexLess(lhs.Items(), rhs.Items(), less) || lhs.Items() == rhs.Items())
  {
    !Greater(lhs, rhs, less)
  }

  /** operator>=: not lhs < rhs; over a strict total order, greater or equal. */
  function GreaterEq<T(0, !new)>(lhs: SimpleVector<T>, rhs: SimpleVector<T>, less: (T, T) -> bool): (r: bool)
    reads lhs, lhs.items, rhs, rhs.items
    requires lhs.Valid() && rhs.Valid()
    ensures StrictTotalOrder(less) ==>
      (r <==> LexLess(rhs.Items(), lhs.Items(), less) || lhs.Items() == rhs.Items())
  {
    LexExactlyOne(lhs.Items(), rhs.Items(), less);
    !Less(lhs, rhs, less)
  }
}
