/**
 * The capacity policy of SimpleVector: how much storage a full vector
 * allocates when it grows, and what capacity a run of PushBack calls
 * produces.
 */
module Capacity {

  function Max(a: nat, b: nat): (r: nat)
    ensures r >= a && r >= b && (r == a || r == b)
  {
    if a >= b then a else b
  }

  /**
   * The capacity a full vector grows to in PushBack and Insert:
   * max(capacity + 1, 2 * capacity). The copying PushBack writes the same
   * policy as "1 when empty, otherwise twice as much"; the ensures clauses
   * say that the two spellings agree and that growth is strict.
   */
  function Grown(capacity: nat): (r: nat)
    ensures r > capacity
    ensures capacity == 0 ==> r == 1
    ensures capacity > 0 ==> r == 2 * capacity
  {
    Max(capacity + 1, 2 * capacity)
  }

  /** Capacity after one PushBack (or Insert) on a vector of the given size and capacity. */
  function CapacityAfterPush(size: nat, capacity: nat): (r: nat)
    requires size <= capacity
    ensures r > size
    ensures r >= capacity
    ensures size < capacity ==> r == capacity
  {
    if size == capacity then Grown(capacity) else capacity
  }

  /**
   * Capacity after n PushBack calls, starting from a vector of the given
   * size and capacity: the growth policy applied once per call.
   */
  function CapacityAfterPushes(size: nat, capacity: nat, n: nat): (r: nat)
    requires size <= capacity
    ensures r >= size + n
    ensures r >= capacity
    decreases n
  {
    if n == 0 then capacity
    else CapacityAfterPush(size + n - 1, CapacityAfterPushes(size, capacity, n - 1))
  }

  /**
   * The capacity Resize allocates: when new_size exceeds the capacity, the
   * larger of new_size and twice the capacity; otherwise the capacity stays.
   */
  function ResizeCapacity(capacity: nat, newSize: nat): (r: nat)
    ensures r >= newSize && r >= capacity
    ensures newSize <= capacity <==> r == capacity
    ensures newSize > capacity ==> r >= 2 * capacity && (r == newSize || r == 2 * capacity)
  {
    if newSize > capacity then Max(newSize, 2 * capacity) else capacity
  }

  /** The capacity Reserve leaves: only a larger request changes it. */
  function ReservedCapacity(capacity: nat, request: nat): (r: nat)
    ensures r >= capacity && r >= request
    ensures r == capacity || r == request
  {
    if request > capacity then request else capacity
  }

  /** Reserving the same amount twice is the same as reserving it once. */
  lemma ReserveIdempotent(capacity: nat, request: nat)
    ensures ReservedCapacity(ReservedCapacity(capacity, request), request)
         == ReservedCapacity(capacity, request)
  {
  }

  predicate IsPowerOfTwo(n: nat)
    decreases n
  {
    n == 1 || (n >= 2 && n % 2 == 0 && IsPowerOfTwo(n / 2))
  }

  lemma DoublePowerOfTwo(n: nat)
    requires IsPowerOfTwo(n)
    ensures IsPowerOfTwo(2 * n)
  {
  }

  /**
   * Amortised growth: after n >= 1 PushBack calls on an empty vector the
   * capacity is a power of two, at least n and less than 2 * n.
   */
  lemma {:induction false} PushesFromEmpty(n: nat)
    requires n >= 1
    ensures IsPowerOfTwo(CapacityAfterPushes(0, 0, n))
    ensures n <= CapacityAfterPushes(0, 0, n) < 2 * n
    decreases n
  {
    if n == 1 {
      assert CapacityAfterPushes(0, 0, 1) == 1;
    } else {
      PushesFromEmpty(n - 1);
      var c := CapacityAfterPushes(0, 0, n - 1);
      if n - 1 == c {
        DoublePowerOfTwo(c);
      }
    }
  }
}
