# SimpleVector in Dafny

A model of `SimpleVector<Type>`. This is a growable vector whose elements live in
one owned, contiguous buffer. It has three pieces of state: the number of live
elements `size`, the number of allocated slots `capacity`, and the buffer
`items`. The model is a Dafny class `Vector.SimpleVector` with those three fields
(the buffer is an `array<T>`). Its object invariant `Valid()` says that
`size <= capacity` and that the buffer has exactly `capacity` slots. Its value
`Items()` is `items[..size]`.

Every method is proved against a function of the old value:

- appending gives `old + [x]`;
- `Insert` gives `Sequences.Inserted`, `Erase` gives `Sequences.Erased`, and
  `Resize` gives `Sequences.Resized`;
- the capacity each method leaves is given by the growth policy in module
  `Capacity`.

The lemmas beside these functions relate operations to each other, for example
erasing and re-inserting, or inserting at the end versus appending. They also
prove the capacity bound behind amortised O(1) append: after n appends to an
empty vector the capacity is a power of two in [n, 2n). The total number of
element copies is not bounded here. The free comparison operators are functions
over two vectors. `operator<` is lexicographic order (module `Lexicographic`).
Its recursive definition is proved equal to a first-difference definition, and
it is proved to be a strict weak order whenever the element order is one.
Module `Scenarios` holds client methods. They prove behaviours a user of the vector
relies on from the class contracts alone: the capacities 1, 2, 4 when appending to an
empty vector, a reserved vector that does not reallocate, and checked access
out of range.

Modelling choices:

- Positions (the source's iterators) are indices. `Insert` and `Erase` take and
  return an index.
- The element type must have a default value (`T(0)`), so that fresh storage
  can be allocated as the buffer type does. The source writes `Type()` into live
  slots in the size constructor and in `Resize`. Dafny has no per-type
  `Type()` value, so there that value is passed in as a parameter.
- The constructors `SimpleVector(size)` and `SimpleVector(size, value)` have
  the same code apart from the value. They are one constructor, `Filled`.
  `SimpleVector(size)` is `Filled(size, Type())`.
- The copying and the moving `Insert` have the same effect on values, so they
  are one method. Its value is taken by value; inserting the vector's own
  element, which the source reads by reference, is `InsertElementAsWritten`. The two `PushBack` overloads are kept apart. They spell the
  growth policy differently: `c == 0 ? 1 : 2c` in the copying one and
  `max(c + 1, 2c)` in the moving one. `Capacity.Grown` proves that the two
  spellings agree.
- Element equality is Dafny value equality. Element order is a parameter
  `less`. The identity shortcut in `operator==` therefore never changes its
  result, and `Vector.Equal` is equality of the two vectors' values.
- The insert and erase positions are only `assert`ed in the source, so they are
  preconditions here, not recoverable errors. The same goes for the non-empty
  check of `PopBack` and the bound of `operator[]`. Only `At` reports
  `OutOfRange`, as a `Result`.
- Sizes and capacities are unbounded naturals.

## Model

| member | source | states |
|---|---|---|
| `Capacity.Grown` | simple-vector/simple_vector.h:88-110 | growth of a full vector is strict; `max(c+1, 2c)` is 1 for an empty vector and `2c` otherwise, so both PushBack overloads grow alike |
| `Capacity.CapacityAfterPush` | simple-vector/simple_vector.h:88-110 | one append leaves the capacity alone unless the vector was full; the result always exceeds the old size |
| `Capacity.CapacityAfterPushes` | simple-vector/simple_vector.h:86-110 | the capacity after n appends is at least the old size plus n, and never below the old capacity |
| `Capacity.PushesFromEmpty` | simple-vector/simple_vector.h:86-91 | after n >= 1 appends to an empty vector the capacity is a power of two in [n, 2n): the doubling bound behind amortised O(1) append |
| `Capacity.ResizeCapacity` | simple-vector/simple_vector.h:239-247 | Resize keeps the capacity iff `new_size <= capacity`; otherwise the capacity becomes `new_size` or `2 * capacity`, whichever is larger |
| `Capacity.ReservedCapacity` | simple-vector/simple_vector.h:176-183 | Reserve leaves the larger of the current capacity and the request |
| `Capacity.ReserveIdempotent` | simple-vector/simple_vector.h:176-183 | reserving k twice leaves the same capacity as reserving it once |
| `Sequences.Inserted` | simple-vector/simple_vector.h:117-154 | after inserting at i, the value is at i, earlier elements are unchanged, later ones are shifted right by one, and the length grows by one |
| `Sequences.Erased` | simple-vector/simple_vector.h:163-173 | after erasing at i, earlier elements are unchanged, later ones are shifted left by one, and the length shrinks by one |
| `Sequences.Resized` | simple-vector/simple_vector.h:239-256 | after resizing to n, the length is n, the first min(size, n) elements are kept, and positions from the old size up to n hold the default value |
| `Sequences.InsertAtEndIsAppend` | simple-vector/simple_vector.h:117-134 | inserting at position size gives the same sequence as appending |
| `Sequences.EraseThenInsert` | simple-vector/simple_vector.h:117-173 | erasing at i and inserting the erased value at i restores the sequence |
| `Sequences.InsertThenErase` | simple-vector/simple_vector.h:117-173 | inserting at i and erasing at i restores the sequence |
| `Lexicographic.LexLessIffFirstDifference` | simple-vector/simple_vector.h:292-297 | lexicographic less holds iff there is a position k up to which the elements are pairwise equivalent, where the right operand goes on, and where the left operand has ended or holds a smaller element (both directions) |
| `Lexicographic.LexLess` | simple-vector/simple_vector.h:292-297 | the standard lexicographic comparison, checked in its order (right operand ended, left operand ended, heads, tails); whatever the element order, a proper prefix is less and nothing is less than the empty sequence |
| `Lexicographic.LexIrreflexive` | simple-vector/simple_vector.h:292-297 | no sequence is less than itself when the element order is irreflexive |
| `Lexicographic.LexTransitive` | simple-vector/simple_vector.h:292-297 | lexicographic less is transitive over a strict weak element order |
| `Lexicographic.LexNegativelyTransitive` | simple-vector/simple_vector.h:292-297 | if a < c then a < b or b < c, for any b, over a strict weak element order |
| `Lexicographic.LexIsStrictWeakOrder` | simple-vector/simple_vector.h:292-297 | lexicographic order over a strict weak element order is itself a strict weak order |
| `Lexicographic.LexTrichotomy` | simple-vector/simple_vector.h:292-297 | over a strict total element order, two sequences are equal or one is less than the other |
| `Lexicographic.LexExactlyOne` | simple-vector/simple_vector.h:292-297 | over a strict total element order, at most one of a < b, a == b, b < a holds, and when neither is less the two are equal |
| `Lexicographic.IntegerExample` | simple-vector/simple_vector.h:292-297 | on integers, [1, 2] < [1, 2, 3] < [2], and [2] is not less than [1, 2] |
| `Vector.Fill` | simple-vector/simple_vector.h:249-253 | the default-filling loop sets exactly the slots in [lo, hi) to the value and leaves every other slot as it was |
| `Vector.CopyRange` | simple-vector/simple_vector.h:176-183 | copying a range into a new buffer places `src[lo..hi)` at the target offset and leaves every other target slot as it was |
| `Vector.ShiftRight` | simple-vector/simple_vector.h:127-130 | the backward copy moves `a[lo..hi)` to `a[lo+1..hi+1)` without losing an element, and leaves the other slots as they were |
| `Vector.SimpleVector.constructor` | simple-vector/simple_vector.h:24 | the default vector has size 0, capacity 0 and no elements |
| `Vector.SimpleVector.Filled` | simple-vector/simple_vector.h:26-41 | size = capacity = n, and every element equals the given value (the default value for the size-only constructor) |
| `Vector.SimpleVector.FromList` | simple-vector/simple_vector.h:43-47 | size = capacity = the list's length, and the elements are the list in order |
| `Vector.SimpleVector.CopyAsWritten` | simple-vector/simple_vector.h:49-55 | the copy has the other vector's elements and capacity but only `other.size` slots, so it is a valid vector iff the other had no spare capacity |
| `Vector.SimpleVector.Copy` | simple-vector/simple_vector.h:49-55 | corrected copy: a fresh buffer with the same elements and capacity equal to the element count |
| `Vector.SimpleVector.Moved` | simple-vector/simple_vector.h:57-62 | takes over the source's size, capacity and buffer; the source is left with size 0, capacity 0 and an empty buffer |
| `Vector.ReserveProxyObj` | simple-vector/simple_vector.h:12-16 | a capacity request: a value holding the number of slots to reserve |
| `Vector.SimpleVector.Reserving` | simple-vector/simple_vector.h:64-66 | size 0 and capacity equal to the reserved amount, with storage of that many slots |
| `Vector.SimpleVector.Reserve` | simple-vector/simple_vector.h:175-183 | a larger request reallocates to exactly that capacity; a smaller one changes nothing; size and elements never change |
| `Vector.SimpleVector.PushBack` | simple-vector/simple_vector.h:86-95 | the elements become old + [item]; capacity changes only when the vector was full, to 1 from 0 and doubled otherwise |
| `Vector.SimpleVector.PushBackMove` | simple-vector/simple_vector.h:97-110 | same effect as PushBack, growing a full vector to `max(c+1, 2c)` slots |
| `Vector.SimpleVector.Insert` | simple-vector/simple_vector.h:112-154 | corrected Insert: for index in [0, size], the elements become `old[..index] + [value] + old[index..]` for the value the caller passed and the returned position is index; the capacity grows by the append policy only when the vector was full, and otherwise the buffer is reused |
| `Vector.SimpleVector.InsertElementAsWritten` | simple-vector/simple_vector.h:117-134 | Insert of the vector's own element at j, as the code runs it: with room, the tail is shifted before the element is read, so for j > index the element that was at j - 1 is inserted; a full vector inserts the element at j |
| `Vector.SimpleVector.PopBack` | simple-vector/simple_vector.h:156-160 | on a non-empty vector, drops the last element; capacity and buffer are unchanged |
| `Vector.SimpleVector.Erase` | simple-vector/simple_vector.h:162-173 | for index < size, the elements become `old[..index] + old[index+1..]` and the returned position is index; capacity and buffer are unchanged |
| `Vector.SimpleVector.Swap` | simple-vector/simple_vector.h:185-190 | exchanges size, capacity and buffer between the two vectors; each one's elements become the other's old elements |
| `Vector.SimpleVector.GetSize` | simple-vector/simple_vector.h:192-193 | the number of elements |
| `Vector.SimpleVector.GetCapacity` | simple-vector/simple_vector.h:195-196 | the number of slots in the buffer, never less than the number of elements |
| `Vector.SimpleVector.IsEmpty` | simple-vector/simple_vector.h:198-199 | true iff the vector has no elements |
| `Vector.SimpleVector.Get` | simple-vector/simple_vector.h:207-211 | for an index below size, the element at that position |
| `Vector.SimpleVector.Set` | simple-vector/simple_vector.h:201-205 | writing through the unchecked reference replaces exactly that element |
| `Vector.SimpleVector.At` | simple-vector/simple_vector.h:213-231 | fails with OutOfRange exactly when index >= size, and otherwise gives the element at index; the vector is unchanged either way |
| `Vector.SimpleVector.Clear` | simple-vector/simple_vector.h:233-234 | no elements afterwards; capacity and buffer are unchanged |
| `Vector.SimpleVector.Resize` | simple-vector/simple_vector.h:236-256 | the elements become the first min(size, new_size) old ones, followed by default values up to new_size; the capacity follows `ResizeCapacity` |
| `Vector.Equal` | simple-vector/simple_vector.h:278-284 | the same object, or equal sizes with pairwise equal elements: exactly when the two vectors hold equal sequences |
| `Vector.NotEqual` | simple-vector/simple_vector.h:286-290 | true exactly when the two vectors hold different sequences |
| `Vector.Less` | simple-vector/simple_vector.h:292-297 | true exactly when some position k has pairwise equivalent elements before it, lies inside rhs, and has lhs ended or holding a smaller element there |
| `Vector.Greater` | simple-vector/simple_vector.h:305-309 | defined as rhs < lhs; over a strict total element order, true exactly when lhs is neither less than nor equal to rhs |
| `Vector.LessEq` | simple-vector/simple_vector.h:299-303 | defined as not lhs > rhs; over a strict total element order, less or equal |
| `Vector.GreaterEq` | simple-vector/simple_vector.h:311-315 | defined as not lhs < rhs; over a strict total element order, greater or equal |
| `Scenarios.AppendFromEmpty` | simple-vector/simple_vector.h:86-95 | appending 5, 7, 9 to an empty vector gives sizes 1, 2, 3, capacities 1, 2, 4, and elements [5, 7, 9] |
| `Scenarios.PushAll` | simple-vector/simple_vector.h:86-95 | appending a list keeps its order, and the capacity follows the growth policy once per append |
| `Scenarios.ReservedAppends` | simple-vector/simple_vector.h:64-95 | a vector reserved for 10 takes 10 appends with capacity 10 throughout and the same buffer |
| `Scenarios.CheckedAccessOutOfRange` | simple-vector/simple_vector.h:213-221 | `At(100)` on a three-element vector gives OutOfRange, and the size is still 3 |
| `Scenarios.ListRoundTrip` | simple-vector/simple_vector.h:43-47 | reading a vector built from a list at positions 0 to size-1 gives the list back |
| `Scenarios.CopyIsEqual` | simple-vector/simple_vector.h:278-284 | a copy compares equal to its original |
| `Scenarios.CopyOverstatesCapacity` | simple-vector/simple_vector.h:49-55 | the as-written copy of a vector with 3 elements and capacity 4 records capacity 4 over 3 slots |
| `Scenarios.InsertOwnElement` | simple-vector/simple_vector.h:117-134 | inserting the own element v[2] at the front of [1, 2, 3] with capacity 4 gives [2, 1, 2, 3] as written and [3, 1, 2, 3] corrected |
| `Scenarios.EraseThenInsertRestores` | simple-vector/simple_vector.h:117-173 | Erase(i) followed by Insert(i, old element) restores the vector |
| `Scenarios.InsertAtEndIsPushBack` | simple-vector/simple_vector.h:88-134 | Insert at position size and PushBack give equal elements and equal capacities from equal starting vectors |
| `Scenarios.ReserveTwice` | simple-vector/simple_vector.h:176-183 | Reserve(k) twice leaves the size and elements unchanged, and the capacity that one Reserve(k) leaves |

## Left out

- Copy and move assignment (`operator=`, lines 68-84) are left out. They build a temporary with the copy or move constructor and then swap. Their behaviour is the constructors' followed by `Swap`, so copy assignment inherits the copy constructor's defect (see Findings).
- The free function `Reserve(size_t)` is left out. It only wraps a number into `ReserveProxyObj`, and the reserving constructor takes that value directly.
- Iterators (`begin`, `end`, `cbegin`, `cend`) are not modelled as pointers. Positions are indices, and iterator invalidation is not modelled.
- The buffer type `ArrayPtr` is not part of this model. Its role is taken by a Dafny array, and its `swap` is a reference swap.
- Copying versus moving an element is not distinguished. Both are value assignment, and moved-from elements are not modelled.
- Strong exception safety when allocation fails, and `noexcept`, are not modelled. Allocation always succeeds here.
- `size_t` arithmetic is not modelled. Sizes and capacities are unbounded, so `capacity_ * 2` cannot wrap.
- Vector.SimpleVector.Valid does not say that two vectors never share a buffer. Methods that change the buffer name it in their frame instead.
- Vector.SimpleVector.At: writing through the reference the non-const `At` returns is not a separate operation; it is `Set` once `At` has succeeded.
- Vector.SimpleVector.PushBack: the item is taken by value. In the source, pushing the vector's own element onto a full vector reads that element after `Reserve` has freed the old buffer (lines 90-93), which is undefined behaviour. Freed memory has no counterpart in Dafny, so the contract describes only an item that is not one of the vector's own elements, or a vector that is not full.
- Vector.SimpleVector.PushBackMove: the item is taken by value. In the source, pushing the vector's own element onto a full vector moves it into the new buffer and then reads it from the old buffer after that buffer has been freed (lines 99-108), which is undefined behaviour. The contract describes only an item that is not one of the vector's own elements, or a vector that is not full.
- Vector.SimpleVector.Insert: the value is taken by value. This is the corrected behaviour. What the source does when the value is the vector's own element is modelled by `InsertElementAsWritten` (see Findings).
- Vector.Greater: its contract characterises the result only for a strict total element order. For other element orders it is only defined as `rhs < lhs`.
- Vector.LessEq: its contract characterises the result only for a strict total element order. For other element orders it is only defined as `!(lhs > rhs)`.
- Vector.GreaterEq: its contract characterises the result only for a strict total element order. For other element orders it is only defined as `!(lhs < rhs)`.

## Findings

The copy constructor takes the other vector's `capacity_` but allocates only `other.size_` slots (lines 52-53). Everywhere else the source allocates exactly `capacity_` slots: in the constructors (lines 29, 37, 45, 66) and on every reallocation (lines 100, 121, 141, 178, 241). `PushBack` relies on this, because it writes slot `size_` whenever `size_ < capacity_` (lines 89-93). So the intended copy has as many slots as its capacity. The model follows the code in `CopyAsWritten`. `Copy` is the corrected constructor: its capacity is the other vector's size, which is the number of slots it allocates.

`Insert` takes its value by reference. A vector with room shifts its tail with `copy_backward` (line 128) before it reads `value` (line 129). When `value` is one of the vector's own elements past the insertion point, the element inserted is the one that sat just before it. The model follows the code in `InsertElementAsWritten`. `Insert` is the corrected method: it inserts the value the caller passed, which is what the full-vector branch (lines 120-126) already does.

| source | as written | input that shows it | evidently intended | confidence | as-written member | corrected member |
|---|---|---|---|---|---|---|
| simple-vector/simple_vector.h:50-55 | capacity is set to the other vector's capacity, but only the other vector's size in slots is allocated | copy a vector built by PushBack of 1, 2, 3 (size 3, capacity 4): the copy has capacity 4 over 3 slots, so its next PushBack sees no need to grow and writes slot 3 of a 3-slot buffer (`Scenarios.CopyOverstatesCapacity`) | the capacity equals the number of slots allocated, as in every other constructor and reallocation (lines 29, 37, 45, 66, 100, 121, 141, 178, 241); the copy's capacity is then the other vector's size | high; not executed | `Vector.SimpleVector.CopyAsWritten` | `Vector.SimpleVector.Copy` |
| simple-vector/simple_vector.h:127-130 | with room left, the tail is shifted before the value is read, so a value that refers to the vector's own element past the insertion point is read after it has moved | on [1, 2, 3] with capacity 4, `Insert(begin(), v[2])` gives [2, 1, 2, 3] instead of [3, 1, 2, 3] (`Scenarios.InsertOwnElement`) | the inserted element equals the value passed, as in the full-vector branch (lines 120-126) | high; not executed | `Vector.SimpleVector.InsertElementAsWritten` | `Vector.SimpleVector.Insert` |
