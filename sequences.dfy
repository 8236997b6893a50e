/**
 * The element sequence a SimpleVector holds, items[0..size), and how each
 * editing operation changes it. The class methods are proved against these
 * functions; the lemmas here relate the operations to each other.
 */
module Sequences {

  /** The sequence after Insert places x at position i. */
  function Inserted<T>(s: seq<T>, i: nat, x: T): (r: seq<T>)
    requires i <= |s|
    ensures |r| == |s| + 1 && r[i] == x
    ensures forall j :: 0 <= j < i ==> r[j] == s[j]
    ensures forall j :: i < j < |r| ==> r[j] == s[j - 1]
  {
    s[..i] + [x] + s[i..]
  }

  /** The sequence after Erase removes the element at position i. */
  function Erased<T>(s: seq<T>, i: nat): (r: seq<T>)
    requires i < |s|
    ensures |r| == |s| - 1
    ensures forall j :: 0 <= j < i ==> r[j] == s[j]
    ensures forall j :: i <= j < |r| ==> r[j] == s[j + 1]
  {
    s[..i] + s[i + 1..]
  }

  /**
   * The sequence after Resize to n: the first min(|s|, n) elements are kept
   * and positions from |s| up to n hold the default value.
   */
  function Resized<T>(s: seq<T>, n: nat, default: T): (r: seq<T>)
    ensures |r| == n
    ensures forall j :: 0 <= j < n && j < |s| ==> r[j] == s[j]
    ensures forall j :: |s| <= j < n ==> r[j] == default
  {
    if n <= |s| then s[..n] else s + seq(n - |s|, _ => default)
  }

  /** Inserting at the end is appending. */
  lemma InsertAtEndIsAppend<T>(s: seq<T>, x: T)
    ensures Inserted(s, |s|, x) == s + [x]
  {
  }

  /** Erasing position i and inserting the erased value there again restores the sequence. */
  lemma EraseThenInsert<T>(s: seq<T>, i: nat)
    requires i < |s|
    ensures Inserted(Erased(s, i), i, s[i]) == s
  {
  }

  /** Inserting at position i and erasing that position again restores the sequence. */
  lemma InsertThenErase<T>(s: seq<T>, i: nat, x: T)
    requires i <= |s|
    ensures Erased(Inserted(s, i, x), i) == s
  {
  }
}
