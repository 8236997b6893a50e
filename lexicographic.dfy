/**
 * Lexicographic order on element sequences, the order SimpleVector's
 * operator< uses: compare position by position with the element order
 * `less`; the first position where one element is less decides, and a
 * sequence that runs out first (a proper prefix) is the smaller one.
 */
module Lexicographic {

  /**
   * Lexicographic "less than", in the order the standard algorithm checks
   * things: the second sequence running out means "not less", then the first
   * running out means "less", then the two head elements decide, and heads
   * that are equivalent (neither is less) pass the decision on to the tails.
   * Whatever the element order, a proper prefix is less than the longer
   * sequence, and nothing is less than the empty sequence.
   */
  function LexLess<T>(a: seq<T>, b: seq<T>, less: (T, T) -> bool): (r: bool)
    ensures |a| < |b| && a == b[..|a|] ==> r
    ensures |b| == 0 ==> !r
    decreases |a|
  {
    if |b| == 0 then false
    else if |a| == 0 then true
    else if less(a[0], b[0]) then true
    else if less(b[0], a[0]) then false
    else
      assert |a| < |b| && a == b[..|a|] ==> a[1..] == b[1..][..|a| - 1];
      LexLess(a[1..], b[1..], less)
  }

  /** Neither element is less than the other. */
  predicate Equivalent<T>(x: T, y: T, less: (T, T) -> bool)
  {
    !less(x, y) && !less(y, x)
  }

  /**
   * Reference definition of "a is lexicographically less than b": up to
   * position k the elements are pairwise equivalent, b goes on past k, and at
   * k either a has ended or a's element is less than b's.
   */
  ghost predicate FirstDifferenceAt<T>(a: seq<T>, b: seq<T>, less: (T, T) -> bool, k: nat)
  {
    && k <= |a| && k < |b|
    && (forall i :: 0 <= i < k ==> Equivalent(a[i], b[i], less))
    && (k == |a| || less(a[k], b[k]))
  }

  ghost predicate Irreflexive<T(!new)>(less: (T, T) -> bool)
  {
    forall x :: !less(x, x)
  }

  /**
   * A strict weak order: irreflexive, transitive, and negatively transitive
   * (if x < z then any y lies above x or below z).
   */
  ghost predicate StrictWeakOrder<T(!new)>(less: (T, T) -> bool)
  {
    && Irreflexive(less)
    && (forall x, y, z :: less(x, y) && less(y, z) ==> less(x, z))
    && (forall x, y, z :: less(x, z) ==> less(x, y) || less(y, z))
  }

  /** A strict weak order in which only equal elements are equivalent. */
  ghost predicate StrictTotalOrder<T(!new)>(less: (T, T) -> bool)
  {
    StrictWeakOrder(less) && forall x, y :: x != y ==> less(x, y) || less(y, x)
  }

  /** The recursive definition agrees with the reference definition, both ways. */
  lemma {:induction false} LexLessIffFirstDifference<T>(a: seq<T>, b: seq<T>, less: (T, T) -> bool)
    ensures LexLess(a, b, less) <==> exists k: nat :: FirstDifferenceAt(a, b, less, k)
    decreases |a|
  {
    if |b| > 0 && |a| == 0 {
      assert FirstDifferenceAt(a, b, less, 0);
    } else if |b| > 0 {
      LexLessIffFirstDifference(a[1..], b[1..], less);
      if LexLess(a, b, less) {
        if less(a[0], b[0]) {
          assert FirstDifferenceAt(a, b, less, 0);
        } else {
          var k: nat :| FirstDifferenceAt(a[1..], b[1..], less, k);
          assert FirstDifferenceAt(a, b, less, k + 1) by {
            forall i | 0 <= i < k + 1
              ensures Equivalent(a[i], b[i], less)
            {
              if i > 0 {
                assert a[i] == a[1..][i - 1] && b[i] == b[1..][i - 1];
              }
            }
          }
        }
      }
      if exists k: nat :: FirstDifferenceAt(a, b, less, k) {
        var k: nat :| FirstDifferenceAt(a, b, less, k);
        if k > 0 {
          assert Equivalent(a[0], b[0], less);
          assert FirstDifferenceAt(a[1..], b[1..], less, k - 1) by {
            forall i | 0 <= i < k - 1
              ensures Equivalent(a[1..][i], b[1..][i], less)
            {
              assert a[1..][i] == a[i + 1] && b[1..][i] == b[i + 1];
            }
          }
        }
      }
    }
  }

  /** No sequence is less than itself when no element is less than itself. */
  lemma {:induction false} LexIrreflexive<T(!new)>(a: seq<T>, less: (T, T) -> bool)
    requires Irreflexive(less)
    ensures !LexLess(a, a, less)
    decreases |a|
  {
    if |a| > 0 {
      LexIrreflexive(a[1..], less);
    }
  }

  lemma {:induction false} LexTransitive<T(!new)>(a: seq<T>, b: seq<T>, c: seq<T>, less: (T, T) -> bool)
    requires StrictWeakOrder(less)
    requires LexLess(a, b, less) && LexLess(b, c, less)
    ensures LexLess(a, c, less)
    decreases |a|
  {
    if |a| > 0 {
      var x, y, z := a[0], b[0], c[0];
      if Equivalent(x, y, less) && Equivalent(y, z, less) {
        LexTransitive(a[1..], b[1..], c[1..], less);
        assert less(x, z) ==> less(x, y) || less(y, z);
        assert less(z, x) ==> less(z, y) || less(y, x);
      } else if less(x, y) && less(y, z) {
        assert less(x, z);
      } else if less(x, y) {
        assert less(x, z) || less(z, y);
      } else {
        assert less(y, x) || less(x, z);
      }
    }
  }

  lemma {:induction false} LexNegativelyTransitive<T(!new)>(a: seq<T>, b: seq<T>, c: seq<T>, less: (T, T) -> bool)
    requires StrictWeakOrder(less)
    requires LexLess(a, c, less)
    ensures LexLess(a, b, less) || LexLess(b, c, less)
    decreases |a|
  {
    if |a| > 0 && |b| > 0 {
      var x, y, z := a[0], b[0], c[0];
      if less(x, z) {
        assert less(x, y) || less(y, z);
      } else if !less(x, y) && !less(y, z) {
        assert less(y, x) ==> less(y, z) || less(z, x);
        assert less(z, y) ==> less(z, x) || less(x, y);
        LexNegativelyTransitive(a[1..], b[1..], c[1..], less);
      }
    }
  }

  /** Lexicographic order over a strict weak order is again a strict weak order. */
  lemma LexIsStrictWeakOrder<T(!new)>(less: (T, T) -> bool)
    requires StrictWeakOrder(less)
    ensures StrictWeakOrder((a: seq<T>, b: seq<T>) => LexLess(a, b, less))
  {
    var lex := (a: seq<T>, b: seq<T>) => LexLess(a, b, less);
    forall a: seq<T>
      ensures !lex(a, a)
    {
      LexIrreflexive(a, less);
    }
    forall a: seq<T>, b: seq<T>, c: seq<T> | lex(a, b) && lex(b, c)
      ensures lex(a, c)
    {
      LexTransitive(a, b, c, less);
    }
    forall a: seq<T>, b: seq<T>, c: seq<T> | lex(a, c)
      ensures lex(a, b) || lex(b, c)
    {
      LexNegativelyTransitive(a, b, c, less);
    }
  }

  /** Over a strict total order, any two sequences are equal or one is less than the other. */
  lemma {:induction false} LexTrichotomy<T(!new)>(a: seq<T>, b: seq<T>, less: (T, T) -> bool)
    requires StrictTotalOrder(less)
    ensures LexLess(a, b, less) || a == b || LexLess(b, a, less)
    decreases |a|
  {
    if |a| > 0 && |b| > 0 && a[0] == b[0] {
      LexTrichotomy(a[1..], b[1..], less);
      if a[1..] == b[1..] {
        assert a == [a[0]] + a[1..] && b == [b[0]] + b[1..];
      }
    }
  }

  /** Exactly one of a < b, a == b, b < a holds over a strict total order. */
  lemma LexExactlyOne<T(!new)>(a: seq<T>, b: seq<T>, less: (T, T) -> bool)
    ensures StrictTotalOrder(less) && LexLess(a, b, less) ==> a != b && !LexLess(b, a, less)
    ensures StrictTotalOrder(less) && !LexLess(a, b, less) && !LexLess(b, a, less) ==> a == b
  {
    if StrictTotalOrder(less) {
      LexTrichotomy(a, b, less);
      LexIrreflexive(a, less);
      if LexLess(a, b, less) && LexLess(b, a, less) {
        LexTransitive(a, b, a, less);
      }
    }
  }

  /** On integers: [1, 2] < [1, 2, 3] < [2], and [2] is not less than [1, 2]. */
  lemma IntegerExample()
    ensures LexLess([1, 2], [1, 2, 3], (x: int, y: int) => x < y)
    ensures LexLess([1, 2, 3], [2], (x: int, y: int) => x < y)
    ensures !LexLess([2], [1, 2], (x: int, y: int) => x < y)
  {
  }
}
