/**
 * The comparison operators of `SingleLinkedList<Type>`: `==` and `!=` compare
 * sizes and then the elements pairwise (`std::equal`), `<` is
 * `std::lexicographical_compare` under the element type's `operator<`, and
 * `<=`, `>` and `>=` are defined from `<` by swapping and negating.
 *
 * The element type's `operator<` is the parameter `less`. What the operators
 * promise about orderings holds when `less` is a strict total order.
 */
module ListComparison {
  import opened NodeChain
  import opened LinkedList

  // ---------------------------------------------------------------------
  // The algorithms on element sequences

  /**
   * `std::lexicographical_compare`: walks `b`; `a` is less when it runs out
   * first or when, at the first pair that is not equivalent, its element is
   * the smaller one.
   */
  ghost predicate Lexicographic<T(!new)>(a: seq<T>, b: seq<T>, less: (T, T) -> bool)
    decreases |b|
  {
    if |b| == 0 then false
    else if |a| == 0 || less(a[0], b[0]) then true
    else if less(b[0], a[0]) then false
    else Lexicographic(a[1..], b[1..], less)
  }

  /** Neither element is less than the other. */
  ghost predicate Equivalent<T(!new)>(x: T, y: T, less: (T, T) -> bool)
  {
    !less(x, y) && !less(y, x)
  }

  /**
   * The first `k` pairs are equivalent, and at index `k` either `a` has ended
   * while `b` goes on or the element of `a` is less than that of `b`.
   */
  ghost predicate DecidedAt<T(!new)>(a: seq<T>, b: seq<T>, less: (T, T) -> bool, k: nat)
  {
    k <= |a| && k < |b| &&
    (forall i :: 0 <= i < k ==> Equivalent(a[i], b[i], less)) &&
    (k == |a| || less(a[k], b[k]))
  }

  /** `less` is irreflexive, transitive and relates every two different elements. */
  ghost predicate StrictTotalOrder<T(!new)>(less: (T, T) -> bool)
  {
    (forall x :: !less(x, x)) &&
    (forall x, y, z :: less(x, y) && less(y, z) ==> less(x, z)) &&
    (forall x, y :: x != y ==> less(x, y) || less(y, x))
  }

  // ---------------------------------------------------------------------
  // What the algorithms compute

  /** `std::lexicographical_compare` is true exactly when a deciding index exists. */
  lemma {:induction false} LexicographicIff<T(!new)>(a: seq<T>, b: seq<T>, less: (T, T) -> bool)
    ensures Lexicographic(a, b, less) <==> exists k: nat :: DecidedAt(a, b, less, k)
    decreases |b|
  {
    if |b| == 0 {
    } else if |a| == 0 || less(a[0], b[0]) {
      assert DecidedAt(a, b, less, 0);
    } else if less(b[0], a[0]) {
      forall k: nat ensures !DecidedAt(a, b, less, k) {
        assert !Equivalent(a[0], b[0], less);
      }
    } else {
      LexicographicIff(a[1..], b[1..], less);
      if Lexicographic(a, b, less) {
        var k: nat :| DecidedAt(a[1..], b[1..], less, k);
        assert DecidedAt(a, b, less, k + 1);
      } else {
        forall k: nat ensures !DecidedAt(a, b, less, k) {
          if k > 0 {
            assert DecidedAt(a, b, less, k) ==> DecidedAt(a[1..], b[1..], less, k - 1);
          }
        }
      }
    }
  }

  /** Under a strict total order, equivalent elements are equal. */
  lemma EquivalentIsEqual<T(!new)>(x: T, y: T, less: (T, T) -> bool)
    requires StrictTotalOrder(less)
    ensures Equivalent(x, y, less) <==> x == y
  {
  }

  /** No sequence is less than itself. */
  lemma {:induction false} LexicographicIrreflexive<T(!new)>(a: seq<T>, less: (T, T) -> bool)
    requires StrictTotalOrder(less)
    ensures !Lexicographic(a, a, less)
    decreases |a|
  {
    if |a| > 0 {
      LexicographicIrreflexive(a[1..], less);
    }
  }

  /** Lexicographic order is transitive. */
  lemma {:induction false} LexicographicTransitive<T(!new)>(a: seq<T>, b: seq<T>, c: seq<T>, less: (T, T) -> bool)
    requires StrictTotalOrder(less)
    requires Lexicographic(a, b, less) && Lexicographic(b, c, less)
    ensures Lexicographic(a, c, less)
    decreases |c|
  {
    if |a| > 0 && !less(a[0], c[0]) {
      EquivalentIsEqual(a[0], b[0], less);
      EquivalentIsEqual(b[0], c[0], less);
      LexicographicTransitive(a[1..], b[1..], c[1..], less);
    }
  }

  /** Exactly one of `a < b`, `a == b` and `b < a` holds. */
  lemma {:induction false} LexicographicTrichotomy<T(!new)>(a: seq<T>, b: seq<T>, less: (T, T) -> bool)
    requires StrictTotalOrder(less)
    ensures Lexicographic(a, b, less) || a == b || Lexicographic(b, a, less)
    ensures !(Lexicographic(a, b, less) && Lexicographic(b, a, less))
    ensures a == b ==> !Lexicographic(a, b, less)
    decreases |a|
  {
    if a == b {
      LexicographicIrreflexive(a, less);
    } else if |a| > 0 && |b| > 0 && !less(a[0], b[0]) && !less(b[0], a[0]) {
      EquivalentIsEqual(a[0], b[0], less);
      LexicographicTrichotomy(a[1..], b[1..], less);
      assert a == [a[0]] + a[1..] && b == [b[0]] + b[1..];
    }
  }

  /** A proper prefix comes first, whatever the element order. */
  lemma {:induction false} LexicographicPrefix<T(!new)>(a: seq<T>, b: seq<T>, less: (T, T) -> bool)
    requires |a| < |b| && a == b[..|a|]
    ensures Lexicographic(a, b, less)
    decreases |a|
  {
    if |a| > 0 {
      LexicographicPrefix(a[1..], b[1..], less);
    }
  }

  // ---------------------------------------------------------------------
  // The operators on lists

  /**
   * `operator==`: a list equals itself; lists of different sizes differ;
   * otherwise the two lists are walked side by side from `begin`.
   */
  method Equal<T(0, ==)>(lhs: SingleLinkedList<T>, rhs: SingleLinkedList<T>) returns (r: bool)
    requires lhs.Valid() && rhs.Valid()
    ensures r <==> lhs.Contents == rhs.Contents
  {
    if lhs == rhs {
      return true;
    }
    if lhs.GetSize() != rhs.GetSize() {
      return false;
    }
    ghost var i: nat := 0;
    var it1, it2 := lhs.Begin(), rhs.Begin();
    while it1 != lhs.End()
      invariant i + 1 <= |lhs.Nodes| && it1 == lhs.PositionAt(i + 1) && it2 == rhs.PositionAt(i + 1)
      invariant lhs.Contents[..i] == rhs.Contents[..i]
      decreases |lhs.Nodes| - i
    {
      lhs.DerefAt(i + 1);
      rhs.DerefAt(i + 1);
      lhs.NextAdvances(i + 1);
      rhs.NextAdvances(i + 1);
      if Deref(it1) != Deref(it2) {
        return false;
      }
      assert lhs.Contents[..i + 1] == lhs.Contents[..i] + [Deref(it1)];
      assert rhs.Contents[..i + 1] == rhs.Contents[..i] + [Deref(it2)];
      it1, it2 := Next(it1), Next(it2);
      i := i + 1;
    }
    assert lhs.Contents == lhs.Contents[..i] && rhs.Contents == rhs.Contents[..i];
    r := true;
  }

  /** `operator!=`: the negation of `==`. */
  method NotEqual<T(0, ==)>(lhs: SingleLinkedList<T>, rhs: SingleLinkedList<T>) returns (r: bool)
    requires lhs.Valid() && rhs.Valid()
    ensures r <==> lhs.Contents != rhs.Contents
  {
    var equal := Equal(lhs, rhs);
    r := !equal;
  }

  /**
   * `operator<`: walks both lists from `begin` until the end of `rhs`, as
   * `std::lexicographical_compare` does.
   */
  method LessThan<T(0, !new)>(lhs: SingleLinkedList<T>, rhs: SingleLinkedList<T>, less: (T, T) -> bool) returns (r: bool)
    requires lhs.Valid() && rhs.Valid()
    ensures r == Lexicographic(lhs.Contents, rhs.Contents, less)
    ensures r <==> exists k: nat :: DecidedAt(lhs.Contents, rhs.Contents, less, k)
  {
    LexicographicIff(lhs.Contents, rhs.Contents, less);
    ghost var i: nat := 0;
    var it1, it2 := lhs.Begin(), rhs.Begin();
    while it2 != rhs.End()
      invariant i + 1 <= |lhs.Nodes| && i + 1 <= |rhs.Nodes|
      invariant it1 == lhs.PositionAt(i + 1) && it2 == rhs.PositionAt(i + 1)
      invariant Lexicographic(lhs.Contents, rhs.Contents, less) ==
        Lexicographic(lhs.Contents[i..], rhs.Contents[i..], less)
      decreases |rhs.Nodes| - i
    {
      rhs.DerefAt(i + 1);
      rhs.NextAdvances(i + 1);
      if it1 == lhs.End() {
        return true;
      }
      lhs.DerefAt(i + 1);
      lhs.NextAdvances(i + 1);
      if less(Deref(it1), Deref(it2)) {
        return true;
      }
      if less(Deref(it2), Deref(it1)) {
        return false;
      }
      assert lhs.Contents[i..][1..] == lhs.Contents[i + 1..];
      assert rhs.Contents[i..][1..] == rhs.Contents[i + 1..];
      it1, it2 := Next(it1), Next(it2);
      i := i + 1;
    }
    r := false;
  }

  /** `operator>`: `rhs < lhs`; under a strict total order it excludes `lhs < rhs` and equality. */
  method GreaterThan<T(0, !new)>(lhs: SingleLinkedList<T>, rhs: SingleLinkedList<T>, less: (T, T) -> bool) returns (r: bool)
    requires lhs.Valid() && rhs.Valid()
    ensures r == Lexicographic(rhs.Contents, lhs.Contents, less)
    ensures StrictTotalOrder(less) && r ==>
      !Lexicographic(lhs.Contents, rhs.Contents, less) && lhs.Contents != rhs.Contents
  {
    r := LessThan(rhs, lhs, less);
    if StrictTotalOrder(less) {
      LexicographicTrichotomy(lhs.Contents, rhs.Contents, less);
    }
  }

  /** `operator<=`: not `lhs > rhs`; under a strict total order, `lhs < rhs` or equal. */
  method LessOrEqual<T(0, !new)>(lhs: SingleLinkedList<T>, rhs: SingleLinkedList<T>, less: (T, T) -> bool) returns (r: bool)
    requires lhs.Valid() && rhs.Valid()
    ensures r == !Lexicographic(rhs.Contents, lhs.Contents, less)
    ensures StrictTotalOrder(less) ==>
      (r <==> Lexicographic(lhs.Contents, rhs.Contents, less) || lhs.Contents == rhs.Contents)
  {
    var greater := GreaterThan(lhs, rhs, less);
    r := !greater;
    if StrictTotalOrder(less) {
      LexicographicTrichotomy(lhs.Contents, rhs.Contents, less);
    }
  }

  /** `operator>=`: not `lhs < rhs`; under a strict total order, `rhs < lhs` or equal. */
  method GreaterOrEqual<T(0, !new)>(lhs: SingleLinkedList<T>, rhs: SingleLinkedList<T>, less: (T, T) -> bool) returns (r: bool)
    requires lhs.Valid() && rhs.Valid()
    ensures r == !Lexicographic(lhs.Contents, rhs.Contents, less)
    ensures StrictTotalOrder(less) ==>
      (r <==> Lexicographic(rhs.Contents, lhs.Contents, less) || lhs.Contents == rhs.Contents)
  {
    var lessThan := LessThan(lhs, rhs, less);
    r := !lessThan;
    if StrictTotalOrder(less) {
      LexicographicTrichotomy(lhs.Contents, rhs.Contents, less);
    }
  }
}
