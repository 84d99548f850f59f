/**
 The key comparator of a tree. The tree never looks at keys directly: every
 decision is taken on the sign of `cmp(a, b)`, negative when `a` orders before
 `b`, positive when it orders after, and zero when the two compare equal.

 `ValidComparator` states what a comparator must satisfy for the tree to
 behave: swapping the arguments swaps the sign, and "does not order after" is
 transitive. Together these make the comparator a total preorder. The
 quantifier only fires on explicit mentions of `Consistent`, so the lemmas
 below are the one way the rest of the model uses it.
 */
module Order {

  /** One instance of the comparator axioms, for the three keys `a`, `b`, `c`. */
  ghost predicate Consistent<K>(cmp: (K, K) -> int, a: K, b: K, c: K) {
    && (cmp(a, b) < 0 <==> cmp(b, a) > 0)
    && (cmp(a, b) <= 0 && cmp(b, c) <= 0 ==> cmp(a, c) <= 0)
  }

  ghost predicate ValidComparator<K(!new)>(cmp: (K, K) -> int) {
    forall a, b, c :: Consistent(cmp, a, b, c)
  }

  lemma Flip<K(!new)>(cmp: (K, K) -> int, a: K, b: K)
    requires ValidComparator(cmp)
    ensures cmp(a, b) < 0 <==> cmp(b, a) > 0
    ensures cmp(a, b) > 0 <==> cmp(b, a) < 0
    ensures cmp(a, b) == 0 <==> cmp(b, a) == 0
  {
    assert Consistent(cmp, a, b, a);
    assert Consistent(cmp, b, a, b);
  }

  lemma Reflexive<K(!new)>(cmp: (K, K) -> int, a: K)
    requires ValidComparator(cmp)
    ensures cmp(a, a) == 0
  {
    assert Consistent(cmp, a, a, a);
  }

  lemma LeLe<K(!new)>(cmp: (K, K) -> int, a: K, b: K, c: K)
    requires ValidComparator(cmp)
    requires cmp(a, b) <= 0 && cmp(b, c) <= 0
    ensures cmp(a, c) <= 0
  {
    assert Consistent(cmp, a, b, c);
  }

  lemma LtLe<K(!new)>(cmp: (K, K) -> int, a: K, b: K, c: K)
    requires ValidComparator(cmp)
    requires cmp(a, b) < 0 && cmp(b, c) <= 0
    ensures cmp(a, c) < 0
  {
    Flip(cmp, a, b);
    Flip(cmp, a, c);
    assert Consistent(cmp, b, c, a);
  }

  /** Keys that compare equal are interchangeable on either side of a comparison. */
  lemma EqualLeft<K(!new)>(cmp: (K, K) -> int, a: K, b: K, c: K)
    requires ValidComparator(cmp)
    requires cmp(a, b) == 0
    ensures cmp(a, c) < 0 <==> cmp(b, c) < 0
    ensures cmp(a, c) > 0 <==> cmp(b, c) > 0
  {
    Flip(cmp, a, b);
    Flip(cmp, a, c);
    Flip(cmp, b, c);
    assert Consistent(cmp, a, b, c);
    assert Consistent(cmp, b, a, c);
    assert Consistent(cmp, c, a, b);
    assert Consistent(cmp, c, b, a);
  }
}
