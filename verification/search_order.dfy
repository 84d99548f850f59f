/**
 How the three BST disciplines relate to each other and to the in-order
 sequence. For the weak and the strict discipline the BST property is exactly
 "the in-order sequence is sorted"; the ties-right discipline that insertion
 keeps is stronger than sortedness, because it also says on which side of a
 node its equal keys sit.
 */
module SearchOrder {
  import opened Order
  import opened Nodes

  /** In the weak and strict disciplines, "goes right of" is "goes left of" seen from the other side. */
  lemma Mirror<K(!new)>(cmp: (K, K) -> int, ties: Ties, x: K, k: K)
    requires ValidComparator(cmp) && ties != TiesRight
    ensures RightOf(ties, cmp, x, k) <==> LeftOf(ties, cmp, k, x)
  {
    Flip(cmp, x, k);
  }

  lemma LeftOfTrans<K(!new)>(cmp: (K, K) -> int, ties: Ties, a: K, b: K, c: K)
    requires ValidComparator(cmp)
    requires LeftOf(ties, cmp, a, b) && LeftOf(ties, cmp, b, c)
    ensures LeftOf(ties, cmp, a, c)
  {
    if ties == TiesEitherSide {
      LeLe(cmp, a, b, c);
    } else {
      LtLe(cmp, a, b, c);
    }
  }

  /** A sequence split around one key is sorted exactly when both parts are and the key separates them. */
  lemma SortedAround<K(!new)>(l: seq<K>, k: K, r: seq<K>, cmp: (K, K) -> int, ties: Ties)
    requires ValidComparator(cmp)
    ensures Sorted(l + [k] + r, cmp, ties) <==>
      && Sorted(l, cmp, ties)
      && Sorted(r, cmp, ties)
      && (forall x | x in l :: LeftOf(ties, cmp, x, k))
      && (forall x | x in r :: LeftOf(ties, cmp, k, x))
  {
    var s := l + [k] + r;
    assert s[|l|] == k;
    if Sorted(s, cmp, ties) {
      forall i, j | 0 <= i < j < |l| ensures LeftOf(ties, cmp, l[i], l[j]) {
        assert s[i] == l[i] && s[j] == l[j];
      }
      forall i, j | 0 <= i < j < |r| ensures LeftOf(ties, cmp, r[i], r[j]) {
        assert s[|l| + 1 + i] == r[i] && s[|l| + 1 + j] == r[j];
      }
      forall x | x in l ensures LeftOf(ties, cmp, x, k) {
        var i :| 0 <= i < |l| && l[i] == x;
        assert s[i] == x;
      }
      forall x | x in r ensures LeftOf(ties, cmp, k, x) {
        var j :| 0 <= j < |r| && r[j] == x;
        assert s[|l| + 1 + j] == x;
      }
    }
    if && Sorted(l, cmp, ties)
       && Sorted(r, cmp, ties)
       && (forall x | x in l :: LeftOf(ties, cmp, x, k))
       && (forall x | x in r :: LeftOf(ties, cmp, k, x))
    {
      forall i, j | 0 <= i < j < |s| ensures LeftOf(ties, cmp, s[i], s[j]) {
        if j < |l| {
          assert s[i] == l[i] && s[j] == l[j];
        } else if i > |l| {
          assert s[i] == r[i - |l| - 1] && s[j] == r[j - |l| - 1];
        } else if j == |l| {
          assert s[i] == l[i];
        } else if i == |l| {
          assert s[j] == r[j - |l| - 1];
        } else {
          assert s[i] == l[i] && s[j] == r[j - |l| - 1];
          LeftOfTrans(cmp, ties, s[i], k, s[j]);
        }
      }
    }
  }

  /** For the weak and strict disciplines, the BST property is a sorted in-order sequence. */
  lemma {:induction false} BstIffSorted<K(!new)>(n: TreeNode<K>, cmp: (K, K) -> int, ties: Ties)
    requires ValidComparator(cmp) && ties != TiesRight
    ensures IsBst(n, cmp, ties) <==> Sorted(InOrder(n), cmp, ties)
  {
    match n
    case Nil =>
    case Node(l, k, r) =>
      BstIffSorted(l, cmp, ties);
      BstIffSorted(r, cmp, ties);
      SortedAround(InOrder(l), k, InOrder(r), cmp, ties);
      KeysMembers(l);
      KeysMembers(r);
      forall x | x in InOrder(r) ensures RightOf(ties, cmp, x, k) <==> LeftOf(ties, cmp, k, x) {
        Mirror(cmp, ties, x, k);
      }
  }

  /** Removing one element keeps a sequence sorted. */
  lemma {:induction false} SortedRemove<K>(s: seq<K>, i: nat, t: seq<K>, cmp: (K, K) -> int, ties: Ties)
    requires RemovedAt(s, i, t) && Sorted(s, cmp, ties)
    ensures Sorted(t, cmp, ties)
  {
    forall a, b | 0 <= a < b < |t| ensures LeftOf(ties, cmp, t[a], t[b]) {
      var a' := if a < i then a else a + 1;
      var b' := if b < i then b else b + 1;
      assert t[a] == s[a'] && t[b] == s[b'];
    }
  }
}
