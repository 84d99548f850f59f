/**
 Properties of the tree operations that relate several calls or need the
 comparator to be valid: where insertion puts a key, that search finds the
 shallowest equal key exactly when one exists, that the maximum is the
 greatest key, that transplant and deletion keep the search order, and that
 every tree built by inserts and deletes stays a search tree.
 */
module TreeProperties {
  import opened Order
  import opened Nodes
  import opened SearchOrder
  import opened Rendering
  import opened BinarySearchTree

  /** The invariant of every tree reachable through the public operations. */
  ghost predicate ValidTree<K(!new)>(t: Tree<K>) {
    ValidComparator(t.compare) && IsBst(t.root, t.compare, TiesEitherSide)
  }

  // ------------------------------------------------------------------- paths

  lemma {:induction false} SubtreeAtCons<K>(n: TreeNode<K>, d: Dir, p: Path)
    requires n.Node?
    ensures SubtreeAt(n, [d] + p) == SubtreeAt(Child(n, d), p)
  {
    assert ([d] + p)[0] == d && ([d] + p)[1..] == p;
  }

  /** Every key of a tree sits at some node path. */
  lemma {:induction false} KeyHasPath<K>(n: TreeNode<K>, x: K) returns (p: Path)
    requires x in Keys(n)
    ensures IsNodePath(n, p) && SubtreeAt(n, p).key == x
  {
    match n
    case Node(l, k, r) =>
      if x == k {
        p := [];
      } else if x in Keys(l) {
        var q := KeyHasPath(l, x);
        SubtreeAtCons(n, Left, q);
        p := [Left] + q;
      } else {
        var q := KeyHasPath(r, x);
        SubtreeAtCons(n, Right, q);
        p := [Right] + q;
      }
  }

  // ------------------------------------------------------------------- depth

  /** No node lies deeper than the depth: every node path is shorter than it. */
  lemma {:induction false} NodePathWithinDepth<K>(n: TreeNode<K>, p: Path)
    requires IsNodePath(n, p)
    ensures |p| < MaxDepth(n)
    decreases p
  {
    if p != [] {
      NodePathWithinDepth(Child(n, p[0]), p[1..]);
    }
  }

  /** The depth is reached: some node lies exactly `MaxDepth(n) - 1` steps below the top. */
  lemma {:induction false} DeepestPath<K>(n: TreeNode<K>) returns (p: Path)
    requires n.Node?
    ensures IsNodePath(n, p) && |p| + 1 == MaxDepth(n)
  {
    var l, r := n.left, n.right;
    if MaxDepth(l) > MaxDepth(r) {
      var q := DeepestPath(l);
      SubtreeAtCons(n, Left, q);
      p := [Left] + q;
    } else if r.Node? {
      var q := DeepestPath(r);
      SubtreeAtCons(n, Right, q);
      p := [Right] + q;
    } else {
      p := [];
    }
  }

  // --------------------------------------------------------------- insertion

  /** Insertion moves no existing node: every node path of `n` still leads to the same key. */
  lemma {:induction false} InsertKeepsNodes<K>(n: TreeNode<K>, x: K, cmp: (K, K) -> int, p: Path)
    requires IsNodePath(n, p)
    ensures IsNodePath(InsertNode(n, x, cmp), p)
    ensures SubtreeAt(InsertNode(n, x, cmp), p).key == SubtreeAt(n, p).key
    decreases p
  {
    if p != [] {
      var r := InsertNode(n, x, cmp);
      InsertKeepsNodes(Child(n, p[0]), x, cmp, p[1..]);
      assert Child(r, p[0]) == InsertNode(Child(n, p[0]), x, cmp) || Child(r, p[0]) == Child(n, p[0]);
    }
  }

  /** The new key is linked in as a leaf at an empty slot below an existing node (or as the root). */
  lemma {:induction false} InsertLinksLeaf<K>(n: TreeNode<K>, x: K, cmp: (K, K) -> int) returns (p: Path)
    ensures SubtreeAt(n, p).Nil?
    ensures SubtreeAt(InsertNode(n, x, cmp), p) == Node(Nil, x, Nil)
    ensures p == [] || IsNodePath(n, p[..|p| - 1])
  {
    match n
    case Nil =>
      p := [];
    case Node(l, k, r) =>
      var d := if cmp(x, k) < 0 then Left else Right;
      var c := Child(n, d);
      var q := InsertLinksLeaf(c, x, cmp);
      p := [d] + q;
      SubtreeAtCons(n, d, q);
      SubtreeAtCons(InsertNode(n, x, cmp), d, q);
      if q != [] {
        assert p[..|p| - 1] == [d] + q[..|q| - 1];
        SubtreeAtCons(n, d, q[..|q| - 1]);
      } else {
        assert p[..|p| - 1] == [];
      }
  }

  /**
   In the in-order sequence the new key goes after every key that does not
   order after it and before every key that does: equal keys end up to its
   left, as "ties go right" promises.
   */
  lemma {:induction false} InsertPosition<K(!new)>(n: TreeNode<K>, x: K, cmp: (K, K) -> int) returns (i: nat)
    requires ValidComparator(cmp) && IsBst(n, cmp, TiesEitherSide)
    ensures Placed(InOrder(n), InOrder(InsertNode(n, x, cmp)), x, cmp, i)
    decreases n, 1
  {
    if n.Nil? {
      i := 0;
    } else if cmp(x, n.key) < 0 {
      i := InsertPositionLeft(n, x, cmp);
    } else {
      i := InsertPositionRight(n, x, cmp);
    }
  }

  lemma {:induction false} InsertPositionLeft<K(!new)>(n: TreeNode<K>, x: K, cmp: (K, K) -> int) returns (i: nat)
    requires ValidComparator(cmp) && IsBst(n, cmp, TiesEitherSide)
    requires n.Node? && cmp(x, n.key) < 0
    ensures Placed(InOrder(n), InOrder(InsertNode(n, x, cmp)), x, cmp, i)
    decreases n, 0
  {
    WeakSides(n, cmp);
    var L, k, R := InOrder(n.left), n.key, InOrder(n.right);
    i := InsertPosition(n.left, x, cmp);
    var L' := InOrder(InsertNode(n.left, x, cmp));
    assert InOrder(InsertNode(n, x, cmp)) == L' + [k] + R;
    PlaceLeft(L, L', k, R, x, cmp, i);
  }

  lemma {:induction false} InsertPositionRight<K(!new)>(n: TreeNode<K>, x: K, cmp: (K, K) -> int) returns (i: nat)
    requires ValidComparator(cmp) && IsBst(n, cmp, TiesEitherSide)
    requires n.Node? && cmp(x, n.key) >= 0
    ensures Placed(InOrder(n), InOrder(InsertNode(n, x, cmp)), x, cmp, i)
    decreases n, 0
  {
    WeakSides(n, cmp);
    var L, k, R := InOrder(n.left), n.key, InOrder(n.right);
    var i' := InsertPosition(n.right, x, cmp);
    var R' := InOrder(InsertNode(n.right, x, cmp));
    assert InOrder(InsertNode(n, x, cmp)) == L + [k] + R';
    PlaceRight(L, k, R, R', x, cmp, i');
    i := |L| + 1 + i';
  }

  lemma WeakSides<K>(n: TreeNode<K>, cmp: (K, K) -> int)
    requires n.Node? && IsBst(n, cmp, TiesEitherSide)
    ensures IsBst(n.left, cmp, TiesEitherSide) && IsBst(n.right, cmp, TiesEitherSide)
    ensures forall y | y in InOrder(n.left) :: cmp(y, n.key) <= 0
    ensures forall y | y in InOrder(n.right) :: cmp(y, n.key) >= 0
  {
    KeysInOrder(n.left);
    KeysInOrder(n.right);
    forall y | y in InOrder(n.left) ensures cmp(y, n.key) <= 0 {
      assert y in Keys(n.left);
    }
    forall y | y in InOrder(n.right) ensures cmp(y, n.key) >= 0 {
      assert y in Keys(n.right);
    }
  }

  /** `t` is `s` with `x` put at index `i`, after the keys not ordering after `x` and before the rest. */
  ghost predicate Placed<K>(s: seq<K>, t: seq<K>, x: K, cmp: (K, K) -> int, i: nat) {
    && i <= |s|
    && t == s[..i] + [x] + s[i..]
    && (forall j | 0 <= j < i :: cmp(s[j], x) <= 0)
    && (forall j | i <= j < |s| :: cmp(s[j], x) > 0)
  }

  lemma PlaceLeft<K(!new)>(L: seq<K>, L': seq<K>, k: K, R: seq<K>, x: K, cmp: (K, K) -> int, i: nat)
    requires ValidComparator(cmp) && cmp(x, k) < 0
    requires Placed(L, L', x, cmp, i)
    requires forall y | y in R :: cmp(y, k) >= 0
    ensures Placed(L + [k] + R, L' + [k] + R, x, cmp, i)
  {
    var s := L + [k] + R;
    assert s[..i] == L[..i];
    assert s[i..] == L[i..] + [k] + R;
    calc {
      s[..i] + [x] + s[i..];
      L[..i] + [x] + (L[i..] + [k] + R);
      { SeqAssoc(L[..i] + [x], L[i..], [k] + R); }
      (L[..i] + [x] + L[i..]) + ([k] + R);
      { SeqAssoc(L', [k], R); }
      L' + [k] + R;
    }
    Flip(cmp, x, k);
    forall j | i <= j < |s| ensures cmp(s[j], x) > 0 {
      if j < |L| {
        assert s[j] == L[j];
      } else if j == |L| {
        assert s[j] == k;
      } else {
        var y := s[j];
        assert y == R[j - |L| - 1] && y in R;
        Flip(cmp, y, k);
        LtLe(cmp, x, k, y);
        Flip(cmp, x, y);
      }
    }
    forall j | 0 <= j < i ensures cmp(s[j], x) <= 0 {
      assert s[j] == L[j];
    }
  }

  lemma PlaceRight<K(!new)>(L: seq<K>, k: K, R: seq<K>, R': seq<K>, x: K, cmp: (K, K) -> int, i: nat)
    requires ValidComparator(cmp) && cmp(x, k) >= 0
    requires Placed(R, R', x, cmp, i)
    requires forall y | y in L :: cmp(y, k) <= 0
    ensures Placed(L + [k] + R, L + [k] + R', x, cmp, |L| + 1 + i)
  {
    var s := L + [k] + R;
    var i' := |L| + 1 + i;
    assert s[..i'] == L + [k] + R[..i];
    assert s[i'..] == R[i..];
    calc {
      s[..i'] + [x] + s[i'..];
      (L + [k] + R[..i]) + [x] + R[i..];
      { SeqAssoc(L + [k], R[..i], [x]); }
      (L + [k] + (R[..i] + [x])) + R[i..];
      { SeqAssoc(L + [k], R[..i] + [x], R[i..]); }
      L + [k] + R';
    }
    Flip(cmp, x, k);
    forall j | 0 <= j < i' ensures cmp(s[j], x) <= 0 {
      if j < |L| {
        var y := s[j];
        assert y == L[j] && y in L;
        LeLe(cmp, y, k, x);
      } else if j == |L| {
        assert s[j] == k;
      } else {
        assert s[j] == R[j - |L| - 1];
      }
    }
    forall j | i' <= j < |s| ensures cmp(s[j], x) > 0 {
      assert s[j] == R[j - |L| - 1];
    }
  }

  // ------------------------------------------------------------------ search

  /**
   On a search tree, if some node at `p` compares equal to `q`, the search
   finds a node, and the one it finds lies on the way to `p`: it is the
   shallowest node whose key compares equal to `q`.
   */
  lemma {:induction false} SearchFindsShallowest<K(!new)>(n: TreeNode<K>, q: K, cmp: (K, K) -> int, p: Path)
    requires ValidComparator(cmp) && IsBst(n, cmp, TiesEitherSide)
    requires IsNodePath(n, p) && cmp(q, SubtreeAt(n, p).key) == 0
    ensures RecursiveSearch(n, q, cmp).Some?
    ensures RecursiveSearch(n, q, cmp).value <= p
    decreases p
  {
    EqualKeySide(n, q, cmp, p);
    if cmp(q, n.key) < 0 {
      SearchFindsShallowest(n.left, q, cmp, p[1..]);
      assert p == [Left] + p[1..];
    } else if cmp(q, n.key) > 0 {
      SearchFindsShallowest(n.right, q, cmp, p[1..]);
      assert p == [Right] + p[1..];
    }
  }

  /** A node comparing equal to `q` lies on the side of the root that `q` compares to. */
  lemma EqualKeySide<K(!new)>(n: TreeNode<K>, q: K, cmp: (K, K) -> int, p: Path)
    requires ValidComparator(cmp) && IsBst(n, cmp, TiesEitherSide)
    requires IsNodePath(n, p) && cmp(q, SubtreeAt(n, p).key) == 0
    ensures cmp(q, n.key) < 0 ==> p != [] && p[0] == Left
    ensures cmp(q, n.key) > 0 ==> p != [] && p[0] == Right
  {
    var y := SubtreeAt(n, p).key;
    if p != [] && p[0] == Right {
      NodeKeyIn(n.right, p[1..]);
      EqualLeft(cmp, q, y, n.key);
    } else if p != [] && p[0] == Left {
      NodeKeyIn(n.left, p[1..]);
      EqualLeft(cmp, q, y, n.key);
    }
  }

  /** On a search tree the search succeeds exactly when some key compares equal to the query. */
  lemma {:induction false} SearchComplete<K(!new)>(n: TreeNode<K>, q: K, cmp: (K, K) -> int)
    requires ValidComparator(cmp) && IsBst(n, cmp, TiesEitherSide)
    ensures RecursiveSearch(n, q, cmp).Some? <==> exists x :: x in Keys(n) && cmp(q, x) == 0
  {
    var r := RecursiveSearch(n, q, cmp);
    if r.Some? {
      NodeKeyIn(n, r.value);
    }
    if x :| x in Keys(n) && cmp(q, x) == 0 {
      var p := KeyHasPath(n, x);
      SearchFindsShallowest(n, q, cmp, p);
    }
  }

  // ----------------------------------------------------------------- maximum

  /** The maximum's key is the last key of the in-order sequence. */
  lemma {:induction false} MaximumIsLast<K>(n: TreeNode<K>)
    requires n.Node?
    ensures var s := InOrder(n);
            |s| > 0 && s[|s| - 1] == SubtreeAt(n, TreeMaximum(n).value).key
  {
    var p := TreeMaximum(n).value;
    var m := SubtreeAt(n, p);
    InOrderSplit(n, p);
    assert InOrder(n) == Before(n, p) + InOrder(m.left) + [m.key];
  }

  /** On a search tree no key orders after the maximum's key. */
  lemma MaximumIsGreatest<K(!new)>(n: TreeNode<K>, cmp: (K, K) -> int)
    requires ValidComparator(cmp) && IsBst(n, cmp, TiesEitherSide) && n.Node?
    ensures forall x | x in Keys(n) :: cmp(x, SubtreeAt(n, TreeMaximum(n).value).key) <= 0
  {
    var s := InOrder(n);
    var m := SubtreeAt(n, TreeMaximum(n).value).key;
    MaximumIsLast(n);
    BstIffSorted(n, cmp, TiesEitherSide);
    KeysInOrder(n);
    forall x | x in Keys(n) ensures cmp(x, m) <= 0 {
      var j :| 0 <= j < |s| && s[j] == x;
      if j == |s| - 1 {
        Reflexive(cmp, m);
      } else {
        assert LeftOf(TiesEitherSide, cmp, s[j], s[|s| - 1]);
      }
    }
  }

  // -------------------------------------------------------------- transplant

  /** Transplant trades the keys of the replaced subtree for those of the replacement. */
  /**
   Transplant rewrites one link: every position off the way to `p` keeps its
   subtree, and every node above `p` keeps its key.
   */
  lemma {:induction false} TransplantFrame<K>(n: TreeNode<K>, p: Path, v: TreeNode<K>, q: Path)
    requires IsNodePath(n, p)
    ensures !(p <= q) && !(q <= p) ==> SubtreeAt(Transplant(n, p, v), q) == SubtreeAt(n, q)
    ensures q < p ==>
      && IsNodePath(n, q) && IsNodePath(Transplant(n, p, v), q)
      && SubtreeAt(Transplant(n, p, v), q).key == SubtreeAt(n, q).key
    decreases p
  {
    var r := Transplant(n, p, v);
    if p != [] && q != [] {
      assert SubtreeAt(r, q) == SubtreeAt(Child(r, q[0]), q[1..]);
      assert SubtreeAt(n, q) == SubtreeAt(Child(n, q[0]), q[1..]);
      if q[0] == p[0] {
        TransplantFrame(Child(n, p[0]), p[1..], v, q[1..]);
        assert p <= q <==> p[1..] <= q[1..];
        assert q <= p <==> q[1..] <= p[1..];
        assert q < p <==> q[1..] < p[1..];
      } else {
        assert !(p <= q) && !(q <= p);
        assert Child(r, q[0]) == Child(n, q[0]);
      }
    }
  }

  lemma {:induction false} TransplantKeys<K>(n: TreeNode<K>, p: Path, v: TreeNode<K>)
    requires IsNodePath(n, p)
    ensures Keys(Transplant(n, p, v)) + Keys(SubtreeAt(n, p)) == Keys(n) + Keys(v)
  {
    InOrderSplit(n, p);
    KeysInOrder(n);
    KeysInOrder(v);
    KeysInOrder(SubtreeAt(n, p));
    KeysInOrder(Transplant(n, p, v));
  }

  lemma MultisetTrade<T>(a: multiset<T>, u: multiset<T>, l: multiset<T>, v: multiset<T>)
    requires a + u == l + v && v <= u
    ensures a <= l
  {
    forall x ensures a[x] <= l[x] {
      assert (a + u)[x] == (l + v)[x];
    }
  }

  /** Transplanting some of the replaced subtree's keys leaves some of the tree's keys. */
  lemma {:induction false} TransplantSubKeys<K>(n: TreeNode<K>, p: Path, v: TreeNode<K>)
    requires IsNodePath(n, p) && Keys(v) <= Keys(SubtreeAt(n, p))
    ensures Keys(Transplant(n, p, v)) <= Keys(n)
  {
    TransplantKeys(n, p, v);
    MultisetTrade(Keys(Transplant(n, p, v)), Keys(SubtreeAt(n, p)), Keys(n), Keys(v));
  }

  /** Replacing the left child by a search tree holding some of its keys keeps the search order. */
  lemma {:induction false} ReplaceLeftKeepsBst<K>(n: TreeNode<K>, l': TreeNode<K>, cmp: (K, K) -> int, ties: Ties)
    requires n.Node? && IsBst(n, cmp, ties) && IsBst(l', cmp, ties) && Keys(l') <= Keys(n.left)
    ensures IsBst(Node(l', n.key, n.right), cmp, ties)
  {
    forall x | x in Keys(l') ensures LeftOf(ties, cmp, x, n.key) {
      assert x in Keys(n.left);
    }
  }

  /** Replacing the right child by a search tree holding some of its keys keeps the search order. */
  lemma {:induction false} ReplaceRightKeepsBst<K>(n: TreeNode<K>, r': TreeNode<K>, cmp: (K, K) -> int, ties: Ties)
    requires n.Node? && IsBst(n, cmp, ties) && IsBst(r', cmp, ties) && Keys(r') <= Keys(n.right)
    ensures IsBst(Node(n.left, n.key, r'), cmp, ties)
  {
    forall x | x in Keys(r') ensures RightOf(ties, cmp, x, n.key) {
      assert x in Keys(n.right);
    }
  }

  /** Putting in place of a subtree a search tree made of some of its keys keeps the search order. */
  lemma {:induction false} TransplantKeepsBst<K>(n: TreeNode<K>, p: Path, v: TreeNode<K>, cmp: (K, K) -> int, ties: Ties)
    requires IsNodePath(n, p) && IsBst(n, cmp, ties) && IsBst(v, cmp, ties)
    requires Keys(v) <= Keys(SubtreeAt(n, p))
    ensures IsBst(Transplant(n, p, v), cmp, ties)
    decreases p
  {
    if p != [] {
      var c := Child(n, p[0]);
      assert SubtreeAt(n, p) == SubtreeAt(c, p[1..]);
      var c' := Transplant(c, p[1..], v);
      TransplantKeepsBst(c, p[1..], v, cmp, ties);
      TransplantSubKeys(c, p[1..], v);
      if p[0] == Left {
        ReplaceLeftKeepsBst(n, c', cmp, ties);
        assert Transplant(n, p, v) == Node(c', n.key, n.right);
      } else {
        ReplaceRightKeepsBst(n, c', cmp, ties);
        assert Transplant(n, p, v) == Node(n.left, n.key, c');
      }
    }
  }

  // ---------------------------------------------------------------- deletion

  lemma MultisetRemove<K>(s: seq<K>, i: nat, t: seq<K>)
    requires RemovedAt(s, i, t)
    ensures multiset(t) == multiset(s) - multiset{s[i]}
  {
    assert s == s[..i] + [s[i]] + s[i + 1..];
  }

  /** Deleting the node at `p` removes one copy of its key and keeps every other key. */
  lemma {:induction false} DeleteAtKeys<K>(n: TreeNode<K>, p: Path)
    requires IsNodePath(n, p)
    ensures Keys(DeleteAt(n, p)) == Keys(n) - multiset{SubtreeAt(n, p).key}
  {
    var r := DeleteAt(n, p);
    MultisetRemove(InOrder(n), Position(n, p), InOrder(r));
    KeysInOrder(n);
    KeysInOrder(r);
  }

  /**
   Deleting a node keeps the weak and the strict search order. (It does not
   keep the ties-right placement; see the counterexample in `IntKeys`.)
   */
  lemma {:induction false} DeleteAtKeepsBst<K(!new)>(n: TreeNode<K>, p: Path, cmp: (K, K) -> int, ties: Ties)
    requires ValidComparator(cmp) && ties != TiesRight
    requires IsNodePath(n, p) && IsBst(n, cmp, ties)
    ensures IsBst(DeleteAt(n, p), cmp, ties)
  {
    var r := DeleteAt(n, p);
    BstIffSorted(n, cmp, ties);
    SortedRemove(InOrder(n), Position(n, p), InOrder(r), cmp, ties);
    BstIffSorted(r, cmp, ties);
  }

  // ----------------------------------------------------------- the tree API

  lemma {:induction false} CreateTreeValid<K(!new)>(compare: (K, K) -> int, formatter: K -> string)
    requires ValidComparator(compare)
    ensures ValidTree(CreateTree(compare, formatter))
  {
  }

  lemma {:induction false} TreeInsertKeepsValid<K(!new)>(t: Tree<K>, k: K)
    requires ValidTree(t)
    ensures ValidTree(TreeInsert(Some(t), Some(k)).after.value)
  {
    InsertKeepsBst(t.root, k, t.compare, TiesEitherSide);
  }

  lemma {:induction false} TreeDeleteKeepsValid<K(!new)>(t: Tree<K>, k: K)
    requires ValidTree(t)
    ensures TreeDelete(Some(t), Some(k)).after.Some?
    ensures ValidTree(TreeDelete(Some(t), Some(k)).after.value)
  {
    var r := RecursiveSearch(t.root, k, t.compare);
    if r.Some? {
      DeleteAtKeepsBst(t.root, r.value, t.compare, TiesEitherSide);
    }
  }

  /** A tree whose keys are pairwise distinct keeps them so through a delete. */
  lemma {:induction false} TreeDeleteKeepsNoTies<K(!new)>(t: Tree<K>, k: K)
    requires ValidComparator(t.compare) && IsBst(t.root, t.compare, NoTies)
    ensures TreeDelete(Some(t), Some(k)).after.Some?
    ensures IsBst(TreeDelete(Some(t), Some(k)).after.value.root, t.compare, NoTies)
  {
    var r := RecursiveSearch(t.root, k, t.compare);
    if r.Some? {
      DeleteAtKeepsBst(t.root, r.value, t.compare, NoTies);
    }
  }

  /** A tree built by inserts alone keeps the ties-right placement. */
  lemma {:induction false} TreeInsertKeepsTiesRight<K>(t: Tree<K>, k: K)
    requires IsBst(t.root, t.compare, TiesRight)
    ensures IsBst(TreeInsert(Some(t), Some(k)).after.value.root, t.compare, TiesRight)
  {
    InsertKeepsBst(t.root, k, t.compare, TiesRight);
  }

  /** On a valid tree, search answers whether some key compares equal to the query. */
  lemma SearchCorrect<K(!new)>(t: Tree<K>, q: K)
    requires ValidTree(t)
    ensures Search(Some(t), Some(q)) <==> exists x :: x in Keys(t.root) && t.compare(q, x) == 0
  {
    SearchComplete(t.root, q, t.compare);
  }

  lemma InsertThenSearch<K(!new)>(t: Tree<K>, k: K)
    requires ValidTree(t)
    ensures Search(TreeInsert(Some(t), Some(k)).after, Some(k))
  {
    var t' := TreeInsert(Some(t), Some(k)).after.value;
    TreeInsertKeepsValid(t, k);
    Reflexive(t.compare, k);
    assert k in Keys(t'.root);
    SearchCorrect(t', k);
  }

  /** On a valid tree, delete reports a removal exactly when some key compares equal to `k`. */
  lemma TreeDeleteIffPresent<K(!new)>(t: Tree<K>, k: K)
    requires ValidTree(t)
    ensures TreeDelete(Some(t), Some(k)).ok <==> exists x :: x in Keys(t.root) && t.compare(k, x) == 0
  {
    SearchComplete(t.root, k, t.compare);
  }

  /**
   After a successful delete, exactly one key comparing equal to `k` is gone,
   and a search for `k` succeeds exactly when another such key remains.
   */
  /**
   On a valid tree, delete removes the shallowest node comparing equal to `k`:
   the one it removes lies on the way to every node that compares equal.
   */
  lemma {:induction false} TreeDeleteRemovesShallowest<K(!new)>(t: Tree<K>, k: K) returns (p: Path)
    requires ValidTree(t) && TreeDelete(Some(t), Some(k)).ok
    ensures IsNodePath(t.root, p) && t.compare(k, SubtreeAt(t.root, p).key) == 0
    ensures forall q | IsNodePath(t.root, q) && t.compare(k, SubtreeAt(t.root, q).key) == 0 :: p <= q
    ensures RemovedAt(InOrder(t.root), Position(t.root, p), InOrder(TreeDelete(Some(t), Some(k)).after.value.root))
  {
    p := RecursiveSearch(t.root, k, t.compare).value;
    forall q | IsNodePath(t.root, q) && t.compare(k, SubtreeAt(t.root, q).key) == 0 ensures p <= q {
      SearchFindsShallowest(t.root, k, t.compare, q);
    }
  }

  lemma {:induction false} DeleteThenSearch<K(!new)>(t: Tree<K>, k: K)
    requires ValidTree(t) && TreeDelete(Some(t), Some(k)).ok
    ensures var t' := TreeDelete(Some(t), Some(k)).after.value;
            && (exists x :: && x in Keys(t.root) && t.compare(k, x) == 0
                             && Keys(t'.root) == Keys(t.root) - multiset{x})
            && (Search(Some(t'), Some(k)) <==> exists x :: x in Keys(t'.root) && t.compare(k, x) == 0)
  {
    var p := RecursiveSearch(t.root, k, t.compare).value;
    var t' := TreeDelete(Some(t), Some(k)).after.value;
    DeleteAtKeys(t.root, p);
    NodeKeyIn(t.root, p);
    TreeDeleteKeepsValid(t, k);
    SearchCorrect(t', k);
  }

  /** A delete of a key that nothing compares equal to changes nothing. */
  lemma {:induction false} DeleteMissingIsNoOp<K(!new)>(t: Tree<K>, k: K)
    requires ValidTree(t)
    requires forall x | x in Keys(t.root) :: t.compare(k, x) != 0
    ensures !TreeDelete(Some(t), Some(k)).ok
    ensures TreeDelete(Some(t), Some(k)).after == Some(t)
  {
    TreeDeleteIffPresent(t, k);
  }

  // ---------------------------------------------------- sequences of calls

  datatype Op<K> = Insert(key: K) | Delete(key: K)

  /** The tree after applying `ops` in order, each as a call with non-null arguments. */
  function Run<K>(t: Tree<K>, ops: seq<Op<K>>): (r: Tree<K>)
    ensures r.compare == t.compare
    decreases |ops|
  {
    if ops == [] then t
    else
      var u := match ops[0]
        case Insert(k) => TreeInsert(Some(t), Some(k))
        case Delete(k) => TreeDelete(Some(t), Some(k));
      Run(u.after.value, ops[1..])
  }

  /** Every tree built from a valid one by inserts and deletes is valid: its in-order sequence stays sorted. */
  lemma {:induction false} RunKeepsValid<K(!new)>(t: Tree<K>, ops: seq<Op<K>>)
    requires ValidTree(t)
    ensures ValidTree(Run(t, ops))
    ensures Sorted(InOrder(Run(t, ops).root), t.compare, TiesEitherSide)
    decreases |ops|
  {
    if ops != [] {
      match ops[0]
      case Insert(k) =>
        TreeInsertKeepsValid(t, k);
        RunKeepsValid(TreeInsert(Some(t), Some(k)).after.value, ops[1..]);
      case Delete(k) =>
        TreeDeleteKeepsValid(t, k);
        RunKeepsValid(TreeDelete(Some(t), Some(k)).after.value, ops[1..]);
    } else {
      BstIffSorted(t.root, t.compare, TiesEitherSide);
    }
  }

  // ----------------------------------------------------------- degenerate

  /** Every node has an empty left subtree: the tree is a chain going right. */
  ghost predicate RightChain<K>(n: TreeNode<K>) {
    n.Nil? || (n.left.Nil? && RightChain(n.right))
  }

  function InsertAll<K>(n: TreeNode<K>, xs: seq<K>, cmp: (K, K) -> int): (r: TreeNode<K>)
    ensures |InOrder(r)| == |InOrder(n)| + |xs|
    decreases |xs|
  {
    if xs == [] then n else InsertAll(InsertNode(n, xs[0], cmp), xs[1..], cmp)
  }

  lemma {:induction false} ChainDepth<K>(n: TreeNode<K>)
    requires RightChain(n)
    ensures MaxDepth(n) == |InOrder(n)|
  {
    if n.Node? {
      ChainDepth(n.right);
    }
  }

  lemma {:induction false} InsertAtChainEnd<K(!new)>(n: TreeNode<K>, x: K, cmp: (K, K) -> int)
    requires ValidComparator(cmp) && RightChain(n)
    requires forall y | y in Keys(n) :: cmp(y, x) < 0
    ensures RightChain(InsertNode(n, x, cmp))
  {
    if n.Node? {
      Flip(cmp, n.key, x);
      InsertAtChainEnd(n.right, x, cmp);
    }
  }

  lemma {:induction false} InsertAllChain<K(!new)>(n: TreeNode<K>, xs: seq<K>, cmp: (K, K) -> int)
    requires ValidComparator(cmp) && RightChain(n)
    requires forall i, j | 0 <= i < j < |xs| :: cmp(xs[i], xs[j]) < 0
    requires forall y, j | y in Keys(n) && 0 <= j < |xs| :: cmp(y, xs[j]) < 0
    ensures RightChain(InsertAll(n, xs, cmp))
    decreases |xs|
  {
    if xs != [] {
      var n' := InsertNode(n, xs[0], cmp);
      InsertAtChainEnd(n, xs[0], cmp);
      InsertKeys(n, xs[0], cmp);
      forall y, j | y in Keys(n') && 0 <= j < |xs[1..]| ensures cmp(y, xs[1..][j]) < 0 {
        assert xs[1..][j] == xs[j + 1];
      }
      InsertAllChain(n', xs[1..], cmp);
    }
  }

  /** The calls that insert `xs` one after the other. */
  function Inserts<K>(xs: seq<K>): (ops: seq<Op<K>>)
    ensures |ops| == |xs|
    ensures forall i | 0 <= i < |xs| :: ops[i] == Insert(xs[i])
  {
    seq(|xs|, i requires 0 <= i < |xs| => Insert(xs[i]))
  }

  /** Calling insert for each of `xs` builds the tree `InsertAll` describes. */
  lemma {:induction false} RunInserts<K>(t: Tree<K>, xs: seq<K>)
    ensures Run(t, Inserts(xs)) == t.(root := InsertAll(t.root, xs, t.compare))
    decreases |xs|
  {
    if xs != [] {
      var t' := TreeInsert(Some(t), Some(xs[0])).after.value;
      assert Inserts(xs)[1..] == Inserts(xs[1..]);
      RunInserts(t', xs[1..]);
    }
  }

  /** Inserting keys in strictly increasing order builds a chain as deep as the number of keys. */
  lemma {:induction false} IncreasingInsertsDegenerate<K(!new)>(xs: seq<K>, cmp: (K, K) -> int)
    requires ValidComparator(cmp)
    requires forall i, j | 0 <= i < j < |xs| :: cmp(xs[i], xs[j]) < 0
    ensures MaxDepth(InsertAll(Nil, xs, cmp)) == |xs|
  {
    InsertAllChain(Nil, xs, cmp);
    ChainDepth(InsertAll(Nil, xs, cmp));
  }

  // -------------------------------------------------------------- rendering

  /** The rendering is the label followed by the formatted keys, which split back apart in in-order sequence. */
  lemma TreeAsStringRoundTrip<K(!new)>(t: Tree<K>)
    requires forall k | k in InOrder(t.root) :: ' ' !in t.formatter(k)
    ensures var s := TreeAsString(t);
            && |Label| <= |s|
            && s[..|Label|] == Label
            && Fields(s[|Label|..]) == FormatAll(InOrder(t.root), t.formatter)
  {
    var s := TreeAsString(t);
    assert s[|Label|..] == Render(InOrder(t.root), t.formatter);
    FieldsOfRender(InOrder(t.root), t.formatter);
  }
}
