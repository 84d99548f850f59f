/**
 Nodes of the tree and the views the rest of the model reasons with.

 A node owns its two children and keeps no parent back-reference: a position
 in the tree is named by the path of left/right steps that leads to it from
 the root (`Path`). `InOrder` is the sequence of
 keys in left-node-right order and `Keys` its multiset; `Before` and `After`
 are the parts of the in-order sequence that lie before and after the subtree
 found at a path.
 */
module Nodes {
  import opened Order

  datatype TreeNode<K> = Nil | Node(left: TreeNode<K>, key: K, right: TreeNode<K>)

  datatype Dir = Left | Right

  type Path = seq<Dir>

  function Child<K>(n: TreeNode<K>, d: Dir): TreeNode<K>
    requires n.Node?
  {
    if d == Left then n.left else n.right
  }

  function InOrder<K>(n: TreeNode<K>): seq<K> {
    match n
    case Nil => []
    case Node(l, k, r) => InOrder(l) + [k] + InOrder(r)
  }

  /** The keys of a subtree, with their multiplicities. */
  ghost function Keys<K>(n: TreeNode<K>): multiset<K> {
    match n
    case Nil => multiset{}
    case Node(l, k, r) => Keys(l) + multiset{k} + Keys(r)
  }

  /** The key multiset is the multiset of the in-order sequence. */
  lemma {:induction false} KeysInOrder<K>(n: TreeNode<K>)
    ensures Keys(n) == multiset(InOrder(n))
  {
    match n
    case Nil =>
    case Node(l, k, r) =>
      KeysInOrder(l);
      KeysInOrder(r);
      assert InOrder(n) == InOrder(l) + [k] + InOrder(r);
  }

  /** A value is one of the keys exactly when it occurs in the in-order sequence. */
  lemma KeysMembers<K>(n: TreeNode<K>)
    ensures forall x :: x in Keys(n) <==> x in InOrder(n)
  {
    KeysInOrder(n);
  }

  /** The subtree reached by following `p` from `n`; `Nil` once the path leaves the tree. */
  function SubtreeAt<K>(n: TreeNode<K>, p: Path): TreeNode<K>
    decreases p
  {
    if p == [] then n
    else match n
      case Nil => Nil
      case Node(_, _, _) => SubtreeAt(Child(n, p[0]), p[1..])
  }

  /** `p` leads from `n` to a node (not to an empty slot). */
  predicate IsNodePath<K>(n: TreeNode<K>, p: Path) {
    SubtreeAt(n, p).Node?
  }

  /** The keys that come before the subtree at `p` in the in-order sequence of `n`. */
  function Before<K>(n: TreeNode<K>, p: Path): seq<K>
    requires IsNodePath(n, p)
    decreases p
  {
    if p == [] then []
    else if p[0] == Left then Before(n.left, p[1..])
    else InOrder(n.left) + [n.key] + Before(n.right, p[1..])
  }

  /** The keys that come after the subtree at `p` in the in-order sequence of `n`. */
  function After<K>(n: TreeNode<K>, p: Path): seq<K>
    requires IsNodePath(n, p)
    decreases p
  {
    if p == [] then []
    else if p[0] == Left then After(n.left, p[1..]) + [n.key] + InOrder(n.right)
    else After(n.right, p[1..])
  }

  /** The in-order sequence of a tree is the context around any of its subtrees. */
  lemma {:induction false} InOrderSplit<K>(n: TreeNode<K>, p: Path)
    requires IsNodePath(n, p)
    ensures InOrder(n) == Before(n, p) + InOrder(SubtreeAt(n, p)) + After(n, p)
    decreases p
  {
    if p != [] {
      var c := Child(n, p[0]);
      InOrderSplit(c, p[1..]);
      assert SubtreeAt(n, p) == SubtreeAt(c, p[1..]);
      var b, m, a := Before(c, p[1..]), InOrder(SubtreeAt(c, p[1..])), After(c, p[1..]);
      assert InOrder(c) == b + m + a;
      if p[0] == Left {
        assert Before(n, p) == b;
        assert After(n, p) == a + [n.key] + InOrder(n.right);
        SeqAssoc(b + m, a, [n.key] + InOrder(n.right));
      } else {
        assert Before(n, p) == InOrder(n.left) + [n.key] + b;
        assert After(n, p) == a;
        SeqAssoc(InOrder(n.left) + [n.key], b + m, a);
        SeqAssoc(InOrder(n.left) + [n.key], b, m);
      }
    }
  }

  /** `t` is `s` with its element at `i` taken out and nothing else changed. */
  ghost predicate RemovedAt<K>(s: seq<K>, i: nat, t: seq<K>) {
    i < |s| && t == s[..i] + s[i + 1..]
  }

  lemma SeqAssoc<T>(a: seq<T>, b: seq<T>, c: seq<T>)
    ensures (a + b) + c == a + (b + c)
  {
  }

  /** A subtree holds some of the keys of the tree it is found in. */
  lemma {:induction false} SubtreeKeys<K>(n: TreeNode<K>, p: Path)
    ensures Keys(SubtreeAt(n, p)) <= Keys(n)
  {
    if IsNodePath(n, p) {
      InOrderSplit(n, p);
      KeysInOrder(n);
      KeysInOrder(SubtreeAt(n, p));
    }
  }

  /** The key of the node at a path is one of the tree's keys. */
  lemma {:induction false} NodeKeyIn<K>(n: TreeNode<K>, p: Path)
    requires IsNodePath(n, p)
    ensures SubtreeAt(n, p).key in Keys(n)
  {
    SubtreeKeys(n, p);
    assert SubtreeAt(n, p).key in Keys(SubtreeAt(n, p));
  }

  /**
   How a BST places keys that compare equal to a node's key.
   TiesRight: left keys order strictly before the node, right keys do not
   order before it (the placement insertion produces).
   TiesEitherSide: left keys do not order after, right keys do not order
   before (the weak ordering, equivalent to a sorted in-order sequence).
   NoTies: left keys strictly before, right keys strictly after.
   */
  datatype Ties = TiesRight | TiesEitherSide | NoTies

  predicate LeftOf<K>(ties: Ties, cmp: (K, K) -> int, x: K, k: K) {
    if ties == TiesEitherSide then cmp(x, k) <= 0 else cmp(x, k) < 0
  }

  predicate RightOf<K>(ties: Ties, cmp: (K, K) -> int, x: K, k: K) {
    if ties == NoTies then cmp(x, k) > 0 else cmp(x, k) >= 0
  }

  /** The binary-search-tree property, at every node, under the discipline `ties`. */
  ghost predicate IsBst<K>(n: TreeNode<K>, cmp: (K, K) -> int, ties: Ties) {
    match n
    case Nil => true
    case Node(l, k, r) =>
      && (forall x | x in Keys(l) :: LeftOf(ties, cmp, x, k))
      && (forall x | x in Keys(r) :: RightOf(ties, cmp, x, k))
      && IsBst(l, cmp, ties)
      && IsBst(r, cmp, ties)
  }

  /** Every earlier key of `s` stands in relation `LeftOf(ties)` to every later one. */
  ghost predicate Sorted<K>(s: seq<K>, cmp: (K, K) -> int, ties: Ties) {
    forall i, j | 0 <= i < j < |s| :: LeftOf(ties, cmp, s[i], s[j])
  }
}
