/**
 The operations of the generic binary search tree.

 A `Tree` is the record the C code allocates: the root node plus the key
 comparator and key formatter fixed at creation (the element size is not
 needed once keys are values). A null `Tree*` or a null key pointer is `None`.
 Mutating operations return an `Update`: the boolean the C function returns
 and the tree as it is afterwards.

 Nodes are located by their path from the root: searching and finding the
 maximum return the path of the node the C code returns a pointer to, and
 `Transplant` replaces the subtree at a path.
 */
module BinarySearchTree {
  import opened Order
  import opened Nodes
  import opened Rendering

  datatype Option<T> = None | Some(value: T)

  datatype Tree<!K> = Tree(root: TreeNode<K>, compare: (K, K) -> int, formatter: K -> string)

  datatype Update<!K> = Update(ok: bool, after: Option<Tree<K>>)

  /** The label every rendering starts with. */
  const Label: string := "Tree:"

  function Pow2(e: nat): (p: nat)
    ensures p >= 1
  {
    if e == 0 then 1 else 2 * Pow2(e - 1)
  }

  lemma {:induction false} Pow2Monotone(a: nat, b: nat)
    requires a <= b
    ensures Pow2(a) <= Pow2(b)
    decreases b
  {
    if a < b {
      Pow2Monotone(a, b - 1);
    }
  }

  // ---------------------------------------------------------------- creation

  function CreateTree<K>(compare: (K, K) -> int, formatter: K -> string): (t: Tree<K>)
    ensures t.compare == compare && t.formatter == formatter
    ensures Keys(t.root) == multiset{}
    ensures TreeDepth(t) == 0
    ensures TreeAsString(t) == Label
  {
    Tree(Nil, compare, formatter)
  }

  // ------------------------------------------------------------------- depth

  /** The number of nodes on the longest downward path from `n`. */
  function MaxDepth<K>(n: TreeNode<K>): (d: nat)
    ensures d == 0 <==> n.Nil?
  {
    match n
    case Nil => 0
    case Node(l, _, r) =>
      var ld, rd := MaxDepth(l), MaxDepth(r);
      if ld > rd then ld + 1 else rd + 1
  }

  /** A tree of depth `d` holds at least `d` and fewer than 2^d keys. */
  lemma {:induction false} DepthBounds<K>(n: TreeNode<K>)
    ensures MaxDepth(n) <= |InOrder(n)| < Pow2(MaxDepth(n))
  {
    match n
    case Nil =>
    case Node(l, _, r) =>
      var ld, rd := MaxDepth(l), MaxDepth(r);
      var e := MaxDepth(n) - 1;
      DepthBounds(l);
      DepthBounds(r);
      Pow2Monotone(ld, e);
      Pow2Monotone(rd, e);
      var half := Pow2(e);
      assert Pow2(e + 1) == 2 * half;
      assert |InOrder(l)| < half && |InOrder(r)| < half;
      assert |InOrder(n)| == |InOrder(l)| + 1 + |InOrder(r)|;
  }

  function TreeDepth<K>(t: Tree<K>): (d: nat)
    ensures d == 0 <==> t.root.Nil?
    ensures d <= |InOrder(t.root)| < Pow2(d)
  {
    DepthBounds(t.root);
    MaxDepth(t.root)
  }

  // --------------------------------------------------------------- insertion

  /** Walks down from `n`, left when `x` orders before the node's key and right otherwise, and links `x` in as a leaf. */
  function InsertNode<K>(n: TreeNode<K>, x: K, cmp: (K, K) -> int): (r: TreeNode<K>)
    ensures r.Node?
    ensures |InOrder(r)| == |InOrder(n)| + 1
    ensures MaxDepth(n) <= MaxDepth(r) <= MaxDepth(n) + 1
  {
    match n
    case Nil => Node(Nil, x, Nil)
    case Node(l, k, rt) =>
      if cmp(x, k) < 0 then Node(InsertNode(l, x, cmp), k, rt)
      else Node(l, k, InsertNode(rt, x, cmp))
  }

  /** Insertion adds exactly one copy of `x` and keeps every other key. */
  lemma {:induction false} InsertKeys<K>(n: TreeNode<K>, x: K, cmp: (K, K) -> int)
    ensures Keys(InsertNode(n, x, cmp)) == Keys(n) + multiset{x}
  {
    match n
    case Nil =>
    case Node(l, k, rt) =>
      if cmp(x, k) < 0 {
        InsertKeys(l, x, cmp);
      } else {
        InsertKeys(rt, x, cmp);
      }
  }

  /** Insertion keeps the ties-right and the weak BST property: `x` lands on the side its comparisons chose. */
  lemma {:induction false} InsertKeepsBst<K>(n: TreeNode<K>, x: K, cmp: (K, K) -> int, ties: Ties)
    requires ties != NoTies && IsBst(n, cmp, ties)
    ensures IsBst(InsertNode(n, x, cmp), cmp, ties)
  {
    match n
    case Nil =>
    case Node(l, k, rt) =>
      if cmp(x, k) < 0 {
        var l' := InsertNode(l, x, cmp);
        InsertKeys(l, x, cmp);
        InsertKeepsBst(l, x, cmp, ties);
        forall y | y in Keys(l') ensures LeftOf(ties, cmp, y, k) {
          assert y in Keys(l) || y == x;
        }
      } else {
        var rt' := InsertNode(rt, x, cmp);
        InsertKeys(rt, x, cmp);
        InsertKeepsBst(rt, x, cmp, ties);
        forall y | y in Keys(rt') ensures RightOf(ties, cmp, y, k) {
          assert y in Keys(rt) || y == x;
        }
      }
  }

  function TreeInsert<K>(tree: Option<Tree<K>>, data: Option<K>): (u: Update<K>)
    ensures u.ok <==> tree.Some? && data.Some?
    ensures !u.ok ==> u.after == tree
    ensures u.ok ==> && u.after.Some?
                     && u.after.value.compare == tree.value.compare
                     && u.after.value.formatter == tree.value.formatter
                     && Keys(u.after.value.root) == Keys(tree.value.root) + multiset{data.value}
  {
    if tree.None? || data.None? then Update(false, tree)
    else
      var t := tree.value;
      InsertKeys(t.root, data.value, t.compare);
      Update(true, Some(t.(root := InsertNode(t.root, data.value, t.compare))))
  }

  // ------------------------------------------------------------------ search

  function Extend(d: Dir, r: Option<Path>): Option<Path> {
    if r.None? then None else Some([d] + r.value)
  }

  /** The path of the first node on the search path for `q` whose key compares equal to `q`, if any. */
  function RecursiveSearch<K>(n: TreeNode<K>, q: K, cmp: (K, K) -> int): (r: Option<Path>)
    ensures r.Some? ==> IsNodePath(n, r.value) && cmp(q, SubtreeAt(n, r.value).key) == 0
  {
    match n
    case Nil => None
    case Node(l, k, rt) =>
      if cmp(q, k) < 0 then
        var r := RecursiveSearch(l, q, cmp);
        assert r.Some? ==> SubtreeAt(n, [Left] + r.value) == SubtreeAt(l, r.value);
        Extend(Left, r)
      else if cmp(q, k) > 0 then
        var r := RecursiveSearch(rt, q, cmp);
        assert r.Some? ==> SubtreeAt(n, [Right] + r.value) == SubtreeAt(rt, r.value);
        Extend(Right, r)
      else Some([])
  }

  function Search<K>(tree: Option<Tree<K>>, q: Option<K>): (found: bool)
    ensures tree.None? || q.None? ==> !found
    ensures found ==> exists x :: x in Keys(tree.value.root) && tree.value.compare(q.value, x) == 0
  {
    if tree.None? || q.None? then false
    else
      var t := tree.value;
      var r := RecursiveSearch(t.root, q.value, t.compare);
      if r.Some? then
        NodeKeyIn(t.root, r.value);
        true
      else false
  }

  // ----------------------------------------------------------------- maximum

  /** The path of the rightmost node below `n`, or `None` for an empty subtree. */
  function TreeMaximum<K>(n: TreeNode<K>): (r: Option<Path>)
    ensures r.None? <==> n.Nil?
    ensures r.Some? ==> && IsNodePath(n, r.value)
                        && SubtreeAt(n, r.value).right.Nil?
                        && After(n, r.value) == []
  {
    match n
    case Nil => None
    case Node(_, _, rt) =>
      if rt.Nil? then Some([])
      else
        var q := TreeMaximum(rt).value;
        assert SubtreeAt(n, [Right] + q) == SubtreeAt(rt, q);
        Some([Right] + q)
  }

  // -------------------------------------------------------------- transplant

  /** Puts `v` where the node at `p` was; everything outside that position is kept. */
  function Transplant<K>(n: TreeNode<K>, p: Path, v: TreeNode<K>): (r: TreeNode<K>)
    requires IsNodePath(n, p)
    ensures SubtreeAt(r, p) == v
    ensures InOrder(r) == Before(n, p) + InOrder(v) + After(n, p)
    decreases p
  {
    if p == [] then v
    else if p[0] == Left then
      var l := Transplant(n.left, p[1..], v);
      assert SubtreeAt(Node(l, n.key, n.right), p) == SubtreeAt(l, p[1..]);
      var b, a := Before(n.left, p[1..]), After(n.left, p[1..]);
      SeqAssoc(b + InOrder(v), a, [n.key]);
      SeqAssoc(b + InOrder(v), a + [n.key], InOrder(n.right));
      Node(l, n.key, n.right)
    else
      var rt := Transplant(n.right, p[1..], v);
      assert SubtreeAt(Node(n.left, n.key, rt), p) == SubtreeAt(rt, p[1..]);
      var b, a := Before(n.right, p[1..]), After(n.right, p[1..]);
      SeqAssoc(InOrder(n.left) + [n.key], b + InOrder(v), a);
      SeqAssoc(InOrder(n.left) + [n.key], b, InOrder(v));
      Node(n.left, n.key, rt)
  }

  // ---------------------------------------------------------------- deletion

  /**
   Removes the node at the top of `u` with the three-case split of the C code:
   no left child: the right child takes its place; no right child: the left
   child does; two children: the node takes the key of the maximum of its
   left subtree (its in-order predecessor), which is then replaced by its own
   left child.
   */
  function Unlink<K>(u: TreeNode<K>): (r: TreeNode<K>)
    requires u.Node?
    ensures InOrder(r) == InOrder(u.left) + InOrder(u.right)
    ensures u.left.Node? && u.right.Node? ==>
      && r.Node?
      && r.key == InOrder(u.left)[|InOrder(u.left)| - 1]
      && r.right == u.right
  {
    if u.left.Nil? then u.right
    else if u.right.Nil? then u.left
    else
      var l := u.left;
      var q := TreeMaximum(l).value;
      var prev := SubtreeAt(l, q);
      InOrderSplit(l, q);
      assert InOrder(l) == Before(l, q) + InOrder(prev.left) + [prev.key];
      Node(Transplant(l, q, prev.left), prev.key, u.right)
  }

  /** The position of the node at `p` in the in-order sequence of `n`. */
  function Position<K>(n: TreeNode<K>, p: Path): nat
    requires IsNodePath(n, p)
  {
    |Before(n, p)| + |InOrder(SubtreeAt(n, p).left)|
  }

  /** Removes the node at `p`: its key leaves the in-order sequence and nothing else moves. */
  function DeleteAt<K>(n: TreeNode<K>, p: Path): (r: TreeNode<K>)
    requires IsNodePath(n, p)
    ensures RemovedAt(InOrder(n), Position(n, p), InOrder(r))
    ensures InOrder(n)[Position(n, p)] == SubtreeAt(n, p).key
  {
    DeleteAtOrder(n, p);
    Transplant(n, p, Unlink(SubtreeAt(n, p)))
  }

  lemma {:induction false} DeleteAtOrder<K>(n: TreeNode<K>, p: Path)
    requires IsNodePath(n, p)
    ensures var i := Position(n, p);
            && RemovedAt(InOrder(n), i, InOrder(Transplant(n, p, Unlink(SubtreeAt(n, p)))))
            && InOrder(n)[i] == SubtreeAt(n, p).key
  {
    var u := SubtreeAt(n, p);
    var b, l, k, r, a := Before(n, p), InOrder(u.left), u.key, InOrder(u.right), After(n, p);
    var s, t := InOrder(n), InOrder(Transplant(n, p, Unlink(u)));
    assert RemovedAt(s, |b| + |l|, t) && s[|b| + |l|] == k by {
      assert s == b + (l + [k] + r) + a by {
        InOrderSplit(n, p);
      }
      assert t == b + (l + r) + a by {
        assert InOrder(Unlink(u)) == l + r;
      }
      SpliceOut(s, t, b, l, k, r, a);
    }
    assert Position(n, p) == |b| + |l|;
  }



  lemma {:induction false} SpliceOut<K>(s: seq<K>, t: seq<K>, b: seq<K>, l: seq<K>, k: K, r: seq<K>, a: seq<K>)
    requires s == b + (l + [k] + r) + a && t == b + (l + r) + a
    ensures RemovedAt(s, |b| + |l|, t) && s[|b| + |l|] == k
  {
    var i := |b| + |l|;
    assert s == (b + l) + [k] + (r + a);
    assert s[..i] == b + l;
    assert s[i + 1..] == r + a;
  }



  /** `after` is `before` with one key that compares equal to `key` taken out, all else in place. */
  ghost predicate RemovesOneMatch<K>(before: seq<K>, after: seq<K>, cmp: (K, K) -> int, key: K) {
    exists i :: 0 <= i < |before| && cmp(key, before[i]) == 0 && after == before[..i] + before[i + 1..]
  }

  function TreeDelete<K>(tree: Option<Tree<K>>, key: Option<K>): (u: Update<K>)
    ensures u.ok <==> && tree.Some? && key.Some?
                      && RecursiveSearch(tree.value.root, key.value, tree.value.compare).Some?
    ensures !u.ok ==> u.after == tree
    ensures u.ok ==>
      && u.after.Some?
      && u.after.value.compare == tree.value.compare
      && u.after.value.formatter == tree.value.formatter
      && RemovesOneMatch(InOrder(tree.value.root), InOrder(u.after.value.root), tree.value.compare, key.value)
  {
    if tree.None? || key.None? then Update(false, tree)
    else
      var t := tree.value;
      match RecursiveSearch(t.root, key.value, t.compare)
      case None => Update(false, tree)
      case Some(p) =>
        var r := DeleteAt(t.root, p);
        var s, i := InOrder(t.root), Position(t.root, p);
        assert t.compare(key.value, s[i]) == 0;
        assert RemovesOneMatch(s, InOrder(r), t.compare, key.value);
        Update(true, Some(t.(root := r)))
  }

  // --------------------------------------------------------------- rendering

  /** The text appended for the subtree `n`: a space and the formatted key, for every key in order. */
  function SubtreeAsString<K>(n: TreeNode<K>, formatter: K -> string): (s: string)
    ensures s == Render(InOrder(n), formatter)
  {
    match n
    case Nil => ""
    case Node(l, k, r) =>
      var ls := SubtreeAsString(l, formatter);
      var ks := " " + formatter(k);
      var rs := SubtreeAsString(r, formatter);
      RenderAppend(InOrder(l) + [k], InOrder(r), formatter);
      RenderAppend(InOrder(l), [k], formatter);
      assert Render([k], formatter) == ks + Render([], formatter);
      assert ks + Render([], formatter) == ks;
      ls + ks + rs
  }


  function TreeAsString<K>(t: Tree<K>): (s: string)
    ensures s == Label + Render(InOrder(t.root), t.formatter)
  {
    Label + SubtreeAsString(t.root, t.formatter)
  }
}
