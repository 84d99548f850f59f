/**
 The tree used with `int` keys: a three-way comparator, a decimal formatter,
 the demonstration program's tree, and a small tree showing that deletion by
 predecessor can put a key equal to the new root on its left.
 */
module IntKeys {
  import opened Order
  import opened Nodes
  import opened BinarySearchTree
  import opened TreeProperties
  import opened Rendering

  /** The sign of `a - b`: negative, zero or positive as `a` is below, equal to or above `b`. */
  function CompareInts(a: int, b: int): (c: int)
    ensures c < 0 <==> a < b
    ensures c == 0 <==> a == b
    ensures c > 0 <==> a > b
  {
    if a < b then -1 else if a > b then 1 else 0
  }

  lemma CompareIntsValid()
    ensures ValidComparator(CompareInts)
  {
    forall a: int, b: int, c: int ensures Consistent(CompareInts, a, b, c) {
    }
  }

  function Digit(d: nat): (c: char)
    requires d < 10
    ensures '0' <= c <= '9'
  {
    ('0' as int + d) as char
  }

  /** The decimal digits of `n`, most significant first, with no leading zero. */
  function Digits(n: nat): (s: string)
    ensures |s| >= 1
    ensures forall i | 0 <= i < |s| :: '0' <= s[i] <= '9'
    ensures n >= 10 ==> s[0] != '0'
    decreases n
  {
    if n < 10 then [Digit(n)] else Digits(n / 10) + [Digit(n % 10)]
  }

  /** The decimal text of `i`, with a leading minus sign when it is negative. */
  function FormatInt(i: int): (s: string)
    ensures ' ' !in s
    ensures |s| >= 1 && (s[0] == '-' <==> i < 0)
  {
    if i < 0 then "-" + Digits(-i) else Digits(i)
  }

  function DigitValue(c: char): int {
    (c as int) - ('0' as int)
  }

  /** Reads decimal digits back into a number. */
  function ParseDigits(s: string): int
    decreases |s|
  {
    if s == [] then 0 else 10 * ParseDigits(s[..|s| - 1]) + DigitValue(s[|s| - 1])
  }

  lemma {:induction false} ParseDigitsOf(n: nat)
    ensures ParseDigits(Digits(n)) == n
    decreases n
  {
    if n >= 10 {
      var s := Digits(n);
      assert s[..|s| - 1] == Digits(n / 10);
      ParseDigitsOf(n / 10);
    }
  }

  /** Reads the text of an integer back. */
  function ParseInt(s: string): int {
    if s != [] && s[0] == '-' then -ParseDigits(s[1..]) else ParseDigits(s)
  }

  /** Formatting is injective: the text of an integer reads back as that integer. */
  lemma ParseFormatInt(i: int)
    ensures ParseInt(FormatInt(i)) == i
  {
    var s := FormatInt(i);
    if i < 0 {
      var d := Digits(-i);
      assert s == "-" + d;
      assert s[0] == '-' && s[1..] == d;
      ParseDigitsOf(-i);
      assert ParseInt(s) == -ParseDigits(d);
    } else {
      assert s == Digits(i);
      assert s[0] != '-';
      ParseDigitsOf(i);
    }
  }

  function Leaf(k: int): TreeNode<int> {
    Node(Nil, k, Nil)
  }

  /** An integer tree after inserting `keys` in order into an empty one. */
  function IntTree(keys: seq<int>): Tree<int> {
    Run(CreateTree(CompareInts, FormatInt), Inserts(keys))
  }

  lemma IntTreeRoot(keys: seq<int>)
    ensures IntTree(keys) == Tree(InsertAll(Nil, keys, CompareInts), CompareInts, FormatInt)
  {
    RunInserts(CreateTree(CompareInts, FormatInt), keys);
  }

  lemma DemoRoot()
    ensures InsertAll(Nil, [6, 21, -4, 0, 120], CompareInts)
         == Node(Node(Nil, -4, Leaf(0)), 6, Node(Nil, 21, Leaf(120)))
  {
    var keys := [6, 21, -4, 0, 120];
    var n1 := InsertNode(Nil, 6, CompareInts);
    assert n1 == Leaf(6);
    var n2 := InsertNode(n1, 21, CompareInts);
    assert n2 == Node(Nil, 6, Leaf(21));
    var n3 := InsertNode(n2, -4, CompareInts);
    assert n3 == Node(Leaf(-4), 6, Leaf(21));
    var n4 := InsertNode(n3, 0, CompareInts);
    assert n4 == Node(Node(Nil, -4, Leaf(0)), 6, Leaf(21));
    var n5 := InsertNode(n4, 120, CompareInts);
    assert n5 == Node(Node(Nil, -4, Leaf(0)), 6, Node(Nil, 21, Leaf(120)));
    assert keys[1..] == [21, -4, 0, 120];
    assert InsertAll(Nil, keys, CompareInts) == InsertAll(n1, [21, -4, 0, 120], CompareInts);
    assert InsertAll(n1, [21, -4, 0, 120], CompareInts) == InsertAll(n2, [-4, 0, 120], CompareInts);
    assert InsertAll(n2, [-4, 0, 120], CompareInts) == InsertAll(n3, [0, 120], CompareInts);
    assert InsertAll(n3, [0, 120], CompareInts) == InsertAll(n4, [120], CompareInts);
    assert InsertAll(n4, [120], CompareInts) == n5;
  }

  lemma DigitsStep(n: nat)
    requires n >= 10
    ensures Digits(n) == Digits(n / 10) + [Digit(n % 10)]
  {
  }

  lemma DemoFormats()
    ensures FormatInt(-4) == "-4" && FormatInt(0) == "0" && FormatInt(6) == "6"
    ensures FormatInt(21) == "21" && FormatInt(120) == "120"
  {
    DigitsStep(21);
    DigitsStep(12);
    DigitsStep(120);
  }

  lemma RenderCons<K>(k: K, keys: seq<K>, formatter: K -> string)
    ensures Render([k] + keys, formatter) == " " + formatter(k) + Render(keys, formatter)
  {
    assert ([k] + keys)[1..] == keys;
  }

  lemma RenderFive<K>(k0: K, k1: K, k2: K, k3: K, k4: K, f: K -> string)
    ensures Render([k0, k1, k2, k3, k4], f)
         == " " + f(k0) + (" " + f(k1) + (" " + f(k2) + (" " + f(k3) + (" " + f(k4) + ""))))
  {
    RenderCons(k4, [], f);
    RenderCons(k3, [k4], f);
    RenderCons(k2, [k3, k4], f);
    RenderCons(k1, [k2, k3, k4], f);
    RenderCons(k0, [k1, k2, k3, k4], f);
    assert [k0, k1, k2, k3, k4] == [k0] + ([k1] + ([k2] + ([k3] + [k4])));
  }

  lemma DemoText(keys: seq<int>)
    requires keys == [-4, 0, 6, 21, 120]
    ensures Render(keys, FormatInt) == " -4 0 6 21 120"
  {
    DemoFormats();
    RenderFive(-4, 0, 6, 21, 120, FormatInt);
    var s := " " + "-4" + (" " + "0" + (" " + "6" + (" " + "21" + (" " + "120" + ""))));
    forall i | 0 <= i < |s| ensures s[i] == " -4 0 6 21 120"[i] {
    }
  }

  lemma DemoLabel()
    ensures Label + " -4 0 6 21 120" == "Tree: -4 0 6 21 120"
  {
    var s := Label + " -4 0 6 21 120";
    forall i | 0 <= i < |s| ensures s[i] == "Tree: -4 0 6 21 120"[i] {
    }
  }

  lemma DemoShape(a: int, b: int, c: int, d: int, e: int)
    ensures var n := Node(Node(Nil, a, Leaf(b)), c, Node(Nil, d, Leaf(e)));
            InOrder(n) == [a, b, c, d, e] && MaxDepth(n) == 3
  {
    var l, r := Node(Nil, a, Leaf(b)), Node(Nil, d, Leaf(e));
    assert MaxDepth(Leaf(b)) == 1 && MaxDepth(Leaf(e)) == 1;
    assert MaxDepth(l) == 2 by {
      assert MaxDepth(l.left) == 0 && MaxDepth(l.right) == 1;
    }
    assert MaxDepth(r) == 2 by {
      assert MaxDepth(r.left) == 0 && MaxDepth(r.right) == 1;
    }
    assert InOrder(l) == [a, b] && InOrder(r) == [d, e];
  }

  /** The demonstration program inserts 6, 21, -4, 0 and 120 in that order and prints the tree. */
  lemma DemoTree(keys: seq<int>)
    requires keys == [6, 21, -4, 0, 120]
    ensures var t := IntTree(keys);
            && t.root == Node(Node(Nil, -4, Leaf(0)), 6, Node(Nil, 21, Leaf(120)))
            && TreeDepth(t) == 3
            && TreeAsString(t) == "Tree: -4 0 6 21 120"
  {
    var t := IntTree(keys);
    IntTreeRoot(keys);
    DemoRoot();
    DemoShape(-4, 0, 6, 21, 120);
    DemoText(InOrder(t.root));
    DemoLabel();
  }

  /** On the demonstration tree, deleting 6 puts its predecessor 0 at the root; deleting 999 reports failure. */
  lemma DemoDelete(keys: seq<int>)
    requires keys == [6, 21, -4, 0, 120]
    ensures var t := IntTree(keys);
            var u := TreeDelete(Some(t), Some(6));
            && u.ok
            && u.after == Some(t.(root := Node(Leaf(-4), 0, Node(Nil, 21, Leaf(120)))))
            && InOrder(u.after.value.root) == [-4, 0, 21, 120]
    ensures var t := IntTree(keys);
            TreeDelete(Some(t), Some(999)) == Update(false, Some(t))
  {
    var t := IntTree(keys);
    DemoTree(keys);
    var root := t.root;
    var l := Node(Nil, -4, Leaf(0));
    assert root.left == l;
    assert RecursiveSearch(root, 6, CompareInts) == Some([]);
    assert TreeMaximum(Leaf(0)) == Some([]);
    assert [Right] + [] == [Right];
    assert TreeMaximum(l) == Some([Right]);
    assert SubtreeAt(l, [Right]) == Leaf(0);
    assert Transplant(l, [Right], Nil) == Leaf(-4);
    var r := Node(Leaf(-4), 0, Node(Nil, 21, Leaf(120)));
    assert Unlink(root) == r;
    assert DeleteAt(root, []) == r;
    assert RecursiveSearch(Leaf(120), 999, CompareInts) == None;
    assert RecursiveSearch(root.right, 999, CompareInts) == None;
    assert RecursiveSearch(root, 999, CompareInts) == None;
  }

  /** The printed text of any `int` tree reads back, field by field, as its keys in order. */
  lemma IntTreeReadsBack(t: Tree<int>)
    requires t.formatter == FormatInt
    ensures var s := TreeAsString(t);
            && |Label| <= |s|
            && var fields := Fields(s[|Label|..]);
               && |fields| == |InOrder(t.root)|
               && forall i | 0 <= i < |fields| :: ParseInt(fields[i]) == InOrder(t.root)[i]
  {
    var keys := InOrder(t.root);
    TreeAsStringRoundTrip(t);
    forall i | 0 <= i < |keys| ensures ParseInt(FormatInt(keys[i])) == keys[i] {
      ParseFormatInt(keys[i]);
    }
  }

  lemma TiesRoot()
    ensures InsertAll(Nil, [10, 5, 5, 20], CompareInts) == Node(Node(Nil, 5, Leaf(5)), 10, Leaf(20))
  {
    var keys := [10, 5, 5, 20];
    var n1 := InsertNode(Nil, 10, CompareInts);
    assert n1 == Leaf(10);
    var n2 := InsertNode(n1, 5, CompareInts);
    assert n2 == Node(Leaf(5), 10, Nil);
    var n3 := InsertNode(n2, 5, CompareInts);
    assert n3 == Node(Node(Nil, 5, Leaf(5)), 10, Nil);
    var n4 := InsertNode(n3, 20, CompareInts);
    assert n4 == Node(Node(Nil, 5, Leaf(5)), 10, Leaf(20));
    assert keys[1..] == [5, 5, 20];
    assert InsertAll(Nil, keys, CompareInts) == InsertAll(n1, [5, 5, 20], CompareInts);
    assert InsertAll(n1, [5, 5, 20], CompareInts) == InsertAll(n2, [5, 20], CompareInts);
    assert InsertAll(n2, [5, 20], CompareInts) == InsertAll(n3, [20], CompareInts);
    assert InsertAll(n3, [20], CompareInts) == n4;
  }

  lemma LeafFacts(k: int, ties: Ties)
    ensures Keys(Leaf(k)) == multiset{k}
    ensures IsBst(Leaf(k), CompareInts, ties)
  {
  }

  /** A node `y` with two copies of a smaller `x` on its left and a `z` not below it on its right keeps ties right. */
  lemma TiesBefore(x: int, y: int, z: int)
    requires x < y <= z
    ensures IsBst(Node(Node(Nil, x, Leaf(x)), y, Leaf(z)), CompareInts, TiesRight)
  {
    var l := Node(Nil, x, Leaf(x));
    LeafFacts(x, TiesRight);
    LeafFacts(z, TiesRight);
    assert Keys(l) == multiset{x, x};
  }

  /** A key equal to its parent on the parent's left is ordered weakly but not ties-right. */
  lemma TiesAfter(x: int, z: int)
    requires x <= z
    ensures IsBst(Node(Leaf(x), x, Leaf(z)), CompareInts, TiesEitherSide)
    ensures !IsBst(Node(Leaf(x), x, Leaf(z)), CompareInts, TiesRight)
  {
    assert IsBst(Node(Leaf(x), x, Leaf(z)), CompareInts, TiesEitherSide) by {
      LeafFacts(x, TiesEitherSide);
      LeafFacts(z, TiesEitherSide);
    }
    assert !LeftOf(TiesRight, CompareInts, x, x);
    assert x in Keys(Leaf(x)) by {
      LeafFacts(x, TiesRight);
    }
  }

  lemma TiesDelete(root: TreeNode<int>)
    requires root == Node(Node(Nil, 5, Leaf(5)), 10, Leaf(20))
    ensures RecursiveSearch(root, 10, CompareInts) == Some([])
    ensures DeleteAt(root, []) == Node(Leaf(5), 5, Leaf(20))
  {
    var l := root.left;
    assert TreeMaximum(Leaf(5)) == Some([]);
    assert [Right] + [] == [Right];
    assert TreeMaximum(l) == Some([Right]);
    assert SubtreeAt(l, [Right]) == Leaf(5);
    assert Transplant(l, [Right], Nil) == Leaf(5);
    assert Unlink(root) == Node(Leaf(5), 5, Leaf(20));
  }

  /**
   Inserting 10, 5, 5 and 20 puts the second 5 to the right of the first, as
   insertion does with every equal key. Deleting 10 then moves that second 5
   to the root with the first 5 on its left: the tree is still ordered, but a
   key equal to a node now sits in that node's left subtree.
   */
  lemma DeleteCanBreakTiesRight(keys: seq<int>)
    requires keys == [10, 5, 5, 20]
    ensures var t := IntTree(keys);
            var t' := TreeDelete(Some(t), Some(10)).after.value;
            && IsBst(t.root, CompareInts, TiesRight)
            && t'.root == Node(Leaf(5), 5, Leaf(20))
            && IsBst(t'.root, CompareInts, TiesEitherSide)
            && !IsBst(t'.root, CompareInts, TiesRight)
  {
    var t := IntTree(keys);
    IntTreeRoot(keys);
    TiesRoot();
    TiesBefore(5, 10, 20);
    TiesDelete(t.root);
    TiesAfter(5, 20);
  }
}
