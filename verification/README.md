# Generic binary search tree

A functional model of the generic binary search tree in
`BinarySearchTrees/bst.c`. A tree holds keys of any type `K`, together with a
three-way comparator and a formatter. The model covers these operations:

- creating an empty tree;
- inserting a key, where equal keys go right;
- searching by comparison;
- finding the rightmost node of a subtree;
- splicing a subtree into another node's place (transplant);
- deleting the shallowest node that compares equal to a key, by the
  three-case split that uses the in-order predecessor;
- measuring the depth;
- rendering the tree as `"Tree:"` followed by `" " + format(key)` for every
  key in order.

Nodes are an immutable datatype (`Nodes.TreeNode`). The parent back-pointer
is not kept. A node is named by the path of left/right steps that leads to it
from the root, so the C functions that return a node pointer return an
`Option<Path>` here. Transplant replaces the subtree found at a path. A null
`Tree*` or a null key is `None` at the tree-level API (`TreeInsert`,
`Search`, `TreeDelete`). Functions that mutate the tree and return a `bool`
in C return an `Update`: the boolean, plus the tree after the call.

The comparator contract (`bst.c:11-14`) is stated as `Order.ValidComparator`:

- the sign flips when the arguments are swapped;
- "compares at most" is transitive.

Search order is stated in three strengths (`Nodes.Ties`):

- **ties-right:** what insertion produces. Left keys compare below the node;
  right keys do not compare below it.
- **weak:** equal keys may sit on either side. This is exactly "the in-order
  sequence is sorted" (`SearchOrder.BstIffSorted`).
- **strict:** no two keys compare equal.

Insertion keeps the ties-right and the weak order. Inserting a key that
compares equal to one already present breaks the strict order. Deletion keeps the weak and the strict orders, but
not ties-right. In the two-child case (`bst.c:329-334`) the predecessor's key
moves up to the deleted node. A key equal to that predecessor can then end up
in the left subtree of the new node, for example after inserting
10, 5, 5 and 20 and deleting 10. `IntKeys.DeleteCanBreakTiesRight` proves
this on that tree. So the invariant every reachable tree keeps
(`TreeProperties.ValidTree`) is the weak order. Every tree built by any
sequence of inserts and deletes satisfies it (`TreeProperties.RunKeepsValid`).

The C deletion has defects, listed under "Left out". The model follows the
documented contract of `tree_delete` (`bst.c:304-314`):

1. Find the shallowest node that compares equal to the key: the first such
   node on the search path (`TreeProperties.SearchFindsShallowest`).
2. Remove it with the case split at `bst.c:323-334`.
3. Report whether a node was removed.

Modules, one per file:

| file | module | contents |
|---|---|---|
| `order.dfy` | `Order` | comparator contract and its consequences |
| `nodes.dfy` | `Nodes` | nodes, paths, in-order views, the search-order predicates |
| `search_order.dfy` | `SearchOrder` | how the three orders relate to sorted in-order sequences |
| `rendering.dfy` | `Rendering` | the rendered text and how to read it back |
| `bst.dfy` | `BinarySearchTree` | the operations of `bst.c` |
| `tree_properties.dfy` | `TreeProperties` | properties that relate several calls |
| `int_keys.dfy` | `IntKeys` | an `int` comparator and formatter, the demonstration tree of `main.c`, and the ties-right counterexample |

## Model

| member | source | states |
|---|---|---|
| Order.Flip | BinarySearchTrees/bst.c:11-14 | a valid comparator is antisymmetric in sign: `a` compares below `b` exactly when `b` compares above `a`, and equal exactly when `b` compares equal to `a` |
| SearchOrder.BstIffSorted | BinarySearchTrees/bst.c:93-101 | for the weak and strict orders, a tree is a search tree exactly when its in-order key sequence (the order the rendering lists keys in) is sorted |
| Rendering.FieldsOfRender | BinarySearchTrees/bst.c:93-101 | splitting a rendering at its spaces gives back the formatted keys in order, if no formatted key contains a space |
| BinarySearchTree.CreateTree | BinarySearchTrees/bst.c:19-34 | the new tree keeps the given comparator and formatter, holds no keys, has depth 0 and renders as exactly `"Tree:"` |
| BinarySearchTree.MaxDepth | BinarySearchTrees/bst.c:113-126 | the depth is 0 exactly for an empty subtree |
| BinarySearchTree.DepthBounds | BinarySearchTrees/bst.c:113-126 | a subtree of depth `d` holds at least `d` and fewer than 2^d keys |
| BinarySearchTree.TreeDepth | BinarySearchTrees/bst.c:138-140 | the tree's depth is 0 exactly when the root is null, and bounds the key count the same way |
| BinarySearchTree.InsertNode | BinarySearchTrees/bst.c:157-191 | insertion always yields a node, adds exactly one key and deepens the tree by at most one level |
| BinarySearchTree.InsertKeys | BinarySearchTrees/bst.c:157-191 | the key multiset grows by exactly one copy of the inserted key, and every other key stays |
| BinarySearchTree.InsertKeepsBst | BinarySearchTrees/bst.c:164-191 | going left on "compares below" and right otherwise keeps the ties-right order and the weak order |
| BinarySearchTree.TreeInsert | BinarySearchTrees/bst.c:151-195 | returns false and leaves everything unchanged exactly when the tree or the data is null; otherwise returns true and keeps comparator and formatter, and the keys grow by the data |
| BinarySearchTree.RecursiveSearch | BinarySearchTrees/bst.c:197-229 | a found result leads to a node whose key compares equal to the query |
| BinarySearchTree.Search | BinarySearchTrees/bst.c:231-247 | false for a null tree or query; true only if some key compares equal to the query |
| BinarySearchTree.TreeMaximum | BinarySearchTrees/bst.c:249-267 | null exactly for an empty subtree; otherwise a node with no right child and nothing after it in order |
| BinarySearchTree.Transplant | BinarySearchTrees/bst.c:269-302 | the replacement ends up at the replaced node's position, and the in-order sequence is the old context with the replacement's keys in place of the replaced subtree's |
| TreeProperties.TransplantFrame | BinarySearchTrees/bst.c:279-302 | transplant rewrites a single child link: every position off the way to the replaced node keeps its subtree, and every node above it keeps its key |
| BinarySearchTree.Unlink | BinarySearchTrees/bst.c:323-334 | removing a node leaves its left keys followed by its right keys; with two children, the node takes the key of the last (predecessor) key of its left subtree and keeps its right subtree |
| BinarySearchTree.DeleteAt | BinarySearchTrees/bst.c:323-334 | deleting the node at a path removes its key from its position in the in-order sequence, and no other key moves |
| BinarySearchTree.TreeDelete | BinarySearchTrees/bst.c:304-337 | true exactly when the tree and key are non-null and the search finds a node; false leaves everything unchanged; true removes one key that compares equal to the query from the in-order sequence and keeps comparator and formatter |
| TreeProperties.TreeDeleteRemovesShallowest | BinarySearchTrees/bst.c:304-337 | on a valid tree, a successful delete removes the key of the shallowest node comparing equal to the query: that node lies on the way to every node comparing equal, and its key leaves the in-order sequence at its own position, nothing else moving |
| BinarySearchTree.SubtreeAsString | BinarySearchTrees/bst.c:80-101 | the text appended for a subtree is `" " + format(key)` for each of its keys in order |
| BinarySearchTree.TreeAsString | BinarySearchTrees/bst.c:65-78 | the rendering is `"Tree:"` followed by the text of the root's subtree |
| TreeProperties.NodePathWithinDepth | BinarySearchTrees/bst.c:103-126 | every node lies fewer steps below the root than the depth |
| TreeProperties.DeepestPath | BinarySearchTrees/bst.c:103-126 | some node lies exactly depth minus one steps below the root |
| TreeProperties.InsertKeepsNodes | BinarySearchTrees/bst.c:157-191 | insertion moves no existing node: every old node path leads to the same key afterwards |
| TreeProperties.InsertLinksLeaf | BinarySearchTrees/bst.c:157-191 | the new key becomes a leaf, at a slot that was empty and lies directly below an existing node (or at the root) |
| TreeProperties.InsertPosition | BinarySearchTrees/bst.c:164-191 | in in-order, the new key comes after every key that does not compare above it and before every key that does; equal keys end up to its left |
| TreeProperties.SearchFindsShallowest | BinarySearchTrees/bst.c:197-229 | on a search tree, if any node compares equal to the query, the search finds one, and that node is on the path to every such node, so it is the shallowest |
| TreeProperties.EqualKeySide | BinarySearchTrees/bst.c:217-226 | on a search tree, every node comparing equal to the query lies on the side of the current node that the query's comparison sends the search to |
| TreeProperties.SearchComplete | BinarySearchTrees/bst.c:197-229 | on a search tree, the recursive search succeeds exactly when some key compares equal to the query |
| TreeProperties.MaximumIsLast | BinarySearchTrees/bst.c:249-267 | the maximum's key is the last key in order |
| TreeProperties.MaximumIsGreatest | BinarySearchTrees/bst.c:249-267 | on a search tree, no key of the subtree compares above the maximum's key |
| TreeProperties.TransplantKeys | BinarySearchTrees/bst.c:269-302 | transplant trades the keys of the replaced subtree for those of the replacement |
| TreeProperties.TransplantKeepsBst | BinarySearchTrees/bst.c:269-302 | putting in place of a subtree a search tree made of some of its keys keeps the search order |
| TreeProperties.DeleteAtKeys | BinarySearchTrees/bst.c:323-334 | deleting a node removes exactly one copy of its key from the key multiset |
| TreeProperties.DeleteAtKeepsBst | BinarySearchTrees/bst.c:323-334 | deleting a node keeps the weak and the strict order |
| TreeProperties.CreateTreeValid | BinarySearchTrees/bst.c:5-34 | with a valid comparator, a new tree satisfies the invariant |
| TreeProperties.TreeInsertKeepsValid | BinarySearchTrees/bst.c:151-195 | insert keeps the invariant |
| TreeProperties.TreeInsertKeepsTiesRight | BinarySearchTrees/bst.c:151-195 | insert keeps the ties-right order |
| TreeProperties.TreeDeleteKeepsValid | BinarySearchTrees/bst.c:304-337 | delete always returns a tree, and it satisfies the invariant |
| TreeProperties.TreeDeleteKeepsNoTies | BinarySearchTrees/bst.c:304-337 | delete keeps a tree whose keys are pairwise distinct a strict search tree |
| TreeProperties.SearchCorrect | BinarySearchTrees/bst.c:231-247 | on a valid tree, search returns true exactly when some key compares equal to the query |
| TreeProperties.InsertThenSearch | BinarySearchTrees/bst.c:151-247 | after inserting a key into a valid tree, searching for it returns true |
| TreeProperties.TreeDeleteIffPresent | BinarySearchTrees/bst.c:304-314 | on a valid tree, delete returns true exactly when some key compares equal to the query |
| TreeProperties.DeleteThenSearch | BinarySearchTrees/bst.c:304-337 | a successful delete removes one copy of a key equal to the query from the multiset, and a later search succeeds exactly when an equal key remains |
| TreeProperties.DeleteMissingIsNoOp | BinarySearchTrees/bst.c:304-314 | deleting a key that nothing compares equal to returns false and changes nothing |
| TreeProperties.RunKeepsValid | BinarySearchTrees/bst.c:151-337 | every tree built from a valid tree by any sequence of inserts and deletes is valid, and its in-order sequence is sorted |
| TreeProperties.RunInserts | BinarySearchTrees/bst.c:151-195 | calling insert for each key in turn builds the tree that inserting the keys one after the other describes |
| TreeProperties.IncreasingInsertsDegenerate | BinarySearchTrees/bst.c:113-195 | inserting keys in strictly increasing order builds a chain as deep as the number of keys |
| TreeProperties.TreeAsStringRoundTrip | BinarySearchTrees/bst.c:65-101 | the rendering starts with `"Tree:"`, and the rest splits back into the formatted keys in order |
| IntKeys.CompareIntsValid | BinarySearchTrees/bst.c:11-14 | the three-way comparison of integers meets the comparator contract |
| IntKeys.DemoTree | BinarySearchTrees/main.c:8-21 | inserting 6, 21, -4, 0 and 120 gives a tree of depth 3 that renders as `"Tree: -4 0 6 21 120"` |
| IntKeys.IntTreeReadsBack | BinarySearchTrees/main.c:14-21 | the text printed for any tree of `int` keys splits into one field per key, and each field reads back as that key, in in-order sequence |
| IntKeys.DemoDelete | BinarySearchTrees/bst.c:323-334 | on that tree, deleting 6 puts its predecessor 0 at the root and leaves -4, 0, 21, 120; deleting 999 returns false and changes nothing |
| IntKeys.DeleteCanBreakTiesRight | BinarySearchTrees/bst.c:329-334 | after inserting 10, 5, 5 and 20, the tree is ties-right; deleting 10 leaves a weakly ordered tree that is not ties-right |

## Left out

- `create_tree_node` (`bst.c:48-63`) is not a separate member. The `Node(Nil, x, Nil)` that `InsertNode` builds plays its part. The `malloc` and `memcpy` of `data_size` bytes are not modelled: keys are values of type `K`.
- `data_size` is not kept in `Tree`. It only sizes the byte copies.
- `destroy_subtree` and `destroy_tree` (`bst.c:340-371`) only release memory. A functional tree has nothing to release.
- Parent back-pointers (`bst.c:57`, `bst.c:175`, `bst.c:285-298`) are replaced by paths from the root.
- The 1024-byte output buffer (`bst.c:3`, `bst.c:74`) is not modelled. The rendering is an unbounded `string`, so the overflow of the `sprintf` at `bst.c:97` for long renderings is not modelled either.
- The same `sprintf` (`bst.c:97`) reads `output` while writing into it, which is undefined behaviour in C at any length. The model gives it the evidently intended meaning: append `" " + format(key)`.
- `int` results (`max_depth`, the comparator) are unbounded integers. Depths and comparison results stay far from 32-bit limits for any tree that fits in memory.
- `main.c` is not modelled as a program: its `printf` and the test calls from `tree_tests.h` are I/O. `IntKeys.DemoTree` states what its five inserts produce.
- `compare_ints` and `int_formatter` live in a file that is not part of this model. `IntKeys.CompareInts` and `IntKeys.FormatInt` are stand-ins written for the demonstration.
- `tree_delete` as written (`bst.c:316-323`) always removes the root and never searches for `key`. The model follows the documented contract: it removes the shallowest node that compares equal to `key`.
- `tree_delete` reads `tree->root` (`bst.c:316`) before the null check at `bst.c:318`. In the model a null tree simply returns false.
- `transplant` tests `u = u->parent->left` (`bst.c:288`), an assignment where `==` was meant. The model replaces the child that the path actually names.
- `transplant` frees `u` with `destroy_subtree` (`bst.c:301`), which would also free the replacement when it is `u`'s child. The model frees nothing.
- The predecessor's key is aliased rather than copied (`bst.c:332`). In the model the key is a value.
- `recursive_search` returns `true`/`false` from a pointer-returning function (`bst.c:214`, `bst.c:225`). The model returns the path of the found node, or `None`.
- BinarySearchTree.TreeDelete: its own contract says only that one key comparing equal to the query is removed, because which node is the shallowest match is only determined when the tree is a search tree; `TreeProperties.TreeDeleteRemovesShallowest` states the shallowest-node promise of `bst.c:304-314` for valid trees.
- TreeProperties.TreeDeleteKeepsValid: states the weak order (equal keys on either side), not ties-right, because the predecessor deletion at `bst.c:329-334` can leave an equal key on the left (`IntKeys.DeleteCanBreakTiesRight`).
- TreeProperties.TreeAsStringRoundTrip: reads the rendering back only when no formatted key contains a space, because otherwise the text is ambiguous.
- A depth bound for balanced trees (about log2 of the key count) is not stated. The code does no balancing, and `TreeProperties.IncreasingInsertsDegenerate` shows the depth can equal the key count.
