# AVL tree and leaf-depth check, modelled and verified in Dafny

This project models two independent components of a C++ homework repository.

1. **The AVL tree of `avlbst.h`.** This is a binary search tree of pointer-linked nodes. Each
   node carries a signed balance, `height(right) - height(left)`. The tree is kept
   height-balanced by rotations after each insertion and removal.
   - `AvlNodes.Node` is the node class. It has mutable `key`, `value`, `parent`, `left`,
     `right` and `balance` fields.
   - `AvlBst.AvlTree` is the tree class. It has the `root` field and two ghost fields: `Abs`,
     the tree as a value (`AvlShapes.Tree`), and `Repr`, its set of nodes.
   - `Valid()` says that the fields of every node in `Repr`, read as a record, are exactly the
     record the node's place in `Abs` prescribes (`Heap(Repr) == Snap(Abs, null)`).
   - Every pointer-writing method is the source's code, step by step. (The last test of each
     double-rotation balance table, `else if (...getBalance() == 1)` at avlbst.h:202 and 221, is
     a plain `else` in `DoubleRight`/`DoubleLeft`: in an AVL tree that balance is -1, 0 or 1, so
     the two agree.) Each such method is proved to turn the heap into the snapshot of a tree
     given as a pure function of the old one: rotations in `AvlRebalance`, and the two repair
     walks in `AvlRepair`.
   - Lemmas prove what those functions keep: the in-order entries (`Elems`), the node set, the
     BST ordering (`Ordered`) and the AVL invariant (`Balanced`: every balance equals the height
     difference and lies in [-1, 1]). They also prove how high each rebalanced subtree is, which
     is what decides the early stops of `insertFix` and `removeFix`.
2. **The leaf-depth check of `equal-paths.cpp`.** `height` and `equalPaths` are modelled as pure
   functions over a binary-tree datatype (module `EqualPaths`). They are compared with the set of
   leaf depths they are meant to test.

Keys are `int`, ordered by `<`, and values are a type parameter `V`. The source's balance is an
`int8_t`. `UpdateBalance` stores the sum modulo 256 (`Wrap8`), and the proofs show that the
stored sums always stay within [-2, 2], so no wrap-around ever happens.

Four helpers of the base class in `bst.h` are used: `internalFind`, `predecessor`,
`removeHelper` and the base `nodeSwap`. `bst.h` is not part of this model. Each of these helpers
is given a contract and a small body that meets it (`InternalFind`, `Predecessor`,
`RemoveHelper`, `BaseNodeSwap`). The node setters of `bst.h` are read on records by the static
`*Recs` methods (`SetValueRecs`, `SetChildRecs`, `SetLinksRecs` and the like), each stating that
exactly the written field of the written node changes.

The base `nodeSwap` is modelled as the code uses it.
- avlbst.h:368 re-reads `current`'s parent after the swap, and avlbst.h:371 then splices
  `current` out with its left child. So the base `nodeSwap` exchanges the two nodes' positions
  in the tree, and each node keeps its key and value.
- avlbst.h:382-384 then exchanges the two balances, so each balance stays with its position.

## Model

| member | source | states |
|---|---|---|
| AvlNodes.Node.constructor | avlbst.h:51-56 | a new node holds the given key, value and parent, has no children and balance 0 |
| AvlNodes.Node.SetBalance | avlbst.h:79-83 | only the balance changes, to the given value |
| AvlNodes.Node.UpdateBalance | avlbst.h:88-92 | the balance becomes old balance + diff stored in 8 bits; it is the exact sum whenever that fits |
| AvlNodes.Wrap8 | avlbst.h:39 | an `int8_t` store: the result is in [-128, 127], congruent to the input modulo 256, and the input itself when it fits |
| AvlBst.AvlTree.constructor | avlbst.h:131-140 | a new tree is empty, holds no nodes and satisfies the AVL invariant |
| AvlBst.AvlTree.SetValueAt | avlbst.h:241 | setValue at a node changes only that node's value in the tree; the node set is kept |
| AvlBst.AvlTree.Rotate | avlbst.h:145-173 | parent takes grandparent's parent, or becomes root when there is none; grandparent becomes parent's child on the opposite side; parent's inner child moves under grandparent; no key, value or balance changes |
| AvlBst.AvlTree.RotateAt | avlbst.h:145-173 | on a valid tree, the subtree in focus becomes its rotation; the node set is unchanged |
| AvlFrames.SnapRotated | avlbst.h:147-172 | the records of the rotated tree are the old records with exactly rotate's link writes applied |
| AvlRebalance.RotateRight | avlbst.h:159-165 | a right rotation keeps the in-order entries, the node set and distinctness; the left child becomes the top |
| AvlRebalance.RotateLeft | avlbst.h:166-172 | a left rotation keeps the in-order entries, the node set and distinctness; the right child becomes the top |
| AvlRebalance.SingleRight | avlbst.h:189-192 | single rotation of a node two levels heavier on the left: child leaning left with balances 0/0 gives an AVL tree one level lower; level child with balances 1/-1 gives one as high as before |
| AvlRebalance.SingleLeft | avlbst.h:208-211 | the mirror image of SingleRight |
| AvlRebalance.DoubleRight | avlbst.h:193-205 | the left-right double rotation with the balance table keyed on the middle node's old balance gives an AVL tree one level lower, with top balance 0 |
| AvlRebalance.DoubleLeft | avlbst.h:212-224 | the mirror image of DoubleRight |
| AvlRebalance.InsertRebalance | avlbst.h:188-225 | at a grandparent of balance ±2 after an insertion, one single or double rotation gives an AVL tree of balance 0 as high as the subtree was before the insertion, with the same entries and nodes |
| AvlRebalance.RemoveRebalance | avlbst.h:288-329 | at a node of balance ±2 after a removal, the rotations give an AVL tree with the same entries and nodes; it keeps its height exactly when the taller child was level, and otherwise has balance 0 and is one level lower |
| AvlRepair.InsertUpHeights | avlbst.h:181-187 | after the grandparent's update: 0 means its height is unchanged, ±1 means it grew and the walk climbs, ±2 is the rotation case |
| AvlRepair.InsertFixed | avlbst.h:175-226 | the tree insertFix leaves: balance 0 stops, ±1 climbs, ±2 rotates once and stops; the result is an AVL tree with the same entries and nodes |
| AvlRepair.GraftLevel | avlbst.h:251 | a new leaf on the empty side of a node that leaned the other way leaves an AVL subtree of balance 0 with unchanged height |
| AvlRepair.GraftGrown | avlbst.h:252-255 | a new leaf below a leaf makes an AVL subtree one level higher that leans toward the new leaf |
| AvlRepair.RemoveClimb | avlbst.h:279-287 | a subtree that has lost a level puts its parent in the state removeFix is called in, with nextdiff naming the side it hangs on |
| AvlRepair.RemoveFixedStep | avlbst.h:286-330 | the updated balance fits 8 bits; 0 means the subtree lost a level and the walk climbs, ±2 is the rotation case, and ±1 leaves a balanced tree where the walk stops |
| AvlRepair.RemoveFixed | avlbst.h:275-331 | the tree removeFix leaves is an AVL tree with the same entries and nodes |
| AvlRepair.RemoveRotated | avlbst.h:288-329 | after the rotations the walk stops when the taller child was level and climbs otherwise; the result is an AVL tree with the same entries and nodes |
| AvlRepair.RemoveUp | avlbst.h:287 | the walk continued from the parent of a subtree that has lost a level ends in an AVL tree with the same entries and nodes |
| AvlBst.AvlTree.InsertFix | avlbst.h:175-226 | the heap walk leaves exactly the tree InsertFixed describes and keeps the node set |
| AvlBst.AvlTree.InsertFixAbove | avlbst.h:184-225 | after the grandparent's update, stops at 0, recurses at ±1 and rotates at ±2, leaving InsertFixed's tree |
| AvlBst.AvlTree.InsertFixLeft | avlbst.h:188-206 | the zig-zig and zig-zag repairs at balance -2 leave exactly InsertRebalance's tree |
| AvlBst.AvlTree.InsertFixRight | avlbst.h:207-225 | the zig-zig and zig-zag repairs at balance 2 leave exactly InsertRebalance's tree |
| AvlBst.AvlTree.Insert | avlbst.h:232-273 | keeps the AVL invariant and ordering; the map gets key := value; an existing key leaves shape, balances, keys and nodes unchanged; a new key adds exactly one fresh node |
| AvlBst.AvlTree.InsertRoot | avlbst.h:235-238 | into an empty tree, the new root is a fresh leaf of balance 0 holding the one entry |
| AvlBst.AvlTree.OverwriteValue | avlbst.h:240-241 | an existing key gets the new value; shape, balances and nodes are unchanged |
| AvlBst.AvlTree.InsertNew | avlbst.h:243-272 | the descent finds the empty slot for a missing key, links exactly one fresh node there and keeps the AVL invariant and ordering |
| AvlBst.AvlTree.AttachLeaf | avlbst.h:246-269 | linking the new leaf and the parent-balance shortcut or insertFix leave an AVL tree with the leaf's entry added at its place |
| AvlBst.AvlTree.LinkLeaf | avlbst.h:249-250 | setLeft on the new leaf: the tree becomes the old one with the leaf grafted on the empty side of its parent, and the node set grows by exactly the leaf |
| AvlBst.AvlTree.LeafLevels | avlbst.h:251 | when the parent leaned the other way, setting its balance to 0 leaves an AVL tree |
| AvlBst.AvlTree.LeafGrows | avlbst.h:252-255 | when the parent was level, updating its balance and calling insertFix leaves an AVL tree |
| AvlBst.AvlTree.InternalFind | avlbst.h:240 | returns null exactly when the key is absent, and otherwise the node holding it |
| AvlBst.AvlTree.RemoveFix | avlbst.h:275-331 | the heap walk leaves exactly the tree RemoveFixed describes and keeps the node set |
| AvlBst.AvlTree.ClimbDifference | avlbst.h:279-284 | returns the parent of the focused node, null exactly at the root, and the difference to pass up: 1 for a left child, -1 for a right child, 0 at the root |
| AvlBst.AvlTree.RemoveFixBalance | avlbst.h:287-330 | once the parent's balance has taken the difference, climbing at 0, rotating at ±2 and stopping at ±1 leave exactly RemoveFixed's tree |
| AvlBst.AvlTree.RemoveFixUp | avlbst.h:287 | removeFix(grandparent, nextdiff) leaves RemoveUp's tree, and returns at once when there is no grandparent |
| AvlBst.AvlTree.RemoveFixLeft | avlbst.h:288-308 | the three repairs at balance -2 leave RemoveRotated's tree; the one with a level taller child stops |
| AvlBst.AvlTree.RemoveFixLeftDouble | avlbst.h:299-305 | the left-right double rotation and its balance table leave RemoveRebalance's tree |
| AvlBst.AvlTree.RemoveFixRight | avlbst.h:309-329 | the three repairs at balance 2 leave RemoveRotated's tree; the one with a level taller child stops |
| AvlBst.AvlTree.RemoveFixRightDouble | avlbst.h:320-326 | the right-left double rotation and its balance table leave RemoveRebalance's tree |
| AvlBst.AvlTree.Remove | avlbst.h:337-376 | keeps the AVL invariant and ordering and removes exactly the key from the map; a present key frees exactly one node; an absent key leaves the tree and node set unchanged |
| AvlBst.AvlTree.RemoveNode | avlbst.h:347-375 | removing the node found keeps the AVL invariant, takes exactly its key out of the map and frees exactly that node |
| AvlBst.AvlTree.RemoveSpliced | avlbst.h:355-363 | splicing out a node with at most one child and running removeFix leaves an AVL tree without that node's key |
| AvlBst.AvlTree.RemoveSwapped | avlbst.h:364-372 | a node with two children is exchanged with its predecessor and spliced out from there; the key is gone and exactly that node leaves |
| AvlBst.AvlTree.Predecessor | avlbst.h:365-366 | for a node with a left child: the end of the right spine of its left subtree, holding the largest key below the node's key |
| AvlBst.AvlTree.BaseNodeSwap | avlbst.h:367-371 | the base nodeSwap exchanges the positions of a two-child node and its predecessor; each keeps its key, value and balance |
| AvlBst.AvlTree.NodeSwap | avlbst.h:378-385 | after the base swap the balances are exchanged, so each position keeps its balance; the removed node ends at the predecessor's place with no right child |
| AvlBst.AvlTree.RemoveHelper | avlbst.h:356-371 | the only child, or nothing, takes the node's place below its parent, or as the root; the node leaves the tree |
| AvlRemove.SpliceOrder | avlbst.h:355-363 | splicing out a node with at most one child keeps the ordering and removes exactly its key |
| AvlRemove.SpliceBalance | avlbst.h:355-363 | after such a splice the remaining child is an AVL tree one level lower, and the ancestors still describe the old height |
| AvlRemove.PredecessorLargest | avlbst.h:365-366 | the right-spine end of the left subtree holds the largest key below the node's key |
| AvlRemove.ExchangedBalance | avlbst.h:379-385 | the exchange with the predecessor, balances following positions, keeps the AVL invariant; both balances are in [-1, 1] |
| AvlRemove.ExchangedOrder | avlbst.h:364-372 | removing the node from the predecessor's place keeps the ordering and removes exactly its key |
| AvlOrder.OverwriteAt | avlbst.h:241 | overwriting the value of a node changes only that key's entry in the map |
| AvlOrder.OverwriteShape | avlbst.h:241 | overwriting a value keeps nodes, keys, balances and links |
| AvlOrder.DescendBounded | avlbst.h:246-270 | a search for a key goes left when the key is smaller and right otherwise, and the key stays between the bounds of the path |
| AvlOrder.MissingAtEmpty | avlbst.h:247-262 | a search that reaches an empty slot within its bounds shows that the key is absent |
| AvlOrder.GraftOrder | avlbst.h:247-263 | a new leaf linked at that slot keeps the ordering and adds exactly key := value |
| EqualPaths.Height | equal-paths.cpp:11-18 | the height is 0 exactly for the empty tree; HeightStep and HeightIsDeepestLeaf give its meaning |
| EqualPaths.EqualPaths | equal-paths.cpp:21-32 | a root with two children whose leaves all lie at one depth is accepted; its other cases are given by EqualPathsTrivial, EqualPathsOnlyChildLeaf and EqualPathsOtherwise |
| EqualPaths.UniformHeights | equal-paths.cpp:31 | below a root with two children whose leaves share a depth, the two heights that line compares are equal |
| EqualPaths.HeightStep | equal-paths.cpp:11-18 | the height of a non-empty node is 1 + the larger child height, so it exceeds each child's height |
| EqualPaths.HeightIsDeepestLeaf | equal-paths.cpp:11-18 | every leaf lies less than height levels below the top, and some leaf lies exactly height - 1 levels below it |
| EqualPaths.EqualPathsTrivial | equal-paths.cpp:23-24 | the empty tree and a single leaf are accepted |
| EqualPaths.EqualPathsOnlyChildLeaf | equal-paths.cpp:25-29 | a root whose only child is a leaf is accepted |
| EqualPaths.EqualPathsOtherwise | equal-paths.cpp:31 | in every other case the result is exactly height(left) == height(right); a root whose only child is not a leaf is rejected |
| EqualPaths.TwoLeaves | equal-paths.cpp:31 | a root with two leaf children is accepted |
| EqualPaths.LeafBesideTwoLeaves | equal-paths.cpp:31 | a root with a leaf child and a child with two leaves is rejected (heights 1 and 2) |
| EqualPaths.ChainRejected | equal-paths.cpp:25-31 | the chain root -> right -> right has all its leaves at one depth and is rejected |
| EqualPaths.UnevenAccepted | equal-paths.cpp:31 | a tree with leaves at depths 2 and 3 is accepted, because its two subtrees have equal height |
| EqualPaths.LeafLevelSpec | equal-paths.cpp:21-32 | the intended check's helper succeeds exactly when all leaves share a depth, and then names it |
| EqualPaths.UniformLeavesCorrect | equal-paths.cpp:21-32 | the intended check accepts a tree exactly when all its leaves lie at one depth |

## Left out

- `bst.h` is not part of this model. The base-class helpers `internalFind`, `predecessor`,
  `removeHelper` and `nodeSwap`, and the link setters, are modelled by their contracts, each
  with a body that meets it. Printing, iteration, lookup for callers, `clear` and the
  successor function are not modelled.
- Predecessor and BaseNodeSwap: specified only for the case `remove` uses, a node with two
  children and its in-order predecessor. The base class's general behaviour on other pairs is
  not modelled.
- `new`/`delete` (avlbst.h:236, 249, 262, 374): allocation is `new` on a fresh node, and deletion
  is the node leaving `Repr`. Freeing memory is not modelled.
- The covariant `static_cast` getters (avlbst.h:94-120) are not modelled. There is one node class
  that always carries a balance.
- The empty branch `if (current == root_) {}` (avlbst.h:343-345) has no effect and is not
  modelled. The unused `KeyError` struct (avlbst.h:11) is not modelled either.
- Keys are `int` compared with `<`. The source's template parameter `Key` with `operator<` is
  not modelled in general.
- The worst-case height bound of AVL trees (about 1.44 log2(n + 2)) is not stated; it follows
  from the AVL invariant that is proved. Example removal sequences over concrete keys follow
  from `Remove`'s contract (the map loses exactly the key, ordering and balance are kept) and
  are not restated. The exact shape an example insertion sequence produces (for 1..7, a
  complete tree of height 3 rooted at 4) depends on which rotations insertFix chooses and is not
  proved: the contracts fix the entries and the AVL invariant, not the shape.
- The node type of `equal-paths.cpp` comes from `equal-paths.h`, which is not part of this model.
  Its payload plays no part in the check and is left out of `BTree`.
- Nothing here is concurrent, and no I/O is modelled. The `<iostream>` include is unused by the core.

## Findings

| source | as written | input that shows it | evidently intended | confidence | as-written member | corrected member |
|---|---|---|---|---|---|---|
| equal-paths.cpp:25-31 | a root with one child that is not a leaf falls through to `height(left) == height(right)`, which compares 0 with a positive height | the chain root -> right -> right: its only leaf trivially lies at one depth, yet the result is false | true whenever all leaves lie at the same depth | high (not executed; proved) | EqualPaths.ChainRejected | EqualPaths.UniformLeavesCorrect |
| equal-paths.cpp:31 | only the heights of the root's two subtrees are compared; neither subtree is checked recursively | left subtree with leaves at depths 2 and 3, right subtree with its leaf at depth 3: both heights are 3, so the result is true | false, because two leaves lie at different depths | high (not executed; proved) | EqualPaths.UnevenAccepted | EqualPaths.UniformLeavesCorrect |
