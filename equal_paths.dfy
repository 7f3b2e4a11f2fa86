/**
 * The leaf-depth check of equal-paths.cpp over a plain binary tree: `height` counts the
 * nodes on the longest downward path and `equalPaths` compares the heights of the root's two
 * subtrees, after accepting an empty tree, a single leaf and a root whose only child is a leaf.
 *
 * The check is meant to tell whether every leaf lies at the same depth. It does not: it
 * rejects a chain (whose only leaf trivially satisfies the property) and it never looks below
 * the root's children. EqualPaths models the code as written; UniformLeaves is the intended
 * check, proved against the set of leaf depths.
 */
module EqualPaths {

  /** A binary tree; Nil is the null pointer. The payload of a node plays no part in the check. */
  datatype BTree = Nil | Node(left: BTree, right: BTree)

  predicate IsLeaf(t: BTree)
  {
    t.Node? && t.left.Nil? && t.right.Nil?
  }

  /** height(current): 0 for null, 1 for a leaf, otherwise the larger of 1 + the children's heights. */
  function Height(t: BTree): (h: nat)
    ensures h == 0 <==> t.Nil?
  {
    if t.Nil? then 0
    else if IsLeaf(t) then 1
    else
      var left := 1 + Height(t.left);
      var right := 1 + Height(t.right);
      if right > left then right else left
  }

  /**
   * equalPaths(root), branch for branch as the source writes it. A root with two children whose
   * leaves all lie at one depth is accepted: the check rejects no such tree wrongly.
   */
  predicate EqualPaths(root: BTree): (r: bool)
    ensures root.Node? && root.left.Node? && root.right.Node? && AllEqual(LeafDepths(root, 0)) ==> r
  {
    if root.Nil? then true
    else if IsLeaf(root) then true
    else if root.left.Nil? && IsLeaf(root.right) then true
    else if root.right.Nil? && IsLeaf(root.left) then true
    else
      UniformHeights(root);
      Height(root.left) == Height(root.right)
  }

  // ---------------------------------------------------------------- the depths of the leaves

  /** The depths of the leaves of t, when t's top node lies at depth d. */
  function LeafDepths(t: BTree, d: nat): set<nat>
  {
    if t.Nil? then {}
    else if IsLeaf(t) then {d}
    else LeafDepths(t.left, d + 1) + LeafDepths(t.right, d + 1)
  }

  /** No two elements differ. */
  predicate AllEqual(s: set<nat>)
  {
    forall a, b | a in s && b in s :: a == b
  }

  // ---------------------------------------------------------------- height

  /** The height of a non-empty tree is one more than that of either child, and exactly one more than the taller. */
  lemma {:induction false} HeightStep(t: BTree)
    requires t.Node?
    ensures Height(t) == 1 + (if Height(t.left) < Height(t.right) then Height(t.right) else Height(t.left))
    ensures Height(t) > Height(t.left) && Height(t) > Height(t.right)
  {
  }

  /**
   * The height is the number of nodes on a longest path from the top to a leaf: every leaf
   * of t lies less than Height(t) levels below t's top, and some leaf lies exactly
   * Height(t) - 1 levels below it.
   */
  lemma {:induction false} HeightIsDeepestLeaf(t: BTree, d: nat)
    ensures forall x | x in LeafDepths(t, d) :: x < d + Height(t)
    ensures t.Node? ==> d + Height(t) - 1 in LeafDepths(t, d)
  {
    if t.Node? && !IsLeaf(t) {
      HeightIsDeepestLeaf(t.left, d + 1);
      HeightIsDeepestLeaf(t.right, d + 1);
      HeightStep(t);
    }
  }

  /** Below a root with two children whose leaves all share a depth, the two subtrees are equally high. */
  lemma {:induction false} UniformHeights(t: BTree)
    requires t.Node?
    ensures t.left.Node? && t.right.Node? && AllEqual(LeafDepths(t, 0)) ==> Height(t.left) == Height(t.right)
  {
    if t.left.Node? && t.right.Node? && AllEqual(LeafDepths(t, 0)) {
      HeightIsDeepestLeaf(t.left, 1);
      HeightIsDeepestLeaf(t.right, 1);
      assert Height(t.left) in LeafDepths(t, 0) && Height(t.right) in LeafDepths(t, 0);
    }
  }

  // ---------------------------------------------------------------- equalPaths as written

  /** equalPaths accepts the empty tree and a single leaf. */
  lemma {:induction false} EqualPathsTrivial(t: BTree)
    requires t.Nil? || IsLeaf(t)
    ensures EqualPaths(t)
  {
  }

  /** A root whose only child is a leaf is accepted. */
  lemma {:induction false} EqualPathsOnlyChildLeaf(leaf: BTree)
    requires IsLeaf(leaf)
    ensures EqualPaths(Node(leaf, Nil)) && EqualPaths(Node(Nil, leaf))
  {
  }

  /**
   * In every other case equalPaths compares the heights of the two subtrees and looks no
   * deeper; in particular a root whose only child is not a leaf is rejected.
   */
  lemma {:induction false} EqualPathsOtherwise(t: BTree)
    requires t.Node? && !IsLeaf(t)
    requires !(t.left.Nil? && IsLeaf(t.right)) && !(t.right.Nil? && IsLeaf(t.left))
    ensures EqualPaths(t) <==> Height(t.left) == Height(t.right)
    ensures t.left.Nil? || t.right.Nil? ==> !EqualPaths(t)
  {
    HeightStep(t);
    if t.left.Node? {
      HeightStep(t.left);
    }
    if t.right.Node? {
      HeightStep(t.right);
    }
  }

  /** A root with two leaf children is accepted. */
  lemma {:induction false} TwoLeaves()
    ensures var leaf := Node(Nil, Nil); EqualPaths(Node(leaf, leaf))
  {
  }

  /** A root with a leaf child and a child with two leaves is rejected: the heights are 1 and 2. */
  lemma {:induction false} LeafBesideTwoLeaves()
    ensures var leaf := Node(Nil, Nil);
      Height(leaf) == 1 && Height(Node(leaf, leaf)) == 2 && !EqualPaths(Node(leaf, Node(leaf, leaf)))
  {
    var leaf := Node(Nil, Nil);
    assert Height(Node(leaf, leaf)) == 2;
  }

  /** The chain root -> right -> right has one leaf, so all its leaves share a depth, yet it is rejected. */
  lemma {:induction false} ChainRejected()
    ensures var chain := Node(Nil, Node(Nil, Node(Nil, Nil)));
      LeafDepths(chain, 0) == {2} && AllEqual(LeafDepths(chain, 0)) && !EqualPaths(chain)
  {
    var leaf := Node(Nil, Nil);
    assert LeafDepths(Node(Nil, leaf), 1) == {2};
    assert Height(Node(Nil, leaf)) == 2;
  }

  /**
   * Two subtrees of height 3 whose own leaves lie at depths 2 and 3: the subtree heights agree,
   * so the tree is accepted, though its leaves do not all share a depth.
   */
  lemma {:induction false} UnevenAccepted()
    ensures var leaf := Node(Nil, Nil);
      var t := Node(Node(leaf, Node(leaf, Nil)), Node(Node(leaf, Nil), Nil));
      LeafDepths(t, 0) == {2, 3} && !AllEqual(LeafDepths(t, 0)) && EqualPaths(t)
  {
    var leaf := Node(Nil, Nil);
    var a, b := Node(leaf, Node(leaf, Nil)), Node(Node(leaf, Nil), Nil);
    assert LeafDepths(Node(leaf, Nil), 2) == {3};
    assert LeafDepths(a, 1) == {2, 3};
    assert LeafDepths(Node(leaf, Nil), 2) == {3};
    assert LeafDepths(b, 1) == {3};
    assert Height(Node(leaf, Nil)) == 2;
    assert Height(a) == 3 && Height(b) == 3;
    assert 2 in LeafDepths(Node(a, b), 0) && 3 in LeafDepths(Node(a, b), 0);
  }

  // ---------------------------------------------------------------- the intended check

  /**
   * The common height of a non-empty tree whose leaves all lie at one depth, measured from
   * its top node (1 for a leaf), or None when two leaves lie at different depths.
   */
  function LeafLevel(t: BTree): Option
    requires t.Node?
  {
    if IsLeaf(t) then Some(1)
    else if t.left.Nil? then Inc(LeafLevel(t.right))
    else if t.right.Nil? then Inc(LeafLevel(t.left))
    else
      var l, r := LeafLevel(t.left), LeafLevel(t.right);
      if l.Some? && l == r then Inc(l) else None
  }

  datatype Option = None | Some(level: nat)

  function Inc(o: Option): Option
  {
    if o.None? then None else Some(o.level + 1)
  }

  /** The intended equalPaths: every leaf at the same depth, checked through every level. */
  predicate UniformLeaves(root: BTree)
  {
    root.Nil? || LeafLevel(root).Some?
  }

  /** LeafLevel succeeds exactly when the leaves share a depth, and then names that depth. */
  lemma {:induction false} LeafLevelSpec(t: BTree, d: nat)
    requires t.Node?
    ensures LeafLevel(t).Some? <==> AllEqual(LeafDepths(t, d))
    ensures LeafLevel(t).Some? ==> LeafLevel(t).level >= 1 && LeafDepths(t, d) == {d + LeafLevel(t).level - 1}
  {
    if IsLeaf(t) {
    } else if t.left.Nil? {
      LeafLevelSpec(t.right, d + 1);
    } else if t.right.Nil? {
      LeafLevelSpec(t.left, d + 1);
    } else {
      LeafLevelSpec(t.left, d + 1);
      LeafLevelSpec(t.right, d + 1);
      var l, r := LeafLevel(t.left), LeafLevel(t.right);
      var L, R := LeafDepths(t.left, d + 1), LeafDepths(t.right, d + 1);
      if l.Some? && r.Some? && l != r {
        assert d + l.level in LeafDepths(t, d) && d + r.level in LeafDepths(t, d);
      } else if l.None? {
        var a, b :| a in L && b in L && a != b;
        assert a in LeafDepths(t, d) && b in LeafDepths(t, d);
      } else if r.None? {
        var a, b :| a in R && b in R && a != b;
        assert a in LeafDepths(t, d) && b in LeafDepths(t, d);
      }
    }
  }

  /** The intended check accepts a tree exactly when all of its leaves lie at one depth. */
  lemma {:induction false} UniformLeavesCorrect(root: BTree)
    ensures UniformLeaves(root) <==> AllEqual(LeafDepths(root, 0))
  {
    if root.Node? {
      LeafLevelSpec(root, 0);
    }
  }
}
