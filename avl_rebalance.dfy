/**
 * The rotations of `AVLTree::rotate` and the rebalancing done by `insertFix` and `removeFix`
 * when a balance reaches -2 or 2, as functions on tree values. The heap-level methods in
 * module AvlBst are proved to produce exactly these trees.
 */
module AvlRebalance {
  import opened Entries
  import opened AvlShapes

  /** rotate(grandparent, parent, true): parent, the left child, takes grandparent's place. */
  function RotateRight<V>(t: Tree<V>): (r: Tree<V>)
    requires t.Branch? && t.left.Branch?
    ensures r.Branch? && r.node == t.left.node && r.right.Branch? && r.right.node == t.node
    ensures Elems(r) == Elems(t) && Nodes(r) == Nodes(t)
    ensures Distinct(t) ==> Distinct(r)
  {
    var p := t.left;
    var r := Branch(p.left, p.node, p.key, p.value, p.bal, Branch(p.right, t.node, t.key, t.value, t.bal, t.right));
    assert Elems(r) == Elems(p.left) + [(p.key, p.value)] + (Elems(p.right) + [(t.key, t.value)] + Elems(t.right));
    RotateRightDistinct(t);
    r
  }

  /** rotate(grandparent, parent, false): parent, the right child, takes grandparent's place. */
  function RotateLeft<V>(t: Tree<V>): (r: Tree<V>)
    requires t.Branch? && t.right.Branch?
    ensures r.Branch? && r.node == t.right.node && r.left.Branch? && r.left.node == t.node
    ensures Elems(r) == Elems(t) && Nodes(r) == Nodes(t)
    ensures Distinct(t) ==> Distinct(r)
  {
    var p := t.right;
    var r := Branch(Branch(t.left, t.node, t.key, t.value, t.bal, p.left), p.node, p.key, p.value, p.bal, p.right);
    assert Elems(r) == (Elems(t.left) + [(t.key, t.value)] + Elems(p.left)) + [(p.key, p.value)] + Elems(p.right);
    RotateLeftDistinct(t);
    r
  }

  lemma {:induction false} RotateRightDistinct<V>(t: Tree<V>)
    requires t.Branch? && t.left.Branch?
    ensures var p := t.left;
      Distinct(t) ==> Distinct(Branch(p.left, p.node, p.key, p.value, p.bal, Branch(p.right, t.node, t.key, t.value, t.bal, t.right)))
  {
    var p := t.left;
    if Distinct(t) {
      assert Distinct(p);
      assert Nodes(Branch(p.right, t.node, t.key, t.value, t.bal, t.right)) == Nodes(p.right) + {t.node} + Nodes(t.right);
      assert Nodes(p) == Nodes(p.left) + {p.node} + Nodes(p.right);
    }
  }

  lemma {:induction false} RotateLeftDistinct<V>(t: Tree<V>)
    requires t.Branch? && t.right.Branch?
    ensures var p := t.right;
      Distinct(t) ==> Distinct(Branch(Branch(t.left, t.node, t.key, t.value, t.bal, p.left), p.node, p.key, p.value, p.bal, p.right))
  {
    var p := t.right;
    if Distinct(t) {
      assert Distinct(p);
      assert Nodes(Branch(t.left, t.node, t.key, t.value, t.bal, p.left)) == Nodes(t.left) + {t.node} + Nodes(p.left);
      assert Nodes(p) == Nodes(p.left) + {p.node} + Nodes(p.right);
    }
  }

  /** Changing balance snapshots leaves everything but balances alone. */
  lemma {:induction false} SetBalShape<V>(t: Tree<V>, b: int)
    requires t.Branch?
    ensures Nodes(t.(bal := b)) == Nodes(t) && Elems(t.(bal := b)) == Elems(t)
    ensures Height(t.(bal := b)) == Height(t)
    ensures Distinct(t.(bal := b)) <==> Distinct(t)
  {
  }

  /** Subtree heights after the left-right double rotation of a node two levels heavier on the left. */
  lemma {:induction false} DoubleRightHeights<V>(t: Tree<V>)
    requires t.Branch? && t.left.Branch? && t.left.right.Branch?
    ensures t.left.bal == 1 && Balanced(t.left) && Balanced(t.right) && Height(t.left) == Height(t.right) + 2 ==>
      var r := RotateRight(t.(left := RotateLeft(t.left))); var h := Height(t.right);
      r.left.Branch? && r.right.Branch? && -1 <= r.bal <= 1 &&
      Balanced(r.left.left) && Balanced(r.left.right) && Balanced(r.right.left) && Balanced(r.right.right) &&
      Height(r.left.left) == h && Height(r.right.right) == h &&
      Height(r.left.right) == (if r.bal == 1 then h - 1 else h) &&
      Height(r.right.left) == (if r.bal == -1 then h - 1 else h)
  {
    var p := t.left;
    if t.left.bal == 1 && Balanced(t.left) && Balanced(t.right) && Height(t.left) == Height(t.right) + 2 {
      assert Balanced(p.right);
      var c := p.right;
      assert Balanced(c.left) && Balanced(c.right);
    }
  }

  /** Subtree heights after the right-left double rotation of a node two levels heavier on the right. */
  lemma {:induction false} DoubleLeftHeights<V>(t: Tree<V>)
    requires t.Branch? && t.right.Branch? && t.right.left.Branch?
    ensures t.right.bal == -1 && Balanced(t.left) && Balanced(t.right) && Height(t.right) == Height(t.left) + 2 ==>
      var r := RotateLeft(t.(right := RotateRight(t.right))); var h := Height(t.left);
      r.left.Branch? && r.right.Branch? && -1 <= r.bal <= 1 &&
      Balanced(r.left.left) && Balanced(r.left.right) && Balanced(r.right.left) && Balanced(r.right.right) &&
      Height(r.left.left) == h && Height(r.right.right) == h &&
      Height(r.left.right) == (if r.bal == 1 then h - 1 else h) &&
      Height(r.right.left) == (if r.bal == -1 then h - 1 else h)
  {
    var p := t.right;
    if t.right.bal == -1 && Balanced(t.left) && Balanced(t.right) && Height(t.right) == Height(t.left) + 2 {
      assert Balanced(p.left);
      var c := p.left;
      assert Balanced(c.left) && Balanced(c.right);
    }
  }

  /** The two rotations of the left-right case keep the entries and the nodes. */
  lemma {:induction false} DoubleRightShape<V>(t: Tree<V>)
    requires t.Branch? && t.left.Branch? && t.left.right.Branch?
    ensures var r := RotateRight(t.(left := RotateLeft(t.left)));
      Elems(r) == Elems(t) && Nodes(r) == Nodes(t) && (Distinct(t) ==> Distinct(r))
  {
    var t1 := t.(left := RotateLeft(t.left));
    assert Elems(t1) == Elems(t) && Nodes(t1) == Nodes(t);
    assert Distinct(t) ==> Distinct(t1);
  }

  /** The two rotations of the right-left case keep the entries and the nodes. */
  lemma {:induction false} DoubleLeftShape<V>(t: Tree<V>)
    requires t.Branch? && t.right.Branch? && t.right.left.Branch?
    ensures var r := RotateLeft(t.(right := RotateRight(t.right)));
      Elems(r) == Elems(t) && Nodes(r) == Nodes(t) && (Distinct(t) ==> Distinct(r))
  {
    var t1 := t.(right := RotateRight(t.right));
    assert Elems(t1) == Elems(t) && Nodes(t1) == Nodes(t);
    assert Distinct(t) ==> Distinct(t1);
  }

  /** Sets the balance snapshots of a node and its two children. */
  function SetBals<V>(r: Tree<V>, b: int, bl: int, br: int): (u: Tree<V>)
    requires r.Branch? && r.left.Branch? && r.right.Branch?
    ensures Nodes(u) == Nodes(r) && Elems(u) == Elems(r)
    ensures Distinct(u) <==> Distinct(r)
    ensures u.Branch? && u.bal == b
    ensures Height(u) == Height(r)
    ensures
      (Balanced(r.left.left) && Balanced(r.left.right) && Balanced(r.right.left) && Balanced(r.right.right) &&
       bl == Height(r.left.right) - Height(r.left.left) && -1 <= bl <= 1 &&
       br == Height(r.right.right) - Height(r.right.left) && -1 <= br <= 1 &&
       b == Height(r.right) - Height(r.left) && -1 <= b <= 1) ==> Balanced(u)
  {
    SetBalShape(r.left, bl);
    SetBalShape(r.right, br);
    r.(bal := b, left := r.left.(bal := bl), right := r.right.(bal := br))
  }

  function Rotated<V>(t: Tree<V>, direction: bool): (r: Tree<V>)
    requires t.Branch? && (if direction then t.left.Branch? else t.right.Branch?)
  {
    if direction then RotateRight(t) else RotateLeft(t)
  }

  /**
   * rotate(t, t.left, true) followed by setting the balances of the new top and of t's node
   * to b and bt. On a node two levels heavier on the left this gives an AVL tree; it is one
   * level lower when the left child leaned left (balances 0 and 0) and keeps the height when
   * the left child was level (balances 1 and -1).
   */
  function SingleRight<V>(t: Tree<V>, b: int, bt: int): (r: Tree<V>)
    requires t.Branch? && t.left.Branch?
    ensures Elems(r) == Elems(t) && Nodes(r) == Nodes(t)
    ensures Distinct(t) ==> Distinct(r)
    ensures r.Branch? && r.bal == b
    ensures Balanced(t.left) && Balanced(t.right) && Height(t.left) == Height(t.right) + 2 ==>
      (t.left.bal == -1 && b == 0 && bt == 0 ==> Balanced(r) && Height(r) == Height(t) - 1) &&
      (t.left.bal == 0 && b == 1 && bt == -1 ==> Balanced(r) && Height(r) == Height(t))
  {
    var r := RotateRight(t);
    SetBalShape(r.right, bt);
    r.(bal := b, right := r.right.(bal := bt))
  }

  /** The mirror image of SingleRight. */
  function SingleLeft<V>(t: Tree<V>, b: int, bt: int): (r: Tree<V>)
    requires t.Branch? && t.right.Branch?
    ensures Elems(r) == Elems(t) && Nodes(r) == Nodes(t)
    ensures Distinct(t) ==> Distinct(r)
    ensures r.Branch? && r.bal == b
    ensures Balanced(t.left) && Balanced(t.right) && Height(t.right) == Height(t.left) + 2 ==>
      (t.right.bal == 1 && b == 0 && bt == 0 ==> Balanced(r) && Height(r) == Height(t) - 1) &&
      (t.right.bal == 0 && b == -1 && bt == 1 ==> Balanced(r) && Height(r) == Height(t))
  {
    var r := RotateLeft(t);
    SetBalShape(r.left, bt);
    r.(bal := b, left := r.left.(bal := bt))
  }

  /**
   * rotate(t.left, c, false) then rotate(t, c, true), where c is the right child of t.left,
   * followed by the balance table keyed on c's balance. On a node two levels heavier on the
   * left whose left child leans right, the result is an AVL tree one level lower, rooted at c
   * with balance 0.
   */
  function DoubleRight<V>(t: Tree<V>): (r: Tree<V>)
    requires t.Branch? && t.left.Branch? && t.left.right.Branch?
    ensures Elems(r) == Elems(t) && Nodes(r) == Nodes(t)
    ensures Distinct(t) ==> Distinct(r)
    ensures r.Branch?
    ensures t.left.bal == 1 && Balanced(t.left) && Balanced(t.right) && Height(t.left) == Height(t.right) + 2 ==>
      Balanced(r) && r.bal == 0 && Height(r) == Height(t) - 1
  {
    var r := RotateRight(t.(left := RotateLeft(t.left)));
    DoubleRightShape(t);
    DoubleRightHeights(t);
    if r.bal == 0 then SetBals(r, 0, 0, 0)
    else if r.bal == -1 then SetBals(r, 0, 0, 1)
    else SetBals(r, 0, -1, 0)
  }

  /** The mirror image of DoubleRight. */
  function DoubleLeft<V>(t: Tree<V>): (r: Tree<V>)
    requires t.Branch? && t.right.Branch? && t.right.left.Branch?
    ensures Elems(r) == Elems(t) && Nodes(r) == Nodes(t)
    ensures Distinct(t) ==> Distinct(r)
    ensures r.Branch?
    ensures t.right.bal == -1 && Balanced(t.left) && Balanced(t.right) && Height(t.right) == Height(t.left) + 2 ==>
      Balanced(r) && r.bal == 0 && Height(r) == Height(t) - 1
  {
    var r := RotateLeft(t.(right := RotateRight(t.right)));
    DoubleLeftShape(t);
    DoubleLeftHeights(t);
    if r.bal == 0 then SetBals(r, 0, 0, 0)
    else if r.bal == -1 then SetBals(r, 0, 0, 1)
    else SetBals(r, 0, -1, 0)
  }

  /**
   * The state insertFix meets at the grandparent after updating its balance to -2 or 2:
   * both subtrees are AVL trees, the taller one is two levels higher and, having just grown,
   * is not level.
   */
  ghost predicate InsertCase<V>(t: Tree<V>)
  {
    t.Branch? && Balanced(t.left) && Balanced(t.right) &&
    ((t.bal == -2 && Height(t.left) == Height(t.right) + 2 && t.left.bal != 0) ||
     (t.bal == 2 && Height(t.right) == Height(t.left) + 2 && t.right.bal != 0))
  }

  /**
   * The rotations and balance tables of insertFix at a grandparent with balance -2 or 2.
   * The result is an AVL tree as high as the subtree was before the insertion, so the walk
   * stops there.
   */
  function InsertRebalance<V>(t: Tree<V>): (r: Tree<V>)
    requires InsertCase(t)
    ensures Balanced(r) && r.Branch? && r.bal == 0
    ensures Height(r) == Height(t) - 1
    ensures Elems(r) == Elems(t) && Nodes(r) == Nodes(t)
    ensures Distinct(t) ==> Distinct(r)
  {
    if t.bal == -2 then
      if t.left.bal == -1 then SingleRight(t, 0, 0)
      else assert Balanced(t.left); DoubleRight(t)
    else
      if t.right.bal == 1 then SingleLeft(t, 0, 0)
      else assert Balanced(t.right); DoubleLeft(t)
  }

  /**
   * The state removeFix meets at a node after updating its balance to -2 or 2: both
   * subtrees are AVL trees and the taller one is two levels higher.
   */
  ghost predicate RemoveCase<V>(t: Tree<V>)
  {
    t.Branch? && Balanced(t.left) && Balanced(t.right) &&
    ((t.bal == -2 && Height(t.left) == Height(t.right) + 2) ||
     (t.bal == 2 && Height(t.right) == Height(t.left) + 2))
  }

  /** The child on the heavier side. */
  function Taller<V>(t: Tree<V>): Tree<V>
    requires t.Branch?
  {
    if t.bal < 0 then t.left else t.right
  }

  /**
   * The rotations and balance tables of removeFix at a node with balance -2 or 2.
   * The result is an AVL tree; it is one level lower than t, and has balance 0, exactly when
   * the taller child was not level; otherwise it is as high as t and removeFix stops.
   */
  function RemoveRebalance<V>(t: Tree<V>): (r: Tree<V>)
    requires RemoveCase(t)
    ensures Balanced(r) && r.Branch?
    ensures Height(r) == (if Taller(t).bal == 0 then Height(t) else Height(t) - 1)
    ensures r.bal == 0 <==> Taller(t).bal != 0
    ensures Elems(r) == Elems(t) && Nodes(r) == Nodes(t)
    ensures Distinct(t) ==> Distinct(r)
  {
    if t.bal == -2 then
      if t.left.bal == -1 then SingleRight(t, 0, 0)
      else if t.left.bal == 0 then SingleRight(t, 1, -1)
      else assert Balanced(t.left); DoubleRight(t)
    else
      if t.right.bal == 1 then SingleLeft(t, 0, 0)
      else if t.right.bal == 0 then SingleLeft(t, -1, 1)
      else assert Balanced(t.right); DoubleLeft(t)
  }
}
