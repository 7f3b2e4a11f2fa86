/**
 * The two bottom-up repair walks of avlbst.h as functions on tree values: insertFix climbs
 * from a subtree that has just grown by one level, removeFix from a subtree one of whose
 * children has just shrunk by one level. Each function returns the whole tree the walk
 * leaves behind; the heap-level methods in module AvlBst are proved to produce it, and the
 * lemmas here that it is again an AVL tree with the same entries and nodes.
 */
module AvlRepair {
  import opened AvlShapes
  import opened AvlNodes
  import opened AvlRebalance

  /** Replacing a subtree by one with the same entries and nodes changes neither in the whole tree. */
  lemma {:induction false} PlugReplace<V>(c: Ctx<V>, t: Tree<V>, u: Tree<V>)
    requires Elems(u) == Elems(t) && Nodes(u) == Nodes(t) && (Distinct(t) ==> Distinct(u))
    ensures Elems(Plug(c, u)) == Elems(Plug(c, t)) && Nodes(Plug(c, u)) == Nodes(Plug(c, t))
    ensures Distinct(Plug(c, t)) ==> Distinct(Plug(c, u))
  {
    PlugElems(c, t);
    PlugElems(c, u);
    PlugNodes(c, t);
    PlugNodes(c, u);
    DistinctPlug(c, t);
    DistinctPlug(c, u);
  }

  // ---------------------------------------------------------------- insertFix

  /**
   * The state insertFix(parent, current) is called in: the subtree t of parent is an AVL tree
   * that has just grown by one level, so its balance is -1 or 1, and the ancestors' balances
   * still describe the height t had before.
   */
  ghost predicate InsertWalk<V>(c: Ctx<V>, t: Tree<V>)
  {
    t.Branch? && Balanced(t) && (t.bal == -1 || t.bal == 1) && CtxBal(c, Height(t) - 1)
  }

  /** The balance insertFix gives the grandparent: one less when t hangs on its left, one more otherwise. */
  function InsertStep<V>(c: Ctx<V>): int
    requires c.Hole?
  {
    if c.holeLeft then c.bal - 1 else c.bal + 1
  }

  /** The grandparent's subtree after insertFix has updated its balance. */
  function InsertUp<V>(c: Ctx<V>, t: Tree<V>): (g: Tree<V>)
    requires c.Hole?
    ensures g.Branch? && g.node == c.node && g.bal == InsertStep(c)
  {
    var a := Attach(c, t);
    a.(bal := InsertStep(c))
  }

  /**
   * At the grandparent the updated balance is the true one, and it tells how the walk goes on:
   * at 0 the grandparent's subtree has its old height, at -1 or 1 it has grown by one level
   * through t, and at -2 or 2 it is the case the rotations repair.
   */
  lemma {:induction false} InsertUpHeights<V>(c: Ctx<V>, t: Tree<V>)
    requires InsertWalk(c, t) && c.Hole?
    ensures var g := InsertUp(c, t);
      -2 <= g.bal <= 2 &&
      (g.bal == 0 ==> Balanced(g) && CtxBal(c.up, Height(g))) &&
      (g.bal != 0 ==> Child(g, g.bal < 0) == t) &&
      (g.bal == -1 || g.bal == 1 ==> InsertWalk(c.up, g)) &&
      (g.bal == -2 || g.bal == 2 ==> InsertCase(g) && CtxBal(c.up, Height(g) - 1))
  {
  }

  /** The update of the grandparent's balance keeps the whole tree's entries and nodes. */
  lemma {:induction false} InsertUpShape<V>(c: Ctx<V>, t: Tree<V>)
    requires c.Hole?
    ensures Elems(Plug(c.up, InsertUp(c, t))) == Elems(Plug(c, t))
    ensures Nodes(Plug(c.up, InsertUp(c, t))) == Nodes(Plug(c, t))
    ensures Distinct(Plug(c, t)) ==> Distinct(Plug(c.up, InsertUp(c, t)))
  {
    SetBalShape(Attach(c, t), InsertStep(c));
    PlugReplace(c.up, Attach(c, t), InsertUp(c, t));
  }

  /**
   * The whole tree insertFix leaves: the grandparent's balance is updated; at 0 the walk stops,
   * at -1 or 1 it climbs one level, and at -2 or 2 it rebalances there and stops.
   */
  ghost function InsertFixed<V>(c: Ctx<V>, t: Tree<V>): (r: Tree<V>)
    requires InsertWalk(c, t)
    ensures Balanced(r)
    ensures Elems(r) == Elems(Plug(c, t)) && Nodes(r) == Nodes(Plug(c, t))
    ensures Distinct(Plug(c, t)) ==> Distinct(r)
    decreases c
  {
    if c.Top? then t
    else
      var g := InsertUp(c, t);
      InsertUpHeights(c, t);
      InsertUpShape(c, t);
      if g.bal == 0 then
        BalancedPlug(c.up, g);
        Plug(c.up, g)
      else if g.bal == -1 || g.bal == 1 then
        InsertFixed(c.up, g)
      else
        PlugReplace(c.up, g, InsertRebalance(g));
        BalancedPlug(c.up, InsertRebalance(g));
        Plug(c.up, InsertRebalance(g))
  }

  /** One step of InsertFixed, with the grandparent's balance updated in 8 bits. */
  lemma {:induction false} InsertFixedStep<V>(c: Ctx<V>, t: Tree<V>, diff: int)
    requires InsertWalk(c, t) && c.Hole? && diff == (if c.holeLeft then -1 else 1)
    ensures var a := Attach(c, t); a.(bal := Wrap8(a.bal + diff)) == InsertUp(c, t)
    ensures var g := InsertUp(c, t);
      InsertFixed(c, t) ==
        if g.bal == 0 then Plug(c.up, g)
        else if g.bal == -1 || g.bal == 1 then InsertFixed(c.up, g)
        else Plug(c.up, InsertRebalance(g))
  {
  }

  /**
   * A new leaf on the empty side of an AVL node that leaned the other way: the node becomes level
   * and its subtree keeps its height, which is why insert only resets the balance to 0.
   */
  lemma {:induction false} GraftLevel<V>(t: Tree<V>, left: bool, n: Node<V>, k: int, v: V)
    requires t.Branch? && Balanced(t) && Child(t, left).Empty? && t.bal != 0
    ensures var g := Graft(t, left, n, k, v); Balanced(g.(bal := 0)) && Height(g.(bal := 0)) == Height(t)
  {
  }

  /**
   * A new leaf below a leaf: the subtree grows by one level and leans toward the new leaf,
   * which is the state insertFix is called in.
   */
  lemma {:induction false} GraftGrown<V>(t: Tree<V>, left: bool, n: Node<V>, k: int, v: V)
    requires t.Branch? && Balanced(t) && Child(t, left).Empty? && t.bal == 0
    ensures var g := Graft(t, left, n, k, v); var u := g.(bal := if left then -1 else 1);
      Balanced(u) && Height(u) == Height(t) + 1 && Child(u, u.bal < 0) == Branch(Empty, n, k, v, 0, Empty)
  {
  }

  // ---------------------------------------------------------------- removeFix

  /** The height t had before its child on side d (left for 1, right for -1) shrank by one level. */
  function Before<V>(t: Tree<V>, d: int): int
    requires t.Branch?
  {
    1 + Max(Height(t.left) + (if d == 1 then 1 else 0), Height(t.right) + (if d == -1 then 1 else 0))
  }

  /**
   * The state removeFix(parent, difference) is called in: the left child of parent's subtree t
   * (difference 1) or its right child (difference -1) has just shrunk by one level. Both
   * children are AVL trees, the balance field still describes the old heights, and the
   * ancestors' balances describe the height t had before.
   */
  ghost predicate RemoveWalk<V>(c: Ctx<V>, t: Tree<V>, d: int)
  {
    Shrunk(t, d) && CtxBal(c, Before(t, d))
  }

  /** The difference removeFix passes upward: 1 when the subtree hangs on its parent's left, -1 otherwise. */
  function NextDiff<V>(c: Ctx<V>): int
    requires c.Hole?
  {
    if c.holeLeft then 1 else -1
  }

  /** The children of t as removeFix finds them: the one on side d has just shrunk by one level. */
  ghost predicate Shrunk<V>(t: Tree<V>, d: int)
  {
    t.Branch? && (d == 1 || d == -1) && Balanced(t.left) && Balanced(t.right) && -1 <= t.bal <= 1 &&
    t.bal + d == Height(t.right) - Height(t.left)
  }

  /** An updated balance of 0: the subtree is an AVL tree one level lower than before. */
  lemma {:induction false} RemoveLevel<V>(t: Tree<V>, d: int)
    requires Shrunk(t, d) && t.bal + d == 0
    ensures Balanced(t.(bal := 0)) && Height(t.(bal := 0)) == Before(t, d) - 1
  {
  }

  /** An updated balance of -1 or 1: the subtree is an AVL tree as high as before. */
  lemma {:induction false} RemoveKept<V>(t: Tree<V>, d: int)
    requires Shrunk(t, d) && (t.bal + d == -1 || t.bal + d == 1)
    ensures Balanced(t.(bal := t.bal + d)) && Height(t.(bal := t.bal + d)) == Before(t, d)
  {
  }

  /** An updated balance of -2 or 2: the case the rotations repair, as high as before. */
  lemma {:induction false} RemoveHeavy<V>(t: Tree<V>, d: int)
    requires Shrunk(t, d) && (t.bal + d == -2 || t.bal + d == 2)
    ensures RemoveCase(t.(bal := t.bal + d)) && Height(t.(bal := t.bal + d)) == Before(t, d)
  {
  }

  /** The update of the balance keeps the whole tree's entries and nodes. */
  lemma {:induction false} RemoveUpdatedShape<V>(c: Ctx<V>, t: Tree<V>, d: int)
    requires t.Branch?
    ensures Elems(Plug(c, t.(bal := t.bal + d))) == Elems(Plug(c, t))
    ensures Nodes(Plug(c, t.(bal := t.bal + d))) == Nodes(Plug(c, t))
    ensures Distinct(Plug(c, t)) ==> Distinct(Plug(c, t.(bal := t.bal + d)))
  {
    SetBalShape(t, t.bal + d);
    PlugReplace(c, t, t.(bal := t.bal + d));
  }

  /** One level of CtxBal: the innermost ancestor's balance and the rest of the path. */
  lemma {:induction false} CtxBalUp<V>(c: Ctx<V>, h: int)
    requires c.Hole? && CtxBal(c, h)
    ensures Balanced(c.sib) && -1 <= c.bal <= 1
    ensures c.bal == (if c.holeLeft then Height(c.sib) - h else h - Height(c.sib))
    ensures CtxBal(c.up, 1 + Max(h, Height(c.sib)))
  {
  }

  /** A subtree that has lost a level puts its parent in the state removeFix climbs to. */
  lemma {:induction false} RemoveClimb<V>(c: Ctx<V>, s: Tree<V>)
    requires c.Hole? && Balanced(s) && CtxBal(c, Height(s) + 1)
    ensures RemoveWalk(c.up, Attach(c, s), NextDiff(c))
  {
    var h, hs := Height(s), Height(c.sib);
    CtxBalUp(c, h + 1);
    var a, d, b := Attach(c, s), NextDiff(c), 1 + Max(h + 1, hs);
    assert a.bal == c.bal;
    assert Before(a, d) == b by {
      if c.holeLeft {
        assert a.left == s && a.right == c.sib;
      } else {
        assert a.left == c.sib && a.right == s;
      }
    }
    assert Shrunk(a, d) by {
      if c.holeLeft {
        assert a.left == s && a.right == c.sib;
      } else {
        assert a.left == c.sib && a.right == s;
      }
    }
  }

  /**
   * The whole tree removeFix leaves. After the update the balance decides: at 0 the subtree has
   * lost a level and the walk climbs; at -1 or 1 it has kept its height and the walk stops; at
   * -2 or 2 it is rebalanced by RemoveRotated.
   */
  ghost function RemoveFixed<V>(c: Ctx<V>, t: Tree<V>, d: int): (r: Tree<V>)
    requires RemoveWalk(c, t, d)
    ensures Balanced(r)
    ensures Elems(r) == Elems(Plug(c, t)) && Nodes(r) == Nodes(Plug(c, t))
    ensures Distinct(Plug(c, t)) ==> Distinct(r)
    decreases c, 2
  {
    var u := t.(bal := t.bal + d);
    RemoveUpdatedShape(c, t, d);
    if u.bal == 0 then
      RemoveLevel(t, d);
      RemoveUp(c, u)
    else if u.bal == -2 || u.bal == 2 then
      RemoveHeavy(t, d);
      RemoveRotated(c, u)
    else
      RemoveKept(t, d);
      BalancedPlug(c, u);
      Plug(c, u)
  }

  /**
   * removeFix at a node with balance -2 or 2: the rotations of RemoveRebalance, after which the
   * walk climbs unless the taller child was level, in which case the rotation has kept the
   * subtree's height and the walk stops.
   */
  ghost function RemoveRotated<V>(c: Ctx<V>, u: Tree<V>): (r: Tree<V>)
    requires RemoveCase(u) && CtxBal(c, Height(u))
    ensures Balanced(r)
    ensures Elems(r) == Elems(Plug(c, u)) && Nodes(r) == Nodes(Plug(c, u))
    ensures Distinct(Plug(c, u)) ==> Distinct(r)
    decreases c, 1
  {
    var s := RemoveRebalance(u);
    PlugReplace(c, u, s);
    if Taller(u).bal == 0 then
      BalancedPlug(c, s);
      Plug(c, s)
    else RemoveUp(c, s)
  }

  /** removeFix(grandparent, nextdiff) after the subtree s in the hole of c has lost a level. */
  ghost function RemoveUp<V>(c: Ctx<V>, s: Tree<V>): (r: Tree<V>)
    requires Balanced(s) && CtxBal(c, Height(s) + 1)
    ensures Balanced(r)
    ensures Elems(r) == Elems(Plug(c, s)) && Nodes(r) == Nodes(Plug(c, s))
    ensures Distinct(Plug(c, s)) ==> Distinct(r)
    decreases c, 0
  {
    if c.Top? then s
    else
      RemoveClimb(c, s);
      RemoveFixed(c.up, Attach(c, s), NextDiff(c))
  }

  /** One step of RemoveFixed, with the balance updated in 8 bits, and the state each branch leaves. */
  lemma {:induction false} RemoveFixedStep<V>(c: Ctx<V>, t: Tree<V>, d: int)
    requires RemoveWalk(c, t, d)
    ensures Wrap8(t.bal + d) == t.bal + d
    ensures var u := t.(bal := t.bal + d);
      (u.bal == 0 ==> Balanced(u) && CtxBal(c, Height(u) + 1)) &&
      (u.bal == -2 || u.bal == 2 ==> RemoveCase(u) && CtxBal(c, Height(u))) &&
      (u.bal == -1 || u.bal == 1 ==> Balanced(Plug(c, u))) &&
      RemoveFixed(c, t, d) ==
        if u.bal == 0 then RemoveUp(c, u)
        else if u.bal == -2 || u.bal == 2 then RemoveRotated(c, u)
        else Plug(c, u)
  {
    var u := t.(bal := t.bal + d);
    if u.bal == 0 {
      RemoveLevel(t, d);
    } else if u.bal == -2 || u.bal == 2 {
      RemoveHeavy(t, d);
    } else {
      RemoveKept(t, d);
      BalancedPlug(c, u);
    }
  }

  /** One step of RemoveUp: at the root the walk ends, below it it climbs to the parent. */
  lemma {:induction false} RemoveUpStep<V>(c: Ctx<V>, s: Tree<V>)
    requires Balanced(s) && CtxBal(c, Height(s) + 1)
    ensures c.Top? ==> RemoveUp(c, s) == s
    ensures c.Hole? ==> RemoveWalk(c.up, Attach(c, s), NextDiff(c))
    ensures c.Hole? ==> RemoveUp(c, s) == RemoveFixed(c.up, Attach(c, s), NextDiff(c))
  {
    if c.Hole? {
      RemoveClimb(c, s);
    }
  }
}
