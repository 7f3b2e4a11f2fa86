/**
 * The AVL tree of avlbst.h: a binary search tree of pointer-linked nodes kept height-balanced
 * by rotations after each insertion and removal.
 *
 * The ghost field Abs is the tree as a value and Repr the set of its nodes. Valid() says that
 * the heap, read as records, is the snapshot Snap(Abs, null): every node's six fields are the
 * ones its place in Abs prescribes. At(c, t) names a focus: Abs is the subtree t plugged into the
 * context c. Each method that writes fields proves the new snapshot pointwise from the old one.
 */
module AvlBst {
  import opened Entries
  import opened AvlNodes
  import opened AvlShapes
  import opened AvlRebalance
  import opened AvlFrames
  import opened AvlRepair
  import opened AvlOrder
  import opened AvlSwap
  import opened AvlRemove

  class AvlTree<V> {
    var root: Node?<V>
    ghost var Abs: Tree<V>
    ghost var Repr: set<Node<V>>

    /** The nodes reachable from root form the tree Abs. */
    ghost predicate Valid()
      reads this, Repr
    {
      Distinct(Abs) && root == TopNode(Abs) && Heap(Repr) == Snap(Abs, null)
    }

    /** The heap holds the tree Abs, split into the subtree t and the context c around it. */
    ghost predicate At(c: Ctx<V>, t: Tree<V>)
      reads this, Repr
    {
      Valid() && Abs == Plug(c, t)
    }

    /** The class invariant: a valid binary search tree that satisfies the AVL balance condition. */
    ghost predicate AvlInvariant()
      reads this, Repr
    {
      Valid() && Ordered(Abs) && Balanced(Abs)
    }

    /** An empty tree. */
    constructor ()
      ensures AvlInvariant() && Abs == Empty && Repr == {}
    {
      root := null;
      Abs := Empty;
      Repr := {};
    }

    /** At a focus, the top node of t and the innermost node of c hold their records. */
    lemma {:induction false} Focus(c: Ctx<V>, t: Tree<V>)
      requires At(c, t)
      ensures DistinctCtx(c) && Distinct(t) && CtxNodes(c) !! Nodes(t)
      ensures Repr == CtxNodes(c) + Nodes(t)
      ensures t.Branch? ==> t.node in Repr && Heap(Repr)[t.node] == RecOf(t, CtxNode(c))
      ensures c.Hole? ==> c.node in Repr && c.node !in Nodes(t) && Heap(Repr)[c.node] == CtxRec(c, TopNode(t))
    {
      DistinctPlug(c, t);
      SnapAt(c, t);
      SnapKeys(Abs, null);
      PlugNodes(c, t);
      if c.Hole? {
        assert c.node in CtxNodes(c);
      }
    }

    /** At a focus, the top node of t holds its record. */
    lemma {:induction false} TopRec(c: Ctx<V>, t: Tree<V>)
      requires At(c, t) && t.Branch?
      ensures t.node in Repr && Heap(Repr)[t.node] == RecOf(t, CtxNode(c))
    {
      DistinctPlug(c, t);
      SnapAt(c, t);
    }

    /** One step down: the focus moves from t to its child on the given side. */
    lemma {:induction false} Descend(c: Ctx<V>, t: Tree<V>, left: bool)
      requires At(c, t) && t.Branch?
      ensures At(DownCtx(c, t, left), Child(t, left))
    {
    }

    /** One step up: the focus moves from t to its parent. */
    lemma {:induction false} Up(c: Ctx<V>, t: Tree<V>)
      requires At(c, t) && c.Hole?
      ensures At(c.up, Attach(c, t))
    {
    }

    /** The fields of the node in focus, and of its parent, read off the tree. */
    lemma {:induction false} NodeFacts(c: Ctx<V>, t: Tree<V>)
      requires At(c, t) && t.Branch?
      ensures t.node in Repr && t.node.parent == CtxNode(c)
      ensures t.node.left == TopNode(t.left) && t.node.right == TopNode(t.right)
      ensures t.node.key == t.key && t.node.value == t.value && t.node.balance == t.bal
      ensures c.Hole? ==> (c.node.left == t.node <==> c.holeLeft) && c.node.balance == c.bal
      ensures c.Top? ==> root == t.node
    {
      Focus(c, t);
      if c.Hole? {
        assert CtxNodes(c) == CtxNodes(c.up) + {c.node} + Nodes(c.sib);
        assert c.sib.Branch? ==> c.sib.node in Nodes(c.sib);
      } else {
        PlugTop(c, t);
      }
    }

    /**
     * rotate(grandparent, parent, direction): parent, the child of grandparent on the side
     * direction names (left when true), takes grandparent's place below greatgramp or as the
     * root, and grandparent adopts parent's inner child. Only links change: read as records,
     * the fields of the nodes are those before with RelinkRec's writes applied.
     */
    method Rotate(grandparent: Node<V>, parent: Node<V>, direction: bool)
      requires ChildOn(grandparent, direction) == parent && grandparent != parent
      requires grandparent.parent != grandparent && grandparent.parent != parent
      requires var inner := ChildOn(parent, !direction);
        inner != grandparent && inner != parent && (inner != null ==> inner != grandparent.parent)
      modifies this`root, grandparent, parent, NodeSet(grandparent.parent), NodeSet(ChildOn(parent, !direction))
      ensures parent.parent == old(grandparent.parent) && grandparent.parent == parent
      ensures ChildOn(parent, !direction) == grandparent && ChildOn(parent, direction) == old(ChildOn(parent, direction))
      ensures ChildOn(grandparent, direction) == old(ChildOn(parent, !direction))
      ensures ChildOn(grandparent, !direction) == old(ChildOn(grandparent, !direction))
      ensures var inner := old(ChildOn(parent, !direction));
        inner != null ==>
          inner.parent == grandparent && inner.left == old(inner.left) && inner.right == old(inner.right) &&
          inner.key == old(inner.key) && inner.value == old(inner.value) && inner.balance == old(inner.balance)
      ensures old(grandparent.parent) == null ==> root == parent
      ensures var gg := old(grandparent.parent);
        gg != null ==>
          root == old(root) && gg.parent == old(gg.parent) &&
          gg.key == old(gg.key) && gg.value == old(gg.value) && gg.balance == old(gg.balance) &&
          if old(gg.left) == grandparent
          then gg.left == parent && gg.right == old(gg.right)
          else gg.right == parent && gg.left == old(gg.left)
      ensures grandparent.key == old(grandparent.key) && grandparent.value == old(grandparent.value)
      ensures grandparent.balance == old(grandparent.balance)
      ensures parent.key == old(parent.key) && parent.value == old(parent.value) && parent.balance == old(parent.balance)
    {
      var greatgramp := grandparent.parent;
      parent.parent := greatgramp;
      grandparent.parent := parent;
      if greatgramp != null {
        if greatgramp.left == grandparent {
          greatgramp.left := parent;
        } else {
          greatgramp.right := parent;
        }
      } else {
        root := parent;
      }
      if direction {
        grandparent.left := parent.right;
        if parent.right != null {
          parent.right.parent := grandparent;
        }
        parent.right := grandparent;
      } else {
        grandparent.right := parent.left;
        if parent.left != null {
          parent.left.parent := grandparent;
        }
        parent.left := grandparent;
      }
    }

    /** setBalance read on records: only n's balance changes. */
    static method SetBalanceRecs(n: Node<V>, b: int, ghost S: set<Node<V>>, ghost h: map<Node<V>, Rec<V>>)
      requires h == Heap(S) && n in S && Int8(b)
      modifies n`balance
      ensures Heap(S) == h[n := h[n].(bal := b)]
    {
      n.SetBalance(b);
      assert forall m | m in S :: Heap(S)[m] == h[n := h[n].(bal := b)][m];
    }

    /** updateBalance read on records: only n's balance changes, to the 8-bit sum. */
    static method UpdateBalanceRecs(n: Node<V>, diff: int, ghost S: set<Node<V>>, ghost h: map<Node<V>, Rec<V>>, ghost b: int)
      requires h == Heap(S) && n in S && Int8(diff) && b == Wrap8(h[n].bal + diff)
      modifies n`balance
      ensures Heap(S) == h[n := h[n].(bal := b)]
    {
      n.UpdateBalance(diff);
      assert forall m | m in S :: Heap(S)[m] == h[n := h[n].(bal := b)][m];
    }

    /** setValue read on records: only n's value changes. */
    static method SetValueRecs(n: Node<V>, v: V, ghost S: set<Node<V>>, ghost h: map<Node<V>, Rec<V>>)
      requires h == Heap(S) && n in S
      modifies n`value
      ensures Heap(S) == h[n := h[n].(value := v)]
    {
      n.value := v;
      assert forall m | m in S :: Heap(S)[m] == h[n := h[n].(value := v)][m];
    }

    /** setBalance at the focus: the balance snapshot of t's top node becomes b. */
    method SetBalanceAt(n: Node<V>, b: int, ghost c: Ctx<V>, ghost t: Tree<V>)
      requires At(c, t) && t.Branch? && t.node == n && Int8(b)
      modifies this, Repr
      ensures At(c, t.(bal := b)) && Repr == old(Repr)
    {
      TopRec(c, t);
      ghost var h := Heap(Repr);
      Abs := Plug(c, t.(bal := b));
      assert Heap(Repr) == h;
      SetBalanceRecs(n, b, Repr, h);
      SnapRetop(c, t, t.(bal := b));
    }

    /** updateBalance at the focus: diff is added to the balance snapshot of t's top node, in 8 bits. */
    method UpdateBalanceAt(n: Node<V>, diff: int, ghost c: Ctx<V>, ghost t: Tree<V>)
      requires At(c, t) && t.Branch? && t.node == n && Int8(diff)
      modifies this, Repr
      ensures At(c, t.(bal := Wrap8(t.bal + diff))) && Repr == old(Repr)
    {
      TopRec(c, t);
      ghost var h, b := Heap(Repr), Wrap8(t.bal + diff);
      Abs := Plug(c, t.(bal := b));
      assert Heap(Repr) == h;
      UpdateBalanceRecs(n, diff, Repr, h, b);
      SnapRetop(c, t, t.(bal := b));
    }

    /** setValue at the focus: the value of t's top node becomes v. */
    method SetValueAt(n: Node<V>, v: V, ghost c: Ctx<V>, ghost t: Tree<V>)
      requires At(c, t) && t.Branch? && t.node == n
      modifies this, Repr
      ensures At(c, t.(value := v)) && Repr == old(Repr)
    {
      TopRec(c, t);
      ghost var h := Heap(Repr);
      Abs := Plug(c, t.(value := v));
      assert Heap(Repr) == h;
      SetValueRecs(n, v, Repr, h);
      SnapRetop(c, t, t.(value := v));
    }

    /**
     * Rotate read on records: the fields of the nodes of S are those of h, the records before,
     * with rotate's writes applied. gg and inner name grandparent's parent and parent's inner child.
     */
    method RotateRecs(grandparent: Node<V>, parent: Node<V>, direction: bool, ghost S: set<Node<V>>,
                      ghost h: map<Node<V>, Rec<V>>, ghost gg: Node?<V>, ghost inner: Node?<V>)
      requires h == Heap(S) && gg == grandparent.parent && inner == ChildOn(parent, !direction)
      requires grandparent in S && parent in S && ChildOn(grandparent, direction) == parent && grandparent != parent
      requires gg != grandparent && gg != parent && (gg != null ==> gg in S)
      requires inner != grandparent && inner != parent && (inner != null ==> inner != gg && inner in S)
      modifies this`root, grandparent, parent, NodeSet(gg), NodeSet(inner)
      ensures Heap(S) == RelinkAll(h, grandparent, parent, direction, gg, inner)
      ensures root == if gg == null then parent else old(root)
    {
      Rotate(grandparent, parent, direction);
      forall m | m in S
        ensures Heap(S)[m] == RelinkRec(grandparent, parent, direction, gg, inner, m, h[m])
      {
      }
    }

    /** The pointer facts rotate needs, read off a focus on grandparent. */
    lemma {:induction false} RotateFacts(c: Ctx<V>, t: Tree<V>, d: bool)
      requires At(c, t) && t.Branch? && Child(t, d).Branch?
      ensures var g, p, gg, inner := t.node, Child(t, d).node, CtxNode(c), TopNode(Child(Child(t, d), !d));
        gg == g.parent && inner == ChildOn(p, !d) &&
        g in Repr && p in Repr && ChildOn(g, d) == p && g != p &&
        gg != g && gg != p && (gg != null ==> gg in Repr) &&
        inner != g && inner != p && (inner != null ==> inner != gg && inner in Repr)
    {
      Focus(c, t);
      Descend(c, t, d);
      Focus(DownCtx(c, t, d), Child(t, d));
      Descend(DownCtx(c, t, d), Child(t, d), !d);
      Focus(DownCtx(DownCtx(c, t, d), Child(t, d), !d), Child(Child(t, d), !d));
    }

    /** Rotate seen on the abstract tree: the subtree t in focus becomes Rotated(t, direction). */
    method RotateAt(grandparent: Node<V>, parent: Node<V>, direction: bool, ghost c: Ctx<V>, ghost t: Tree<V>)
      requires At(c, t) && t.Branch? && t.node == grandparent
      requires Child(t, direction).Branch? && Child(t, direction).node == parent
      modifies this, Repr
      ensures At(c, Rotated(t, direction)) && Repr == old(Repr)
    {
      RotateFacts(c, t, direction);
      ghost var h := Heap(Repr);
      Abs := Plug(c, Rotated(t, direction));
      assert Heap(Repr) == h;
      RotateRecs(grandparent, parent, direction, Repr, h, CtxNode(c), TopNode(Child(Child(t, direction), !direction)));
      SnapRotatedHeap(c, t, direction, h, Heap(Repr));
    }
  
    /** setBalance on a child of the node in focus. */
    method SetChildBalanceAt(n: Node<V>, b: int, left: bool, ghost c: Ctx<V>, ghost t: Tree<V>)
      requires At(c, t) && t.Branch? && Child(t, left).Branch? && Child(t, left).node == n && Int8(b)
      modifies this, Repr
      ensures At(c, if left then t.(left := t.left.(bal := b)) else t.(right := t.right.(bal := b)))
      ensures Repr == old(Repr)
    {
      Descend(c, t, left);
      SetBalanceAt(n, b, DownCtx(c, t, left), Child(t, left));
    }

    /**
     * insertFix at a grandparent whose balance has reached -2: a single right rotation when the
     * parent leans left, otherwise a left rotation at the parent and a right rotation at the
     * grandparent, followed by the balance table keyed on current's balance.
     */
    method InsertFixLeft(grandparent: Node<V>, parent: Node<V>, current: Node?<V>, ghost c: Ctx<V>, ghost g: Tree<V>)
      requires At(c, g) && InsertCase(g) && g.bal == -2 && g.node == grandparent && g.left.node == parent
      requires current == TopNode(Child(g.left, g.left.bal < 0))
      modifies this, Repr
      ensures At(c, InsertRebalance(g)) && Repr == old(Repr)
    {
      Descend(c, g, true);
      NodeFacts(DownCtx(c, g, true), g.left);
      if parent.balance == -1 {
        RotateAt(grandparent, parent, true, c, g);
        ghost var r := RotateRight(g);
        SetBalanceAt(parent, 0, c, r);
        SetChildBalanceAt(grandparent, 0, false, c, r.(bal := 0));
      } else {
        RotateAt(parent, current, false, DownCtx(c, g, true), g.left);
        ghost var t1 := g.(left := RotateLeft(g.left));
        RotateAt(grandparent, current, true, c, t1);
        ghost var r := RotateRight(t1);
        NodeFacts(c, r);
        if current.balance == 0 {
          SetChildBalanceAt(parent, 0, true, c, r);
          SetChildBalanceAt(grandparent, 0, false, c, r.(left := r.left.(bal := 0)));
        } else if current.balance == -1 {
          SetBalanceAt(current, 0, c, r);
          SetChildBalanceAt(parent, 0, true, c, r.(bal := 0));
          SetChildBalanceAt(grandparent, 1, false, c, r.(bal := 0, left := r.left.(bal := 0)));
        } else {
          SetBalanceAt(current, 0, c, r);
          SetChildBalanceAt(parent, -1, true, c, r.(bal := 0));
          SetChildBalanceAt(grandparent, 0, false, c, r.(bal := 0, left := r.left.(bal := -1)));
        }
      }
    }
  
    /** insertFix at a grandparent whose balance has reached 2: the mirror image of InsertFixLeft. */
    method InsertFixRight(grandparent: Node<V>, parent: Node<V>, current: Node?<V>, ghost c: Ctx<V>, ghost g: Tree<V>)
      requires At(c, g) && InsertCase(g) && g.bal == 2 && g.node == grandparent && g.right.node == parent
      requires current == TopNode(Child(g.right, g.right.bal < 0))
      modifies this, Repr
      ensures At(c, InsertRebalance(g)) && Repr == old(Repr)
    {
      Descend(c, g, false);
      NodeFacts(DownCtx(c, g, false), g.right);
      if parent.balance == 1 {
        RotateAt(grandparent, parent, false, c, g);
        ghost var r := RotateLeft(g);
        SetBalanceAt(parent, 0, c, r);
        SetChildBalanceAt(grandparent, 0, true, c, r.(bal := 0));
      } else {
        RotateAt(parent, current, true, DownCtx(c, g, false), g.right);
        ghost var t1 := g.(right := RotateRight(g.right));
        RotateAt(grandparent, current, false, c, t1);
        ghost var r := RotateLeft(t1);
        NodeFacts(c, r);
        if current.balance == 0 {
          SetChildBalanceAt(parent, 0, false, c, r);
          SetChildBalanceAt(grandparent, 0, true, c, r.(right := r.right.(bal := 0)));
        } else if current.balance == -1 {
          SetBalanceAt(current, 0, c, r);
          SetChildBalanceAt(parent, 1, false, c, r.(bal := 0));
          SetChildBalanceAt(grandparent, 0, true, c, r.(bal := 0, right := r.right.(bal := 1)));
        } else {
          SetBalanceAt(current, 0, c, r);
          SetChildBalanceAt(parent, 0, false, c, r.(bal := 0));
          SetChildBalanceAt(grandparent, -1, true, c, r.(bal := 0, right := r.right.(bal := 0)));
        }
      }
    }

    /**
     * insertFix(parent, current): the subtree t of parent has just grown by one level through
     * current. The walk updates the grandparent's balance and stops, climbs or rotates, and the
     * tree it leaves is InsertFixed(c, t).
     */
    method InsertFix(parent: Node?<V>, current: Node?<V>, ghost c: Ctx<V>, ghost t: Tree<V>)
      requires At(c, t) && parent == TopNode(t)
      requires t.Branch? ==> InsertWalk(c, t) && current == TopNode(Child(t, t.bal < 0))
      modifies this, Repr
      ensures Valid() && Repr == old(Repr)
      ensures Abs == if t.Empty? then old(Abs) else InsertFixed(c, t)
      decreases c, 0
    {
      if parent == null {
        return;
      }
      NodeFacts(c, t);
      var grandparent := parent.parent;
      if grandparent == null {
        return;
      }
      Up(c, t);
      if grandparent.left == parent {
        UpdateBalanceAt(grandparent, -1, c.up, Attach(c, t));
        InsertFixedStep(c, t, -1);
      } else {
        UpdateBalanceAt(grandparent, 1, c.up, Attach(c, t));
        InsertFixedStep(c, t, 1);
      }
      InsertFixAbove(grandparent, parent, current, c, t);
    }

    /**
     * The rest of insertFix once the grandparent's balance is updated: the updated balance
     * decides whether the walk stops, climbs with insertFix(grandparent, parent) or rotates.
     */
    method InsertFixAbove(grandparent: Node<V>, parent: Node<V>, current: Node?<V>, ghost c: Ctx<V>, ghost t: Tree<V>)
      requires InsertWalk(c, t) && c.Hole? && c.node == grandparent && t.node == parent
      requires current == TopNode(Child(t, t.bal < 0))
      requires At(c.up, InsertUp(c, t))
      modifies this, Repr
      ensures Valid() && Repr == old(Repr)
      ensures Abs == InsertFixed(c, t)
      decreases c.up, 1
    {
      ghost var g := InsertUp(c, t);
      InsertFixedStep(c, t, if c.holeLeft then -1 else 1);
      InsertUpHeights(c, t);
      NodeFacts(c.up, g);
      if grandparent.balance == 0 {
        return;
      } else if grandparent.balance == 1 || grandparent.balance == -1 {
        InsertFix(grandparent, parent, c.up, g);
      } else if grandparent.balance == -2 {
        InsertFixLeft(grandparent, parent, current, c.up, g);
      } else if grandparent.balance == 2 {
        InsertFixRight(grandparent, parent, current, c.up, g);
      }
    }

    /**
     * removeFix(parent, difference): the child of parent's subtree t on the side difference names
     * (left for 1, right for -1) has just shrunk by one level. The walk adds difference to parent's
     * balance; at 0 it climbs with the difference for parent's own place, at -2 or 2 it rotates,
     * and at -1 or 1 it stops. The tree it leaves is RemoveFixed(c, t, difference).
     */
    method RemoveFix(parent: Node?<V>, difference: int, ghost c: Ctx<V>, ghost t: Tree<V>)
      requires parent == null ==> Valid()
      requires parent != null ==> At(c, t) && t.Branch? && t.node == parent && RemoveWalk(c, t, difference)
      modifies this, Repr
      ensures Valid() && Repr == old(Repr)
      ensures Abs == if parent == null then old(Abs) else RemoveFixed(c, t, difference)
      decreases if parent == null then 0 else 1, c, 3
    {
      if parent == null {
        return;
      }
      var grandparent, nextdiff := ClimbDifference(parent, c, t);
      assert Wrap8(t.bal + difference) == t.bal + difference by {
        RemoveFixedStep(c, t, difference);
      }
      UpdateBalanceAt(parent, difference, c, t);
      RemoveFixBalance(parent, grandparent, nextdiff, difference, c, t);
    }

    /**
     * The difference removeFix passes to parent's parent, and remove to the removed node's
     * parent: 1 when parent hangs on its left, -1 when on its right, and 0 when parent is the root.
     */
    method ClimbDifference(parent: Node<V>, ghost c: Ctx<V>, ghost t: Tree<V>) returns (grandparent: Node?<V>, nextdiff: int)
      requires At(c, t) && t.Branch? && t.node == parent
      ensures grandparent == CtxNode(c)
      ensures nextdiff == if c.Hole? then NextDiff(c) else 0
    {
      NodeFacts(c, t);
      nextdiff := 0;
      grandparent := parent.parent;
      if grandparent != null {
        if grandparent.left == parent {
          nextdiff := 1;
        } else {
          nextdiff := -1;
        }
      }
    }

    /**
     * The rest of removeFix once parent's balance has taken difference: climb at 0, rotate at -2
     * or 2, stop at -1 or 1.
     */
    method RemoveFixBalance(parent: Node<V>, grandparent: Node?<V>, nextdiff: int, difference: int, ghost c: Ctx<V>, ghost t: Tree<V>)
      requires RemoveWalk(c, t, difference) && At(c, t.(bal := t.bal + difference)) && t.Branch? && t.node == parent
      requires grandparent == CtxNode(c) && (c.Hole? ==> nextdiff == NextDiff(c))
      modifies this, Repr
      ensures Valid() && Repr == old(Repr)
      ensures Abs == RemoveFixed(c, t, difference)
      decreases 1, c, 2
    {
      RemoveFixedStep(c, t, difference);
      ghost var u := t.(bal := t.bal + difference);
      NodeFacts(c, u);
      if parent.balance == 0 {
        RemoveFixUp(grandparent, nextdiff, c, u);
      } else if parent.balance == -2 {
        RemoveFixLeft(parent, grandparent, nextdiff, c, u);
      } else if parent.balance == 2 {
        RemoveFixRight(parent, grandparent, nextdiff, c, u);
      }
    }

    /**
     * removeFix(grandparent, nextdiff) once the subtree s below grandparent has lost a level:
     * the walk ends at the root and climbs otherwise, which is RemoveUp(c, s).
     */
    method RemoveFixUp(grandparent: Node?<V>, nextdiff: int, ghost c: Ctx<V>, ghost s: Tree<V>)
      requires At(c, s) && Balanced(s) && CtxBal(c, Height(s) + 1) && grandparent == CtxNode(c)
      requires c.Hole? ==> nextdiff == NextDiff(c)
      modifies this, Repr
      ensures Valid() && Repr == old(Repr)
      ensures Abs == RemoveUp(c, s)
      decreases 1, c, 0
    {
      RemoveUpStep(c, s);
      if grandparent != null {
        Up(c, s);
        RemoveFix(grandparent, nextdiff, c.up, Attach(c, s));
      } else {
        RemoveFix(grandparent, nextdiff, c, s);
      }
    }

    /**
     * removeFix at a parent whose balance has reached -2: a right rotation when the taller left
     * child leans left or is level, otherwise a left rotation at the child and a right rotation at
     * the parent, each followed by its balance table. The walk climbs unless the child was level.
     */
    method RemoveFixLeft(parent: Node<V>, grandparent: Node?<V>, nextdiff: int, ghost c: Ctx<V>, ghost u: Tree<V>)
      requires At(c, u) && RemoveCase(u) && u.bal == -2 && u.node == parent && CtxBal(c, Height(u))
      requires grandparent == CtxNode(c) && (c.Hole? ==> nextdiff == NextDiff(c))
      modifies this, Repr
      ensures Valid() && Repr == old(Repr)
      ensures Abs == RemoveRotated(c, u)
      decreases 1, c, 1
    {
      NodeFacts(c, u);
      Descend(c, u, true);
      NodeFacts(DownCtx(c, u, true), u.left);
      var tallerChild := parent.left;
      ghost var s := RemoveRebalance(u);
      if tallerChild.balance == -1 {
        RotateAt(parent, tallerChild, true, c, u);
        ghost var r := RotateRight(u);
        SetChildBalanceAt(parent, 0, false, c, r);
        SetBalanceAt(tallerChild, 0, c, r.(right := r.right.(bal := 0)));
        RemoveFixUp(grandparent, nextdiff, c, s);
      } else if tallerChild.balance == 0 {
        RotateAt(parent, tallerChild, true, c, u);
        ghost var r := RotateRight(u);
        SetChildBalanceAt(parent, -1, false, c, r);
        SetBalanceAt(tallerChild, 1, c, r.(right := r.right.(bal := -1)));
        BalancedPlug(c, s);
      } else {
        var grandchild := tallerChild.right;
        RemoveFixLeftDouble(parent, tallerChild, grandchild, c, u);
        RemoveFixUp(grandparent, nextdiff, c, s);
      }
    }

    /**
     * The double rotation of removeFix at a parent with balance -2 whose taller child leans
     * right: a left rotation at the taller left child and a right rotation at parent,
     * then the balance table keyed on grandchild's balance.
     */
    method RemoveFixLeftDouble(parent: Node<V>, tallerChild: Node<V>, grandchild: Node<V>, ghost c: Ctx<V>, ghost u: Tree<V>)
      requires At(c, u) && RemoveCase(u) && u.bal == -2 && u.node == parent
      requires u.left.node == tallerChild && u.left.bal == 1 && grandchild == TopNode(u.left.right)
      modifies this, Repr
      ensures At(c, RemoveRebalance(u)) && Repr == old(Repr)
    {
      Descend(c, u, true);
      RotateAt(tallerChild, grandchild, false, DownCtx(c, u, true), u.left);
      ghost var t1 := u.(left := RotateLeft(u.left));
      RotateAt(parent, grandchild, true, c, t1);
      ghost var r := RotateRight(t1);
      NodeFacts(c, r);
      if grandchild.balance == 0 {
        SetChildBalanceAt(parent, 0, false, c, r);
        SetChildBalanceAt(tallerChild, 0, true, c, r.(right := r.right.(bal := 0)));
      } else if grandchild.balance == -1 {
        SetChildBalanceAt(parent, 1, false, c, r);
        SetChildBalanceAt(tallerChild, 0, true, c, r.(right := r.right.(bal := 1)));
        SetBalanceAt(grandchild, 0, c, r.(left := r.left.(bal := 0), right := r.right.(bal := 1)));
      } else {
        SetChildBalanceAt(parent, 0, false, c, r);
        SetChildBalanceAt(tallerChild, -1, true, c, r.(right := r.right.(bal := 0)));
        SetBalanceAt(grandchild, 0, c, r.(left := r.left.(bal := -1), right := r.right.(bal := 0)));
      }
    }

    /** removeFix at a parent whose balance has reached 2: the mirror image of RemoveFixLeft. */
    method RemoveFixRight(parent: Node<V>, grandparent: Node?<V>, nextdiff: int, ghost c: Ctx<V>, ghost u: Tree<V>)
      requires At(c, u) && RemoveCase(u) && u.bal == 2 && u.node == parent && CtxBal(c, Height(u))
      requires grandparent == CtxNode(c) && (c.Hole? ==> nextdiff == NextDiff(c))
      modifies this, Repr
      ensures Valid() && Repr == old(Repr)
      ensures Abs == RemoveRotated(c, u)
      decreases 1, c, 1
    {
      NodeFacts(c, u);
      Descend(c, u, false);
      NodeFacts(DownCtx(c, u, false), u.right);
      var tallerChild := parent.right;
      ghost var s := RemoveRebalance(u);
      if tallerChild.balance == 1 {
        RotateAt(parent, tallerChild, false, c, u);
        ghost var r := RotateLeft(u);
        SetChildBalanceAt(parent, 0, true, c, r);
        SetBalanceAt(tallerChild, 0, c, r.(left := r.left.(bal := 0)));
        RemoveFixUp(grandparent, nextdiff, c, s);
      } else if tallerChild.balance == 0 {
        RotateAt(parent, tallerChild, false, c, u);
        ghost var r := RotateLeft(u);
        SetChildBalanceAt(parent, 1, true, c, r);
        SetBalanceAt(tallerChild, -1, c, r.(left := r.left.(bal := 1)));
        BalancedPlug(c, s);
      } else {
        var grandchild := tallerChild.left;
        RemoveFixRightDouble(parent, tallerChild, grandchild, c, u);
        RemoveFixUp(grandparent, nextdiff, c, s);
      }
    }

    /**
     * The double rotation of removeFix at a parent with balance 2 whose taller child leans
     * left: a right rotation at the taller right child and a left rotation at parent,
     * then the balance table keyed on grandchild's balance.
     */
    method RemoveFixRightDouble(parent: Node<V>, tallerChild: Node<V>, grandchild: Node<V>, ghost c: Ctx<V>, ghost u: Tree<V>)
      requires At(c, u) && RemoveCase(u) && u.bal == 2 && u.node == parent
      requires u.right.node == tallerChild && u.right.bal == -1 && grandchild == TopNode(u.right.left)
      modifies this, Repr
      ensures At(c, RemoveRebalance(u)) && Repr == old(Repr)
    {
      Descend(c, u, false);
      RotateAt(tallerChild, grandchild, true, DownCtx(c, u, false), u.right);
      ghost var t1 := u.(right := RotateRight(u.right));
      RotateAt(parent, grandchild, false, c, t1);
      ghost var r := RotateLeft(t1);
      NodeFacts(c, r);
      DoubleLeftHeights(u);
      if grandchild.balance == 0 {
        SetChildBalanceAt(parent, 0, true, c, r);
        SetChildBalanceAt(tallerChild, 0, false, c, r.(left := r.left.(bal := 0)));
      } else if grandchild.balance == 1 {
        SetChildBalanceAt(parent, -1, true, c, r);
        SetChildBalanceAt(tallerChild, 0, false, c, r.(left := r.left.(bal := -1)));
        SetBalanceAt(grandchild, 0, c, r.(left := r.left.(bal := -1), right := r.right.(bal := 0)));
      } else {
        SetChildBalanceAt(parent, 0, true, c, r);
        SetChildBalanceAt(tallerChild, 1, false, c, r.(left := r.left.(bal := 0)));
        SetBalanceAt(grandchild, 0, c, r.(left := r.left.(bal := 0), right := r.right.(bal := 1)));
      }
    }
  
    /**
     * internalFind(key): the node holding key, or null when no node does. The search walks down
     * from the root, left when key is below a node's key and right when above. The ghost results
     * give the focus on the node found.
     */
    method InternalFind(key: int) returns (r: Node?<V>, ghost c: Ctx<V>, ghost t: Tree<V>)
      requires Valid() && Ordered(Abs)
      ensures r == null <==> key !in Content(Abs)
      ensures r != null ==> At(c, t) && t.Branch? && t.node == r && t.key == key
    {
      r, c, t := root, Top, Abs;
      PlugTop(c, t);
      while r != null && r.key != key
        invariant At(c, t) && r == TopNode(t) && Bounded(c, key)
        decreases Height(t)
      {
        NodeFacts(c, t);
        DescendBounded(c, t, key);
        Descend(c, t, key < r.key);
        if key < r.key {
          c, t := DownCtx(c, t, true), t.left;
          r := r.left;
        } else {
          c, t := DownCtx(c, t, false), t.right;
          r := r.right;
        }
      }
      if r == null {
        MissingAtEmpty(c, key);
      } else {
        NodeFacts(c, t);
        KeyAtFocus(c, t);
      }
    }

    /** setLeft or setRight read on records: only p's link on that side changes, to n. */
    static method SetChildRecs(p: Node<V>, n: Node<V>, left: bool, ghost S: set<Node<V>>, ghost h: map<Node<V>, Rec<V>>)
      requires h == Heap(S) && p in S
      modifies p`left, p`right
      ensures Heap(S) == h[p := if left then h[p].(left := n) else h[p].(right := n)]
    {
      if left {
        p.left := n;
      } else {
        p.right := n;
      }
      assert forall m | m in S :: Heap(S)[m] == h[p := if left then h[p].(left := n) else h[p].(right := n)][m];
    }

    /** The nodes of the valid tree are those of Repr. */
    lemma {:induction false} ReprNodes()
      requires Valid()
      ensures Repr == Nodes(Abs)
    {
      SnapKeys(Abs, null);
    }

    /** A new node added to S: the records of S are kept and the new node's record is added. */
    static lemma HeapAdd(S: set<Node<V>>, n: Node<V>)
      ensures Heap(S + {n}) == Heap(S)[n := Rec(n.parent, n.left, n.right, n.key, n.value, n.balance)]
    {
    }

    /** linkLeaf read on records: with n linked below avl, the heap of S and n is the snapshot of the grafted tree. */
    static method LinkLeafRecs(avl: Node<V>, n: Node<V>, left: bool, ghost k: int, ghost v: V, ghost c: Ctx<V>, ghost t: Tree<V>,
                               ghost S: set<Node<V>>)
      requires t.Branch? && t.node == avl && Child(t, left).Empty? && Distinct(Plug(c, t))
      requires Heap(S) == Snap(Plug(c, t), null) && n !in S
      requires n.parent == avl && n.left == null && n.right == null && n.key == k && n.value == v && n.balance == 0
      modifies avl`left, avl`right
      ensures Heap(S + {n}) == Snap(Plug(c, Graft(t, left, n, k, v)), null)
      ensures Distinct(Plug(c, Graft(t, left, n, k, v))) && TopNode(Plug(c, Graft(t, left, n, k, v))) == TopNode(Plug(c, t))
    {
      DistinctPlug(c, t);
      SnapAt(c, t);
      SnapKeys(Plug(c, t), null);
      ghost var h0 := Heap(S);
      HeapAdd(S, n);
      ghost var h := Heap(S + {n});
      SetChildRecs(avl, n, left, S + {n}, h);
      GraftHeap(c, t, left, n, k, v, h0, h, Heap(S + {n}));
    }

    /** The new leaf n (key k, value v), already pointing at its parent avl, is linked in as avl's child. */
    method LinkLeaf(avl: Node<V>, n: Node<V>, left: bool, ghost k: int, ghost v: V, ghost c: Ctx<V>, ghost t: Tree<V>)
      requires At(c, t) && t.Branch? && t.node == avl && Child(t, left).Empty? && n !in Repr
      requires n.parent == avl && n.left == null && n.right == null && n.key == k && n.value == v && n.balance == 0
      modifies this, avl
      ensures At(c, Graft(t, left, n, k, v)) && Repr == old(Repr) + {n}
    {
      ghost var S, h := Repr, Heap(Repr);
      Abs, Repr := Plug(c, Graft(t, left, n, k, v)), Repr + {n};
      assert Heap(S) == h;
      LinkLeafRecs(avl, n, left, k, v, c, t, S);
    }

    /**
     * The end of insert's descent: a new leaf for key hangs below avl on the given side, which is
     * empty. When avl leaned the other way it becomes level and nothing above changes; when it
     * was a leaf its subtree has grown, and insertFix repairs the path above it.
     */
    method AttachLeaf(avl: Node<V>, key: int, value: V, left: bool, ghost c: Ctx<V>, ghost t: Tree<V>)
      returns (current: Node<V>)
      requires At(c, t) && t.Branch? && t.node == avl && Child(t, left).Empty? && Balanced(Plug(c, t))
      modifies this, Repr
      ensures Valid() && Balanced(Abs) && fresh(current) && Repr == old(Repr) + {current}
      ensures Elems(Abs) == Elems(Plug(c, Graft(t, left, current, key, value)))
    {
      TopRec(c, t);
      current := new Node(key, value, avl);
      LinkLeaf(avl, current, left, key, value, c, t);
      ghost var u := Graft(t, left, current, key, value);
      NodeFacts(c, u);
      BalancedPlug(c, t);
      if avl.balance != 0 {
        LeafLevels(avl, current, key, value, left, c, t);
      } else {
        LeafGrows(avl, current, key, value, left, c, t);
      }
    }

    /** A new leaf on the empty side of a node that leaned the other way: the node becomes level. */
    method LeafLevels(avl: Node<V>, current: Node<V>, key: int, value: V, left: bool, ghost c: Ctx<V>, ghost t: Tree<V>)
      requires t.Branch? && t.node == avl && Child(t, left).Empty? && Balanced(t) && CtxBal(c, Height(t)) && t.bal != 0
      requires At(c, Graft(t, left, current, key, value))
      modifies this, Repr
      ensures Valid() && Balanced(Abs) && Repr == old(Repr)
      ensures Elems(Abs) == Elems(Plug(c, Graft(t, left, current, key, value)))
    {
      ghost var u := Graft(t, left, current, key, value);
      GraftLevel(t, left, current, key, value);
      SetBalShape(u, 0);
      SetBalanceAt(avl, 0, c, u);
      BalancedPlug(c, u.(bal := 0));
      PlugElems(c, u);
      PlugElems(c, u.(bal := 0));
    }

    /** A new leaf below a leaf: the node leans toward it and insertFix repairs the path above. */
    method LeafGrows(avl: Node<V>, current: Node<V>, key: int, value: V, left: bool, ghost c: Ctx<V>, ghost t: Tree<V>)
      requires t.Branch? && t.node == avl && Child(t, left).Empty? && Balanced(t) && CtxBal(c, Height(t)) && t.bal == 0
      requires At(c, Graft(t, left, current, key, value))
      modifies this, Repr
      ensures Valid() && Balanced(Abs) && Repr == old(Repr)
      ensures Elems(Abs) == Elems(Plug(c, Graft(t, left, current, key, value)))
    {
      ghost var u := Graft(t, left, current, key, value);
      ghost var g := u.(bal := if left then -1 else 1);
      GraftGrown(t, left, current, key, value);
      SetBalShape(u, g.bal);
      UpdateBalanceAt(avl, if left then -1 else 1, c, u);
      InsertFix(avl, current, c, g);
      PlugElems(c, u);
      PlugElems(c, g);
    }

    /**
     * insert(key, value): an existing key gets the new value; otherwise a new leaf is hung where
     * the search for key falls off the tree and the path above it is rebalanced. The tree stays
     * an AVL tree and stores key's new value.
     */
    method Insert(key: int, value: V)
      requires AvlInvariant()
      modifies this, Repr
      ensures AvlInvariant()
      ensures Content(Abs) == old(Content(Abs))[key := value]
      ensures old(Repr) <= Repr && fresh(Repr - old(Repr))
      ensures key in old(Content(Abs)) ==> SameShape(Abs, old(Abs)) && Repr == old(Repr)
      ensures key !in old(Content(Abs)) ==> |Repr - old(Repr)| == 1
    {
      ReprNodes();
      if root == null {
        InsertRoot(key, value);
        return;
      }
      var current, c0, t0 := InternalFind(key);
      if current != null {
        OverwriteValue(current, value, c0, t0);
        return;
      }
      InsertNew(key, value);
    }

    /** insert into an empty tree: the new node, a leaf with balance 0, becomes the root. */
    method InsertRoot(key: int, value: V)
      requires AvlInvariant() && root == null
      modifies this
      ensures AvlInvariant() && Abs.Branch? && Abs.left.Empty? && Abs.right.Empty? && Abs.bal == 0
      ensures Content(Abs) == old(Content(Abs))[key := value]
      ensures fresh(root) && Repr == {root}
    {
      ReprNodes();
      var n := new Node(key, value, null);
      root := n;
      Abs, Repr := Branch(Empty, n, key, value, 0, Empty), {n};
      assert Heap(Repr) == Snap(Abs, null);
      assert Elems(old(Abs)) == [];
      assert Elems(Abs) == [] + [(key, value)];
    }

    /** insert of a key the tree holds: the node found gets the new value, and nothing else changes. */
    method OverwriteValue(current: Node<V>, value: V, ghost c: Ctx<V>, ghost t: Tree<V>)
      requires AvlInvariant() && At(c, t) && t.Branch? && t.node == current
      modifies this, Repr
      ensures AvlInvariant() && Repr == old(Repr)
      ensures Content(Abs) == old(Content(Abs))[t.key := value]
      ensures SameShape(Abs, old(Abs))
    {
      OverwriteAt(c, t, value);
      OverwriteShape(c, t, value);
      BalancedPlug(c, t);
      BalancedPlug(c, t.(value := value));
      SetValueAt(current, value, c, t);
    }

    /**
     * The descent of insert for a key the tree does not hold: from the root, left when key is
     * below a node's key and right otherwise, until the side to go to is empty; the new leaf
     * hangs there.
     */
    method InsertNew(key: int, value: V)
      requires AvlInvariant() && root != null && key !in Content(Abs)
      modifies this, Repr
      ensures AvlInvariant()
      ensures Content(Abs) == old(Content(Abs))[key := value]
      ensures old(Repr) <= Repr && fresh(Repr - old(Repr)) && |Repr - old(Repr)| == 1
    {
      var avl := root;
      var found := false;
      ghost var c, t := Top, Abs;
      ghost var leaf: Node?<V> := null;
      PlugTop(c, t);
      while !found
        invariant !found ==> At(c, t) && t.Branch? && avl == t.node && Bounded(c, key) && Abs == old(Abs) && Repr == old(Repr)
        invariant found ==> AvlInvariant() && Content(Abs) == old(Content(Abs))[key := value]
        invariant found ==> leaf != null && fresh(leaf) && Repr == old(Repr) + {leaf}
        decreases !found, Height(t)
      {
        NodeFacts(c, t);
        KeyAtFocus(c, t);
        var left := key < avl.key;
        DescendBounded(c, t, key);
        if (left && avl.left == null) || (!left && avl.right == null) {
          found := true;
          var current := AttachLeaf(avl, key, value, left, c, t);
          GraftOrder(c, t, left, current, key, value);
          leaf := current;
        } else {
          Descend(c, t, left);
          c, t := DownCtx(c, t, left), Child(t, left);
          avl := if left then avl.left else avl.right;
        }
      }
      assert Repr - old(Repr) == {leaf};
    }

    /** The parent and child links of n set at once, read on records: only n's links change. */
    static method SetLinksRecs(n: Node<V>, p: Node?<V>, l: Node?<V>, r: Node?<V>, ghost S: set<Node<V>>, ghost h: map<Node<V>, Rec<V>>)
      requires h == Heap(S) && n in S
      modifies n`parent, n`left, n`right
      ensures Heap(S) == Put(h, n, h[n].(parent := p, left := l, right := r))
    {
      n.parent, n.left, n.right := p, l, r;
      assert forall m | m in S :: Heap(S)[m] == Put(h, n, h[n].(parent := p, left := l, right := r))[m];
    }

    /** setParent read on records: only n's parent link changes, to p. */
    static method SetParentRecs(n: Node<V>, p: Node?<V>, ghost S: set<Node<V>>, ghost h: map<Node<V>, Rec<V>>)
      requires h == Heap(S) && n in S
      modifies n`parent
      ensures Heap(S) == Put(h, n, h[n].(parent := p))
    {
      n.parent := p;
      assert forall m | m in S :: Heap(S)[m] == Put(h, n, h[n].(parent := p))[m];
    }

    /**
     * The writes of the base class's nodeSwap(n1, n2) when n2 is n1's predecessor, read on
     * records: n2 takes n1's links and n1 takes n2's, and the neighbours are pointed at their
     * new partners. p1, l1, r1, p2 and l2 are the links read before the first write, p1left
     * whether n1 hung on p1's left.
     */
    static method SwapLinksRecs(n1: Node<V>, n2: Node<V>, p1: Node?<V>, l1: Node<V>, r1: Node<V>, p2: Node<V>, l2: Node?<V>,
                         p1left: bool, ghost S: set<Node<V>>, ghost h: map<Node<V>, Rec<V>>)
      requires h == Heap(S) && n1 in S && n2 in S && l1 in S && r1 in S && p2 in S
      requires (p1 == null || p1 in S) && (l2 == null || l2 in S)
      requires p1 != null ==> (p1left <==> h[p1].left == n1)
      modifies n1, n2, NodeSet(p1), r1, l1, p2, NodeSet(l2)
      ensures Heap(S) == SwapWrites(h, n1, n2, p1, l1, r1, p2, l2)
    {
      var adjacent := p2 == n1;
      SetLinksRecs(n2, p1, if adjacent then n1 else l1, r1, S, h);
      ghost var g1 := Heap(S);
      SetLinksRecs(n1, if adjacent then n2 else p2, l2, null, S, g1);
      ghost var g2 := Heap(S);
      SetChildOfRecs(p1, n2, p1left, S, g2);
      ghost var g3 := Heap(S);
      SetParentRecs(r1, n2, S, g3);
      ghost var g4 := Heap(S);
      SetAboveRecs(l1, n2, p2, n1, adjacent, S, g4);
      ghost var g5 := Heap(S);
      SetParentOfRecs(l2, n1, S, g5);
      SwapWritesSteps(h, n1, n2, p1, l1, r1, p2, l2, p1left, g1, g2, g3, g4, g5, Heap(S));
    }

    /** setLeft or setRight on p when p is not null, read on records. */
    static method SetChildOfRecs(p: Node?<V>, n: Node?<V>, left: bool, ghost S: set<Node<V>>, ghost h: map<Node<V>, Rec<V>>)
      requires h == Heap(S) && (p == null || p in S)
      modifies NodeSet(p)
      ensures Heap(S) == if p == null then h else if left then Put(h, p, h[p].(left := n)) else Put(h, p, h[p].(right := n))
    {
      if p != null {
        if left {
          p.left := n;
        } else {
          p.right := n;
        }
        assert forall m | m in S :: Heap(S)[m] == Put(h, p, if left then h[p].(left := n) else h[p].(right := n))[m];
      }
    }

    /** setParent on n when n is not null, read on records. */
    static method SetParentOfRecs(n: Node?<V>, p: Node?<V>, ghost S: set<Node<V>>, ghost h: map<Node<V>, Rec<V>>)
      requires h == Heap(S) && (n == null || n in S)
      modifies NodeSet(n)
      ensures Heap(S) == if n == null then h else Put(h, n, h[n].(parent := p))
    {
      if n != null {
        SetParentRecs(n, p, S, h);
      }
    }

    /**
     * The writes of nodeSwap above a predecessor that is not n1's own child: n1's left child l1
     * gets parent n2, and the predecessor's parent p2 gets right child n1.
     */
    static method SetAboveRecs(l1: Node<V>, n2: Node<V>, p2: Node<V>, n1: Node<V>, adjacent: bool,
                               ghost S: set<Node<V>>, ghost h: map<Node<V>, Rec<V>>)
      requires h == Heap(S) && l1 in S && p2 in S
      modifies l1, p2
      ensures Heap(S) == if adjacent then h else var y := Put(h, l1, h[l1].(parent := n2)); Put(y, p2, y[p2].(right := n1))
    {
      if !adjacent {
        SetParentRecs(l1, n2, S, h);
        ghost var y := Heap(S);
        SetChildRecs(p2, n1, false, S, y);
      }
    }

    /** The links nodeSwap reads, in the configuration remove meets, read off the tree. */
    lemma {:induction false} SwapFacts(c: Ctx<V>, t: Tree<V>, ci: Ctx<V>, q: Tree<V>)
      requires At(c, t) && PredecessorAt(c, t, ci, q)
      ensures t.node.parent == CtxNode(c) && t.node.left == TopNode(t.left) && t.node.right == TopNode(t.right)
      ensures q.node.parent == CtxNode(Append(ci, DownCtx(c, t, true))) && q.node.left == TopNode(q.left)
      ensures CtxNode(c) != null ==> (CtxNode(c).left == t.node <==> c.holeLeft)
      ensures c.Top? ==> root == t.node
      ensures Heap(Repr) == Snap(Plug(c, t), null)
    {
      var e := Append(ci, DownCtx(c, t, true));
      PredecessorNodes(c, t, ci, q);
      NodeFacts(c, t);
      NodeFacts(e, q);
    }

    /**
     * The base class's nodeSwap(n1, n2) for a node n1 with two children and its predecessor n2:
     * the two nodes exchange their places in the tree, each keeping its own key, value and
     * balance. The tree, read as a value, is Exchanged(c, t, ci, q).
     */
    method BaseNodeSwap(n1: Node<V>, n2: Node<V>, ghost c: Ctx<V>, ghost t: Tree<V>, ghost ci: Ctx<V>, ghost q: Tree<V>)
      requires At(c, t) && PredecessorAt(c, t, ci, q) && t.node == n1 && q.node == n2
      modifies this, Repr
      ensures Valid() && Abs == Exchanged(c, t, ci, q) && Repr == old(Repr)
    {
      SwapFacts(c, t, ci, q);
      var p1, l1, r1, p2, l2 := n1.parent, n1.left, n1.right, n2.parent, n2.left;
      var p1left := p1 != null && p1.left == n1;
      ghost var h := Heap(Repr);
      SwapAtPredecessor(c, t, ci, q, h, p1, l1, r1, p2, l2);
      SwapCommit(n1, n2, p1, l1, r1, p2, l2, p1left, Exchanged(c, t, ci, q));
    }

    /** The writes of nodeSwap, with root moved to n2 when n1 was the root and the abstract tree set to w. */
    method SwapCommit(n1: Node<V>, n2: Node<V>, p1: Node?<V>, l1: Node<V>, r1: Node<V>, p2: Node<V>, l2: Node?<V>,
                      p1left: bool, ghost w: Tree<V>)
      requires n1 in Repr && n2 in Repr && l1 in Repr && r1 in Repr && p2 in Repr
      requires (p1 == null || p1 in Repr) && (l2 == null || l2 in Repr)
      requires p1 != null ==> (p1left <==> p1.left == n1)
      modifies this, Repr
      ensures Heap(Repr) == SwapWrites(old(Heap(Repr)), n1, n2, p1, l1, r1, p2, l2)
      ensures Abs == w && Repr == old(Repr) && root == if p1 == null then n2 else old(root)
    {
      ghost var h := Heap(Repr);
      Abs, root := w, if p1 == null then n2 else root;
      assert Heap(Repr) == h;
      SwapLinksRecs(n1, n2, p1, l1, r1, p2, l2, p1left, Repr, h);
    }

    /**
     * The base class's nodeSwap followed by the exchange of the two balances: n1, with two
     * children, and its predecessor n2 trade places, and each takes the balance of the place it
     * moves to. n1 ends at the predecessor's old place, with no right child.
     */
    method NodeSwap(n1: Node<V>, n2: Node<V>, ghost c: Ctx<V>, ghost t: Tree<V>, ghost ci: Ctx<V>, ghost q: Tree<V>)
      requires At(c, t) && PredecessorAt(c, t, ci, q) && t.node == n1 && q.node == n2 && Int8(t.bal) && Int8(q.bal)
      modifies this, Repr
      ensures At(BelowSwap(c, t, ci, q), SwappedLow(t, q)) && Repr == old(Repr)
      ensures Abs == Plug(c, SwappedTop(t, ci, q))
    {
      BaseNodeSwap(n1, n2, c, t, ci, q);
      ghost var low: Tree<V> := Branch(q.left, t.node, t.key, t.value, t.bal, Empty);
      ghost var top: Tree<V> := Branch(Plug(ci, low), q.node, q.key, q.value, q.bal, t.right);
      ghost var d := DownCtx(c, top, true);
      PlugAppend(ci, d, low);
      NodeFacts(Append(ci, d), low);
      NodeFacts(c, top);
      var tempB := n1.balance;
      SetBalanceAt(n1, n2.balance, Append(ci, d), low);
      ghost var top1: Tree<V> := Branch(Plug(ci, SwappedLow(t, q)), q.node, q.key, q.value, q.bal, t.right);
      PlugAppend(ci, d, SwappedLow(t, q));
      assert Plug(d, Plug(ci, SwappedLow(t, q))) == Plug(c, top1);
      SetBalanceAt(n2, tempB, c, top1);
      assert Branch(top1.left, q.node, q.key, q.value, t.bal, t.right) == SwappedTop(t, ci, q);
    }

    /**
     * predecessor(current) for a node with a left child: the node at the end of the right spine
     * of current's left subtree. Its key is the largest key of the tree below current's key.
     */
    method Predecessor(current: Node<V>, ghost c: Ctx<V>, ghost t: Tree<V>) returns (pred: Node<V>, ghost ci: Ctx<V>, ghost q: Tree<V>)
      requires At(c, t) && t.Branch? && t.node == current && t.left.Branch?
      ensures t.left == Plug(ci, q) && RightSpine(ci) && q.Branch? && q.right.Empty? && q.node == pred
      ensures Ordered(Abs) ==> pred.key == q.key && pred.key < current.key
      ensures Ordered(Abs) ==> forall k | k in Content(Abs) && k < current.key :: k <= pred.key
    {
      NodeFacts(c, t);
      Descend(c, t, true);
      var d := DownCtx(c, t, true);
      pred, ci, q := current.left, Top, t.left;
      while pred.right != null
        invariant At(Append(ci, d), q) && q.Branch? && pred == q.node
        invariant Plug(ci, q) == t.left && RightSpine(ci)
        decreases Height(q)
      {
        NodeFacts(Append(ci, d), q);
        Descend(Append(ci, d), q, false);
        ci, q := DownCtx(ci, q, false), q.right;
        pred := pred.right;
      }
      NodeFacts(Append(ci, d), q);
      if Ordered(Abs) {
        PredecessorLargest(c, t, ci, q);
      }
    }

    /** Removing a node from a set of nodes removes its record from theirs. */
    static lemma HeapMinus(S: set<Node<V>>, n: Node<V>)
      ensures Heap(S - {n}) == Heap(S) - {n}
    {
    }

    /**
     * removeHelper(parent, current, child) for a node current with at most one child: child, or
     * nothing, takes current's place below parent, or as the root when parent is null, and
     * current leaves the tree.
     */
    method RemoveHelper(parent: Node?<V>, current: Node<V>, child: Node?<V>, ghost c: Ctx<V>, ghost t: Tree<V>)
      requires At(c, t) && t.Branch? && t.node == current && (t.left.Empty? || t.right.Empty?)
      requires parent == CtxNode(c) && child == TopNode(OnlyChild(t))
      modifies this, Repr
      ensures At(c, OnlyChild(t)) && Repr == old(Repr) - {current}
    {
      Focus(c, t);
      SnapSplice(c, t);
      SpliceNodes(c, t);
      var left := parent != null && parent.left == current;
      if c.Top? {
        PlugTop(c, t);
      }
      SpliceCommit(current, parent, child, left, Plug(c, OnlyChild(t)));
    }

    /** The writes of removeHelper, with root moved to child when current was the root and the abstract tree set to w. */
    method SpliceCommit(current: Node<V>, parent: Node?<V>, child: Node?<V>, left: bool, ghost w: Tree<V>)
      requires current in Repr && (parent == null || parent in Repr) && (child == null || child in Repr)
      requires parent != null ==> (left <==> parent.left == current)
      modifies this, Repr
      ensures Heap(Repr) == SpliceWrites(old(Heap(Repr)), current, parent, child)
      ensures Abs == w && Repr == old(Repr) - {current} && root == if parent == null then child else old(root)
    {
      ghost var S, h := Repr, Heap(Repr);
      Abs, root, Repr := w, if parent == null then child else root, Repr - {current};
      assert Heap(S) == h;
      SetChildOfRecs(parent, child, left, S, h);
      ghost var g1 := Heap(S);
      SetParentOfRecs(child, parent, S, g1);
      HeapMinus(S, current);
    }

    /**
     * remove(key): a key the tree does not hold leaves it unchanged. Otherwise the node holding
     * key is taken out, after an exchange with its predecessor when it has two children, and
     * removeFix repairs the path above the place it left. The tree stays an AVL tree, loses
     * exactly key, and loses exactly one node.
     */
    method Remove(key: int)
      requires AvlInvariant()
      modifies this, Repr
      ensures AvlInvariant()
      ensures Content(Abs) == old(Content(Abs)) - {key}
      ensures if key in old(Content(Abs)) then Repr < old(Repr) && |old(Repr) - Repr| == 1 else Repr == old(Repr) && Abs == old(Abs)
    {
      var current, c, t := InternalFind(key);
      if current == null {
        assert Content(Abs) - {key} == Content(Abs);
        return;
      }
      NodeFacts(c, t);
      RemoveNode(current, c, t);
      assert old(Repr) - Repr == {current};
    }

    /** remove once internalFind has found current, the node of the subtree t in context c. */
    method RemoveNode(current: Node<V>, ghost c: Ctx<V>, ghost t: Tree<V>)
      requires AvlInvariant() && At(c, t) && t.Branch? && t.node == current
      modifies this, Repr
      ensures AvlInvariant() && Content(Abs) == old(Content(Abs)) - {t.key} && Repr == old(Repr) - {current}
    {
      var parent, diff := ClimbDifference(current, c, t);
      NodeFacts(c, t);
      if current.left != null && current.right == null {
        RemoveSpliced(parent, current, current.left, diff, c, t);
      } else if current.left == null && current.right != null {
        RemoveSpliced(parent, current, current.right, diff, c, t);
      } else if current.left == null && current.right == null {
        RemoveSpliced(parent, current, null, diff, c, t);
      } else {
        RemoveSwapped(current, c, t);
      }
    }

    /**
     * The end of remove for a node current with at most one child: removeHelper splices it out
     * and removeFix(parent, diff) repairs the path above, diff telling the side current hung on.
     * From an AVL tree comes an AVL tree holding the same entries as the spliced tree, which for a
     * search tree are those before less current's.
     */
    method RemoveSpliced(parent: Node?<V>, current: Node<V>, child: Node?<V>, diff: int, ghost c: Ctx<V>, ghost t: Tree<V>)
      requires At(c, t) && t.Branch? && t.node == current && (t.left.Empty? || t.right.Empty?) && Balanced(Abs)
      requires parent == CtxNode(c) && child == TopNode(OnlyChild(t)) && (c.Hole? ==> diff == NextDiff(c))
      modifies this, Repr
      ensures Valid() && Balanced(Abs) && Elems(Abs) == Elems(Plug(c, OnlyChild(t))) && Repr == old(Repr) - {current}
      ensures Ordered(old(Abs)) ==> Ordered(Abs) && Content(Abs) == old(Content(Abs)) - {t.key}
    {
      if Ordered(Abs) {
        SpliceOrder(c, t);
      }
      SpliceBalance(c, t);
      RemoveHelper(parent, current, child, c, t);
      RemoveFixUp(parent, diff, c, OnlyChild(t));
    }

    /**
     * The end of remove for a node current with two children: nodeSwap moves it to its
     * predecessor's place, where it has no right child; parent and diff are read again there,
     * and current is spliced out from that place.
     */
    method RemoveSwapped(current: Node<V>, ghost c: Ctx<V>, ghost t: Tree<V>)
      requires AvlInvariant() && At(c, t) && t.Branch? && t.node == current && t.left.Branch? && t.right.Branch?
      modifies this, Repr
      ensures AvlInvariant() && Content(Abs) == old(Content(Abs)) - {t.key} && Repr == old(Repr) - {current}
    {
      var pred, ci, q := Predecessor(current, c, t);
      ExchangedBalance(c, t, ci, q);
      ExchangedOrder(c, t, ci, q);
      NodeSwap(current, pred, c, t, ci, q);
      ghost var e := BelowSwap(c, t, ci, q);
      NodeFacts(e, SwappedLow(t, q));
      var parent := current.parent;
      var diff: int;
      if parent.left == current {
        diff := 1;
      } else {
        diff := -1;
      }
      RemoveSpliced(parent, current, current.left, diff, e, SwappedLow(t, q));
    }
  }
}
