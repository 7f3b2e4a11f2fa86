/**
 * What remove does to the tree as a value. A node with at most one child is spliced out: its
 * only child (or nothing) takes its place. A node with two children first trades places with
 * its in-order predecessor, each node keeping the balance of the place it moves to, and is then
 * spliced out from the predecessor's old place, where it has no right child. Either way the
 * whole tree loses exactly the removed entry, and the subtree that lost the node is one level
 * lower with the balances above it still describing the old height, which is the state the
 * removeFix walk starts from.
 */
module AvlRemove {
  import opened Entries
  import opened AvlNodes
  import opened AvlShapes
  import opened AvlOrder
  import opened AvlSwap

  // ---------------------------------------------------------------- splicing out

  /** Splicing out a node with at most one child: the entries lose exactly that node's entry. */
  lemma {:induction false} SpliceOrder<V>(c: Ctx<V>, t: Tree<V>)
    requires t.Branch? && (t.left.Empty? || t.right.Empty?) && Ordered(Plug(c, t))
    ensures Ordered(Plug(c, OnlyChild(t)))
    ensures Content(Plug(c, OnlyChild(t))) == Content(Plug(c, t)) - {t.key}
  {
    var s := OnlyChild(t);
    var x, y := CtxLeft(c) + Elems(t.left), Elems(t.right) + CtxRight(c);
    FocusElems(c, t);
    PlugElems(c, s);
    assert Elems(s) == Elems(t.left) + Elems(t.right);
    assert Elems(Plug(c, s)) == x + y;
    RemoveBetween(x, y, t.key, t.value);
  }

  /**
   * Splicing out a node with at most one child from an AVL tree: the only child is an AVL tree
   * one level lower than the node's subtree, whose height the path above still describes.
   */
  lemma {:induction false} SpliceBalance<V>(c: Ctx<V>, t: Tree<V>)
    requires t.Branch? && (t.left.Empty? || t.right.Empty?) && Balanced(Plug(c, t))
    ensures Balanced(OnlyChild(t)) && CtxBal(c, Height(OnlyChild(t)) + 1)
  {
    BalancedPlug(c, t);
  }

  // ---------------------------------------------------------------- the predecessor

  /** The entries of a subtree whose right spine ends in q with no right child: q's entry comes last. */
  lemma {:induction false} SpineEnd<V>(ci: Ctx<V>, q: Tree<V>)
    requires RightSpine(ci) && q.Branch? && q.right.Empty?
    ensures Elems(Plug(ci, q)) == CtxLeft(ci) + (Elems(q.left) + [(q.key, q.value)])
  {
    PlugElems(ci, q);
    RightSpineNoRight(ci);
    assert Elems(q) == Elems(q.left) + [(q.key, q.value)];
  }

  /**
   * The entries around a node t whose left subtree ends, along its right spine, in q with no
   * right child: q's entry comes right before t's.
   */
  lemma {:induction false} PredecessorElems<V>(c: Ctx<V>, t: Tree<V>, ci: Ctx<V>, q: Tree<V>)
    requires t.Branch? && t.left == Plug(ci, q) && RightSpine(ci) && q.Branch? && q.right.Empty?
    ensures Elems(Plug(c, t)) ==
      (CtxLeft(c) + CtxLeft(ci) + Elems(q.left)) + [(q.key, q.value)] + ([(t.key, t.value)] + (Elems(t.right) + CtxRight(c)))
  {
    SpineEnd(ci, q);
    FocusElems(c, t);
    Regroup(CtxLeft(c), CtxLeft(ci), Elems(q.left), [(q.key, q.value)], [(t.key, t.value)], Elems(t.right) + CtxRight(c));
  }

  /**
   * In a binary search tree, the entry at the end of the right spine of t's left subtree holds
   * the largest key of the whole tree below t's key.
   */
  lemma {:induction false} PredecessorLargest<V>(c: Ctx<V>, t: Tree<V>, ci: Ctx<V>, q: Tree<V>)
    requires t.Branch? && t.left == Plug(ci, q) && RightSpine(ci) && q.Branch? && q.right.Empty?
    requires Ordered(Plug(c, t))
    ensures q.key < t.key && q.key in Content(Plug(c, t)) && Content(Plug(c, t))[q.key] == q.value
    ensures forall k | k in Content(Plug(c, t)) && k < t.key :: k <= q.key
  {
    var x, z := CtxLeft(c) + CtxLeft(ci) + Elems(q.left), Elems(t.right) + CtxRight(c);
    assert Elems(Plug(c, t)) == x + [(q.key, q.value)] + ([(t.key, t.value)] + z) by {
      PredecessorElems(c, t, ci, q);
    }
    LargestAround(Plug(c, t), x, z, q.key, q.value, t.key, t.value);
  }

  /** LargestBelow, for the entry of key k2 standing right after the entry of key k1. */
  lemma {:induction false} LargestAround<V>(tr: Tree<V>, x: seq<(int, V)>, z: seq<(int, V)>, k1: int, v1: V, k2: int, v2: V)
    requires Elems(tr) == x + [(k1, v1)] + ([(k2, v2)] + z) && Ordered(tr)
    ensures k1 < k2 && k1 in Content(tr) && Content(tr)[k1] == v1
    ensures forall k | k in Content(tr) && k < k2 :: k <= k1
  {
    var s, y := Elems(tr), [(k2, v2)] + z;
    assert y != [] && y[0].0 == k2;
    LargestBelow(s, x, y, k1, v1, k2);
  }

  // ---------------------------------------------------------------- the exchange with the predecessor

  /** The removed node at the predecessor's old place after the exchange: no right child, the predecessor's balance. */
  function SwappedLow<V>(t: Tree<V>, q: Tree<V>): (x: Tree<V>)
    requires t.Branch? && q.Branch?
    ensures x.Branch? && x.right.Empty? && Height(x) == Height(q.left) + 1
  {
    Branch(q.left, t.node, t.key, t.value, q.bal, Empty)
  }

  /** The predecessor at the removed node's old place after the exchange, with that place's balance. */
  function SwappedTop<V>(t: Tree<V>, ci: Ctx<V>, q: Tree<V>): Tree<V>
    requires t.Branch? && q.Branch?
  {
    Branch(Plug(ci, SwappedLow(t, q)), q.node, q.key, q.value, t.bal, t.right)
  }

  /** The path from the removed node, at its new place, up to the root. */
  function BelowSwap<V>(c: Ctx<V>, t: Tree<V>, ci: Ctx<V>, q: Tree<V>): (e: Ctx<V>)
    requires t.Branch? && q.Branch?
    ensures e.Hole? && Plug(e, SwappedLow(t, q)) == Plug(c, SwappedTop(t, ci, q))
  {
    PlugAppend(ci, DownCtx(c, SwappedTop(t, ci, q), true), SwappedLow(t, q));
    Append(ci, DownCtx(c, SwappedTop(t, ci, q), true))
  }

  /** Subtrees of equal height plugged into the same context give trees of equal height. */
  lemma {:induction false} PlugHeight<V>(c: Ctx<V>, a: Tree<V>, b: Tree<V>)
    requires Height(a) == Height(b)
    ensures Height(Plug(c, a)) == Height(Plug(c, b))
    decreases c
  {
    if c.Hole? {
      PlugHeight(c.up, Attach(c, a), Attach(c, b));
    }
  }

  /**
   * The exchange of an AVL tree's node with its predecessor, balances following their places,
   * leaves an AVL tree: the shape and the balances are those before. The two balances
   * exchanged fit in 8 bits.
   */
  lemma {:induction false} ExchangedBalance<V>(c: Ctx<V>, t: Tree<V>, ci: Ctx<V>, q: Tree<V>)
    requires PredecessorAt(c, t, ci, q) && Balanced(Plug(c, t))
    ensures -1 <= t.bal <= 1 && -1 <= q.bal <= 1
    ensures Balanced(Plug(c, SwappedTop(t, ci, q)))
  {
    var x, t2 := SwappedLow(t, q), SwappedTop(t, ci, q);
    BalancedPlug(c, t);
    BalancedPlug(ci, q);
    BalancedPlug(ci, x);
    PlugHeight(ci, x, q);
    assert Balanced(t2) && Height(t2) == Height(t);
    BalancedPlug(c, t2);
  }

  /**
   * Removing the node after the exchange with its predecessor: the entries of the whole tree
   * lose exactly the removed node's entry.
   */
  lemma {:induction false} ExchangedOrder<V>(c: Ctx<V>, t: Tree<V>, ci: Ctx<V>, q: Tree<V>)
    requires PredecessorAt(c, t, ci, q) && Ordered(Plug(c, t))
    ensures Ordered(Plug(BelowSwap(c, t, ci, q), q.left))
    ensures Content(Plug(BelowSwap(c, t, ci, q), q.left)) == Content(Plug(c, t)) - {t.key}
  {
    var x := CtxLeft(c) + CtxLeft(ci) + Elems(q.left) + [(q.key, q.value)];
    var y := Elems(t.right) + CtxRight(c);
    PredecessorElems(c, t, ci, q);
    assert Elems(Plug(c, t)) == x + [(t.key, t.value)] + y;
    ExchangedElems(c, t, ci, q);
    RemoveBetween(x, y, t.key, t.value);
  }

  /** The entries of the tree once the removed node has left the predecessor's old place. */
  lemma {:induction false} ExchangedElems<V>(c: Ctx<V>, t: Tree<V>, ci: Ctx<V>, q: Tree<V>)
    requires PredecessorAt(c, t, ci, q)
    ensures Elems(Plug(BelowSwap(c, t, ci, q), q.left)) ==
      (CtxLeft(c) + CtxLeft(ci) + Elems(q.left) + [(q.key, q.value)]) + (Elems(t.right) + CtxRight(c))
  {
    var e := BelowSwap(c, t, ci, q);
    RightSpineNoRight(ci);
    PlugElems(e, q.left);
    AppendCtxLeftRight(ci, DownCtx(c, SwappedTop(t, ci, q), true));
  }
}
