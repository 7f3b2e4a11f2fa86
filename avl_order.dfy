/**
 * The binary-search-tree ordering seen from a focus: the entries before and after the hole of a
 * context, the bounds a search for a key keeps while it descends, and how the entries change
 * when insert overwrites a value or hangs a new leaf, and when remove splices a node out.
 */
module AvlOrder {
  import opened Entries
  import opened AvlNodes
  import opened AvlShapes

  /** Every entry before the hole of c is below k and every entry after it is above k. */
  ghost predicate Bounded<V>(c: Ctx<V>, k: int)
  {
    AllBelow(CtxLeft(c), k) && AllAbove(CtxRight(c), k)
  }

  /** The entries of the whole tree around the top node of t. */
  lemma {:induction false} FocusElems<V>(c: Ctx<V>, t: Tree<V>)
    requires t.Branch?
    ensures Elems(Plug(c, t)) == (CtxLeft(c) + Elems(t.left)) + [(t.key, t.value)] + (Elems(t.right) + CtxRight(c))
  {
    PlugElems(c, t);
  }

  /** The entries of the whole tree when the hole is empty. */
  lemma {:induction false} HoleElems<V>(c: Ctx<V>)
    ensures Elems(Plug(c, Empty)) == CtxLeft(c) + CtxRight(c)
  {
    PlugElems(c, Empty);
  }

  /** The entry of the top node of t in the whole tree. */
  lemma {:induction false} KeyAtFocus<V>(c: Ctx<V>, t: Tree<V>)
    requires t.Branch? && Ordered(Plug(c, t))
    ensures t.key in Content(Plug(c, t)) && Content(Plug(c, t))[t.key] == t.value
  {
    FocusElems(c, t);
    var x, y := CtxLeft(c) + Elems(t.left), Elems(t.right) + CtxRight(c);
    SplitBounds(x, y, t.key, t.value);
    MissingKey(y, t.key);
    ToMapMiddle(x, y, t.key, t.value);
  }

  /**
   * A search for k that does not meet k at t goes left when k is below t's key and right
   * otherwise, and keeps its bounds.
   */
  lemma {:induction false} DescendBounded<V>(c: Ctx<V>, t: Tree<V>, k: int)
    requires t.Branch? && Ordered(Plug(c, t)) && Bounded(c, k) && k != t.key
    ensures Bounded(DownCtx(c, t, k < t.key), k)
  {
    FocusElems(c, t);
    var x, y := CtxLeft(c) + Elems(t.left), Elems(t.right) + CtxRight(c);
    SplitBounds(x, y, t.key, t.value);
    var d := DownCtx(c, t, k < t.key);
    if k < t.key {
      assert CtxRight(d) == [(t.key, t.value)] + y;
      forall i | 0 <= i < |CtxRight(d)| ensures k < CtxRight(d)[i].0 {
        if i > 0 {
          assert CtxRight(d)[i] == y[i - 1];
        }
      }
    } else {
      assert CtxLeft(d) == x[..|CtxLeft(c)|] + x[|CtxLeft(c)|..] + [(t.key, t.value)];
      assert CtxLeft(d) == x + [(t.key, t.value)];
      forall i | 0 <= i < |CtxLeft(d)| ensures CtxLeft(d)[i].0 < k {
        if i < |x| {
          assert CtxLeft(d)[i] == x[i];
        }
      }
    }
  }

  /** A search that reaches an empty subtree within its bounds has shown that k is absent. */
  lemma {:induction false} MissingAtEmpty<V>(c: Ctx<V>, k: int)
    requires Bounded(c, k)
    ensures k !in Content(Plug(c, Empty))
  {
    HoleElems(c);
    var s := Elems(Plug(c, Empty));
    forall i | 0 <= i < |s| ensures s[i].0 != k {
      if i < |CtxLeft(c)| {
        assert s[i] == CtxLeft(c)[i];
      } else {
        assert s[i] == CtxRight(c)[i - |CtxLeft(c)|];
      }
    }
    MissingKey(s, k);
  }

  /** Overwriting the value of the top node of t: the map entry of its key changes, nothing else. */
  lemma {:induction false} OverwriteAt<V>(c: Ctx<V>, t: Tree<V>, v: V)
    requires t.Branch? && Ordered(Plug(c, t))
    ensures Ordered(Plug(c, t.(value := v)))
    ensures Content(Plug(c, t.(value := v))) == Content(Plug(c, t))[t.key := v]
  {
    FocusElems(c, t);
    FocusElems(c, t.(value := v));
    var x, y := CtxLeft(c) + Elems(t.left), Elems(t.right) + CtxRight(c);
    Overwrite(x, y, t.key, t.value, v);
  }

  /** a and b have the same nodes, keys, balances and links; only values may differ. */
  ghost predicate SameShape<V>(a: Tree<V>, b: Tree<V>)
  {
    (a.Empty? && b.Empty?) ||
    (a.Branch? && b.Branch? && a.node == b.node && a.key == b.key && a.bal == b.bal &&
     SameShape(a.left, b.left) && SameShape(a.right, b.right))
  }

  lemma {:induction false} SameShapeRefl<V>(t: Tree<V>)
    ensures SameShape(t, t)
  {
    if t.Branch? {
      SameShapeRefl(t.left);
      SameShapeRefl(t.right);
    }
  }

  /** Subtrees of the same shape plugged into one context give trees of the same shape. */
  lemma {:induction false} PlugSameShape<V>(c: Ctx<V>, a: Tree<V>, b: Tree<V>)
    requires SameShape(a, b)
    ensures SameShape(Plug(c, a), Plug(c, b))
    decreases c
  {
    if c.Hole? {
      SameShapeRefl(c.sib);
      PlugSameShape(c.up, Attach(c, a), Attach(c, b));
    }
  }

  /** Overwriting the value of the top node of t keeps the shape of the whole tree. */
  lemma {:induction false} OverwriteShape<V>(c: Ctx<V>, t: Tree<V>, v: V)
    requires t.Branch?
    ensures SameShape(Plug(c, t.(value := v)), Plug(c, t))
  {
    SameShapeRefl(t.left);
    SameShapeRefl(t.right);
    PlugSameShape(c, t.(value := v), t);
  }

  /** A new entry put into an empty subtree within the bounds of its key. */
  lemma {:induction false} InsertAtEmpty<V>(c: Ctx<V>, u: Tree<V>)
    requires u.Branch? && u.left.Empty? && u.right.Empty?
    requires Ordered(Plug(c, Empty)) && Bounded(c, u.key)
    ensures Ordered(Plug(c, u))
    ensures Content(Plug(c, u)) == Content(Plug(c, Empty))[u.key := u.value]
  {
    HoleElems(c);
    FocusElems(c, u);
    assert CtxLeft(c) + Elems(u.left) == CtxLeft(c) && Elems(u.right) + CtxRight(c) == CtxRight(c);
    InsertBetween(CtxLeft(c), CtxRight(c), u.key, u.value);
  }

  /** A new leaf grafted where the search for its key fell off the tree: the key gets the value. */
  lemma {:induction false} GraftOrder<V>(c: Ctx<V>, t: Tree<V>, left: bool, n: Node<V>, k: int, v: V)
    requires t.Branch? && Child(t, left).Empty? && Ordered(Plug(c, t)) && Bounded(DownCtx(c, t, left), k)
    ensures Ordered(Plug(c, Graft(t, left, n, k, v)))
    ensures Content(Plug(c, Graft(t, left, n, k, v))) == Content(Plug(c, t))[k := v]
  {
    var d := DownCtx(c, t, left);
    assert Plug(d, Empty) == Plug(c, t);
    assert Plug(d, Branch(Empty, n, k, v, 0, Empty)) == Plug(c, Graft(t, left, n, k, v));
    InsertAtEmpty(d, Branch(Empty, n, k, v, 0, Empty));
  }
}
