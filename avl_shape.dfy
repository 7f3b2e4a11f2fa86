/**
 * Ghost shapes of a pointer-linked AVL tree. A `Tree` is the abstract value of a subtree:
 * each `Branch` names the heap node that stands there and a snapshot of that node's key,
 * value and balance field. A `Ctx` is the path from a subtree up to the root (a zipper):
 * each `Hole` records the ancestor node, on which side the subtree hangs, and the sibling.
 * `Snap` lists, for every node of a tree, the field values the heap must hold for it; the
 * heap holds a tree when `Heap`, its fields read as records, equals the tree's snapshot.
 */
module AvlShapes {
  import opened Entries
  import opened AvlNodes

  datatype Tree<V> =
    | Empty
    | Branch(left: Tree<V>, node: Node<V>, key: int, value: V, bal: int, right: Tree<V>)

  datatype Ctx<V> =
    | Top
    | Hole(up: Ctx<V>, holeLeft: bool, node: Node<V>, key: int, value: V, bal: int, sib: Tree<V>)

  function Max(a: int, b: int): int
  {
    if a < b then b else a
  }

  /** The pointer the parent (or root_) holds for this subtree. */
  function TopNode<V>(t: Tree<V>): Node?<V>
  {
    if t.Empty? then null else t.node
  }

  /** Height as the number of nodes on the longest downward path. */
  function Height<V>(t: Tree<V>): nat
  {
    if t.Empty? then 0 else 1 + Max(Height(t.left), Height(t.right))
  }

  /** The AVL invariant: every balance field equals height(right) - height(left) and lies in [-1, 1]. */
  ghost predicate Balanced<V>(t: Tree<V>)
  {
    t.Branch? ==>
      t.bal == Height(t.right) - Height(t.left) && -1 <= t.bal <= 1 &&
      Balanced(t.left) && Balanced(t.right)
  }

  /** The in-order sequence of (key, value) entries. */
  ghost function Elems<V>(t: Tree<V>): seq<(int, V)>
  {
    if t.Empty? then [] else Elems(t.left) + [(t.key, t.value)] + Elems(t.right)
  }

  /** The binary-search-tree ordering: in-order keys strictly increase. */
  ghost predicate Ordered<V>(t: Tree<V>)
  {
    Sorted(Elems(t))
  }

  /** The key-to-value map the tree stores. */
  ghost function Content<V>(t: Tree<V>): map<int, V>
  {
    ToMap(Elems(t))
  }

  ghost function Nodes<V>(t: Tree<V>): set<Node<V>>
  {
    if t.Empty? then {} else Nodes(t.left) + {t.node} + Nodes(t.right)
  }

  /** No heap node stands at two places of the tree. */
  ghost predicate Distinct<V>(t: Tree<V>)
  {
    t.Branch? ==>
      t.node !in Nodes(t.left) && t.node !in Nodes(t.right) && Nodes(t.left) !! Nodes(t.right) &&
      Distinct(t.left) && Distinct(t.right)
  }

  // ---------------------------------------------------------------- contexts

  ghost function CtxNodes<V>(c: Ctx<V>): set<Node<V>>
  {
    if c.Top? then {} else CtxNodes(c.up) + {c.node} + Nodes(c.sib)
  }

  ghost predicate DistinctCtx<V>(c: Ctx<V>)
  {
    c.Hole? ==>
      DistinctCtx(c.up) && Distinct(c.sib) && c.node !in Nodes(c.sib) &&
      CtxNodes(c.up) !! ({c.node} + Nodes(c.sib))
  }

  /** The parent of the subtree the context surrounds (null at the root). */
  function CtxNode<V>(c: Ctx<V>): Node?<V>
  {
    if c.Top? then null else c.node
  }

  /** The subtree rooted at the innermost ancestor, with t in the hole. */
  function Attach<V>(c: Ctx<V>, t: Tree<V>): (r: Tree<V>)
    requires c.Hole?
    ensures r.Branch? && r.node == c.node
  {
    if c.holeLeft then Branch(t, c.node, c.key, c.value, c.bal, c.sib)
    else Branch(c.sib, c.node, c.key, c.value, c.bal, t)
  }

  /** The child of t on the given side. */
  function Child<V>(t: Tree<V>, left: bool): Tree<V>
    requires t.Branch?
  {
    if left then t.left else t.right
  }

  /** The subtree t with a new leaf (node n, key k, value v, balance 0) in place of its child on the given side. */
  function Graft<V>(t: Tree<V>, left: bool, n: Node<V>, k: int, v: V): (u: Tree<V>)
    requires t.Branch?
    ensures u.Branch? && u.node == t.node
  {
    var leaf := Branch(Empty, n, k, v, 0, Empty);
    if left then t.(left := leaf) else t.(right := leaf)
  }

  /** The context of that child, one step below c. */
  function DownCtx<V>(c: Ctx<V>, t: Tree<V>, left: bool): Ctx<V>
    requires t.Branch?
  {
    Hole(c, left, t.node, t.key, t.value, t.bal, if left then t.right else t.left)
  }

  /** The node at the top of the whole tree, for a context that is not empty. */
  function CtxTop<V>(c: Ctx<V>): Node<V>
    requires c.Hole?
  {
    if c.up.Top? then c.node else CtxTop(c.up)
  }

  /** The whole tree obtained by putting t in the hole of c. */
  function Plug<V>(c: Ctx<V>, t: Tree<V>): Tree<V>
  {
    if c.Top? then t else Plug(c.up, Attach(c, t))
  }

  /** The context `inner` (relative to a subtree) continued by `outer` (around that subtree). */
  function Append<V>(inner: Ctx<V>, outer: Ctx<V>): Ctx<V>
  {
    if inner.Top? then outer else inner.(up := Append(inner.up, outer))
  }

  /** Entries of the tree that precede the hole. */
  ghost function CtxLeft<V>(c: Ctx<V>): seq<(int, V)>
  {
    if c.Top? then []
    else if c.holeLeft then CtxLeft(c.up)
    else CtxLeft(c.up) + Elems(c.sib) + [(c.key, c.value)]
  }

  /** Entries of the tree that follow the hole. */
  ghost function CtxRight<V>(c: Ctx<V>): seq<(int, V)>
  {
    if c.Top? then []
    else if c.holeLeft then [(c.key, c.value)] + Elems(c.sib) + CtxRight(c.up)
    else CtxRight(c.up)
  }

  /**
   * The ancestors' balances are right when the subtree in the hole has height h.
   * While a repair walk climbs, h is the height the subtree had before the update.
   */
  ghost predicate CtxBal<V>(c: Ctx<V>, h: int)
  {
    c.Hole? ==>
      Balanced(c.sib) &&
      c.bal == (if c.holeLeft then Height(c.sib) - h else h - Height(c.sib)) &&
      -1 <= c.bal <= 1 &&
      CtxBal(c.up, 1 + Max(h, Height(c.sib)))
  }

  /** The subtree that takes the place of a node with at most one child when that node is spliced out. */
  function OnlyChild<V>(t: Tree<V>): Tree<V>
    requires t.Branch?
  {
    if t.right.Empty? then t.left else t.right
  }

  /** A path that only ever goes right: the hole is the rightmost position. */
  ghost predicate RightSpine<V>(c: Ctx<V>)
  {
    c.Hole? ==> !c.holeLeft && RightSpine(c.up)
  }

  // ---------------------------------------------------------------- lemmas about contexts

  lemma {:induction false} PlugAppend<V>(inner: Ctx<V>, outer: Ctx<V>, t: Tree<V>)
    ensures Plug(Append(inner, outer), t) == Plug(outer, Plug(inner, t))
    decreases inner
  {
    if inner.Hole? {
      PlugAppend(inner.up, outer, Attach(inner, t));
    }
  }

  lemma {:induction false} PlugTop<V>(c: Ctx<V>, t: Tree<V>)
    ensures TopNode(Plug(c, t)) == if c.Top? then TopNode(t) else CtxTop(c)
    decreases c
  {
    if c.Hole? {
      PlugTop(c.up, Attach(c, t));
    }
  }

  lemma {:induction false} PlugElems<V>(c: Ctx<V>, t: Tree<V>)
    ensures Elems(Plug(c, t)) == CtxLeft(c) + Elems(t) + CtxRight(c)
    decreases c
  {
    if c.Hole? {
      PlugElems(c.up, Attach(c, t));
    }
  }

  lemma {:induction false} PlugNodes<V>(c: Ctx<V>, t: Tree<V>)
    ensures Nodes(Plug(c, t)) == CtxNodes(c) + Nodes(t)
    decreases c
  {
    if c.Hole? {
      PlugNodes(c.up, Attach(c, t));
    }
  }

  /** The whole tree is balanced exactly when the subtree is and the path agrees with its height. */
  lemma {:induction false} BalancedPlug<V>(c: Ctx<V>, t: Tree<V>)
    ensures Balanced(Plug(c, t)) <==> Balanced(t) && CtxBal(c, Height(t))
    decreases c
  {
    if c.Hole? {
      BalancedPlug(c.up, Attach(c, t));
    }
  }

  lemma {:induction false} AppendCtxLeftRight<V>(inner: Ctx<V>, outer: Ctx<V>)
    ensures CtxLeft(Append(inner, outer)) == CtxLeft(outer) + CtxLeft(inner)
    ensures CtxRight(Append(inner, outer)) == CtxRight(inner) + CtxRight(outer)
    decreases inner
  {
    if inner.Hole? {
      AppendCtxLeftRight(inner.up, outer);
    }
  }

  lemma {:induction false} RightSpineNoRight<V>(c: Ctx<V>)
    requires RightSpine(c)
    ensures CtxRight(c) == []
    decreases c
  {
    if c.Hole? {
      RightSpineNoRight(c.up);
    }
  }

  // ---------------------------------------------------------------- heap snapshots

  /** The fields of one node as the tree prescribes them. */
  datatype Rec<V> = Rec(parent: Node?<V>, left: Node?<V>, right: Node?<V>, key: int, value: V, bal: int)

  /** The fields of the node at the top of t, whose parent is p. */
  function RecOf<V>(t: Tree<V>, p: Node?<V>): Rec<V>
    requires t.Branch?
  {
    Rec(p, TopNode(t.left), TopNode(t.right), t.key, t.value, t.bal)
  }

  /** The fields of every node of t, whose top node hangs below p. */
  ghost function Snap<V>(t: Tree<V>, p: Node?<V>): map<Node<V>, Rec<V>>
  {
    if t.Empty? then map[] else Snap(t.left, t.node) + Snap(t.right, t.node) + map[t.node := RecOf(t, p)]
  }

  /** The fields of the innermost node of c when the subtree in the hole has top node below. */
  function CtxRec<V>(c: Ctx<V>, below: Node?<V>): Rec<V>
    requires c.Hole?
  {
    Rec(CtxNode(c.up),
        if c.holeLeft then below else TopNode(c.sib),
        if c.holeLeft then TopNode(c.sib) else below,
        c.key, c.value, c.bal)
  }

  /** The fields of every node of the path and of its siblings. */
  ghost function CtxSnap<V>(c: Ctx<V>, below: Node?<V>): map<Node<V>, Rec<V>>
  {
    if c.Top? then map[] else CtxSnap(c.up, c.node) + Snap(c.sib, c.node) + map[c.node := CtxRec(c, below)]
  }

  /** The fields the heap holds for the nodes of s, read as records. */
  ghost function Heap<V>(s: set<Node<V>>): map<Node<V>, Rec<V>>
    reads s
  {
    map n | n in s :: Rec(n.parent, n.left, n.right, n.key, n.value, n.balance)
  }

  lemma {:induction false} SnapKeys<V>(t: Tree<V>, p: Node?<V>)
    ensures Snap(t, p).Keys == Nodes(t)
  {
    if t.Branch? {
      SnapKeys(t.left, t.node);
      SnapKeys(t.right, t.node);
    }
  }

  lemma {:induction false} CtxSnapKeys<V>(c: Ctx<V>, below: Node?<V>)
    ensures CtxSnap(c, below).Keys == CtxNodes(c)
  {
    if c.Hole? {
      CtxSnapKeys(c.up, c.node);
      SnapKeys(c.sib, c.node);
    }
  }

  /** In a tree whose nodes are distinct, the entry of the top node is its own record. */
  lemma {:induction false} SnapTop<V>(t: Tree<V>, p: Node?<V>)
    requires t.Branch?
    ensures t.node in Snap(t, p) && Snap(t, p)[t.node] == RecOf(t, p)
  {
  }

  /** A map disjoint from three others can be moved from the front of a union to its end. */
  lemma {:induction false} MoveLastFront<K, W>(x: map<K, W>, y: map<K, W>, z: map<K, W>, w: map<K, W>)
    requires w.Keys !! (x.Keys + y.Keys + z.Keys)
    ensures x + (w + y + z) == x + y + z + w
  {
  }

  /** A map disjoint from three others can be moved from the middle of a union to its end. */
  lemma {:induction false} MoveLastMiddle<K, W>(x: map<K, W>, y: map<K, W>, z: map<K, W>, w: map<K, W>)
    requires w.Keys !! (x.Keys + y.Keys + z.Keys)
    ensures x + (y + w + z) == x + y + z + w
  {
  }

  /** The whole tree's snapshot splits into the path's and the subtree's. */
  lemma {:induction false} SnapPlug<V>(c: Ctx<V>, t: Tree<V>)
    requires DistinctCtx(c) && Distinct(t) && CtxNodes(c) !! Nodes(t)
    ensures Snap(Plug(c, t), null) == CtxSnap(c, TopNode(t)) + Snap(t, CtxNode(c))
    decreases c
  {
    if c.Hole? {
      var a := Attach(c, t);
      SnapKeys(t, c.node);
      SnapKeys(c.sib, c.node);
      CtxSnapKeys(c.up, c.node);
      assert Distinct(a) && CtxNodes(c.up) !! Nodes(a) by {
        assert Nodes(a) == Nodes(t) + {c.node} + Nodes(c.sib);
      }
      SnapPlug(c.up, a);
      var up, sib, mid, low := CtxSnap(c.up, c.node), Snap(c.sib, c.node), map[c.node := CtxRec(c, TopNode(t))], Snap(t, c.node);
      assert RecOf(a, CtxNode(c.up)) == CtxRec(c, TopNode(t));
      assert CtxNodes(c) == CtxNodes(c.up) + {c.node} + Nodes(c.sib);
      if c.holeLeft {
        assert Snap(a, CtxNode(c.up)) == low + sib + mid;
        MoveLastFront(up, sib, mid, low);
      } else {
        assert Snap(a, CtxNode(c.up)) == sib + low + mid;
        MoveLastMiddle(up, sib, mid, low);
      }
    }
  }

  /** Where a tree is split into c and t, the entries of t's top node and of c's innermost node. */
  lemma {:induction false} SnapAt<V>(c: Ctx<V>, t: Tree<V>)
    requires DistinctCtx(c) && Distinct(t) && CtxNodes(c) !! Nodes(t)
    ensures t.Branch? ==> t.node in Snap(Plug(c, t), null) && Snap(Plug(c, t), null)[t.node] == RecOf(t, CtxNode(c))
    ensures c.Hole? ==> c.node in Snap(Plug(c, t), null) && Snap(Plug(c, t), null)[c.node] == CtxRec(c, TopNode(t))
  {
    SnapPlug(c, t);
    SnapKeys(t, CtxNode(c));
    if c.Hole? {
      CtxSnapKeys(c.up, c.node);
      SnapKeys(c.sib, c.node);
      assert c.node in CtxSnap(c, TopNode(t));
    }
  }

  /** The nodes of a tree are distinct exactly when those of path and subtree are, and apart. */
  lemma {:induction false} DistinctPlug<V>(c: Ctx<V>, t: Tree<V>)
    ensures Distinct(Plug(c, t)) <==> DistinctCtx(c) && Distinct(t) && CtxNodes(c) !! Nodes(t)
    decreases c
  {
    if c.Hole? {
      var a := Attach(c, t);
      DistinctPlug(c.up, a);
      assert Nodes(a) == Nodes(t) + {c.node} + Nodes(c.sib);
    }
  }
}
