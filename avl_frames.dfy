/**
 * How the heap snapshot of a tree changes under each edit the AVL methods make: only the
 * entries of the nodes whose fields the edit writes differ; every other node keeps its entry.
 */
module AvlFrames {
  import opened AvlNodes
  import opened AvlShapes
  import opened AvlRebalance

  /** Hanging a subtree below another parent changes only its top node's entry. */
  lemma {:induction false} SnapReparent<V>(t: Tree<V>, x: Node?<V>, y: Node?<V>)
    ensures t.Empty? ==> Snap(t, y) == Snap(t, x)
    ensures t.Branch? ==> Snap(t, y) == Snap(t, x)[t.node := RecOf(t, y)]
  {
  }

  /** Changing the subtree below a path changes only the innermost node's entry. */
  lemma {:induction false} CtxSnapBelow<V>(c: Ctx<V>, x: Node?<V>, y: Node?<V>)
    ensures c.Top? ==> CtxSnap(c, y) == CtxSnap(c, x)
    ensures c.Hole? ==> CtxSnap(c, y) == CtxSnap(c, x)[c.node := CtxRec(c, y)]
  {
  }

  /** In a tree whose nodes are distinct, the entry of a node is the one its own subtree gives it. */
  lemma {:induction false} SnapAtNode<V>(t: Tree<V>, up: Node?<V>, n: Node<V>)
    requires Distinct(t) && n in Nodes(t)
    ensures n in Snap(t, up)
    ensures n == t.node ==> Snap(t, up)[n] == RecOf(t, up)
    ensures n in Nodes(t.left) ==> n in Snap(t.left, t.node) && Snap(t, up)[n] == Snap(t.left, t.node)[n]
    ensures n in Nodes(t.right) ==> n in Snap(t.right, t.node) && Snap(t, up)[n] == Snap(t.right, t.node)[n]
  {
    SnapKeys(t.left, t.node);
    SnapKeys(t.right, t.node);
  }

  /** The entry of a node of Plug(c, t) is the one t gives it, or the one c gives it. */
  lemma {:induction false} SnapPlugAt<V>(c: Ctx<V>, t: Tree<V>, n: Node<V>)
    requires DistinctCtx(c) && Distinct(t) && CtxNodes(c) !! Nodes(t)
    ensures n in Snap(Plug(c, t), null) <==> n in CtxNodes(c) || n in Nodes(t)
    ensures n in Nodes(t) ==> n in Snap(t, CtxNode(c)) && Snap(Plug(c, t), null)[n] == Snap(t, CtxNode(c))[n]
    ensures n in CtxNodes(c) ==>
      n in CtxSnap(c, TopNode(t)) && Snap(Plug(c, t), null)[n] == CtxSnap(c, TopNode(t))[n]
  {
    SnapPlug(c, t);
    SnapKeys(t, CtxNode(c));
    CtxSnapKeys(c, TopNode(t));
  }

  /**
   * The record of node n after rotate(grandparent, parent, direction), given its record r
   * before, where greatgramp is grandparent's parent and inner is parent's child on the side
   * away from direction: exactly the writes of rotate.
   */
  function RelinkRec<V>(grandparent: Node<V>, parent: Node<V>, direction: bool, greatgramp: Node?<V>,
                        inner: Node?<V>, n: Node<V>, r: Rec<V>): Rec<V>
  {
    if n == parent then
      (if direction then r.(parent := greatgramp, right := grandparent) else r.(parent := greatgramp, left := grandparent))
    else if n == grandparent then
      (if direction then r.(parent := parent, left := inner) else r.(parent := parent, right := inner))
    else if n == inner then r.(parent := grandparent)
    else if n == greatgramp then
      (if r.left == grandparent then r.(left := parent) else r.(right := parent))
    else r
  }

  /** Every record of h after rotate's writes. */
  function RelinkAll<V>(h: map<Node<V>, Rec<V>>, grandparent: Node<V>, parent: Node<V>, direction: bool,
                        greatgramp: Node?<V>, inner: Node?<V>): map<Node<V>, Rec<V>>
  {
    map n | n in h :: RelinkRec(grandparent, parent, direction, greatgramp, inner, n, h[n])
  }

  /** RelinkRec for the rotation of subtree t, whose top node's parent is greatgramp. */
  function Relinked<V>(t: Tree<V>, direction: bool, greatgramp: Node?<V>, n: Node<V>, r: Rec<V>): Rec<V>
    requires t.Branch? && Child(t, direction).Branch?
  {
    var parent := Child(t, direction);
    RelinkRec(t.node, parent.node, direction, greatgramp, TopNode(Child(parent, !direction)), n, r)
  }

  /** On a subtree, the snapshot of the right rotation is the old one with rotate's writes applied. */
  lemma {:induction false} SnapRotateRightAt<V>(t: Tree<V>, up: Node?<V>, n: Node<V>)
    requires t.Branch? && t.left.Branch? && Distinct(t) && n in Nodes(t) && up !in Nodes(t)
    ensures n in Snap(t, up) && n in Snap(RotateRight(t), up)
    ensures Snap(RotateRight(t), up)[n] == Relinked(t, true, up, n, Snap(t, up)[n])
  {
    var p := t.left;
    if n == t.node || n == p.node {
      SnapRotateRightTop(t, up, n);
    } else if n in Nodes(p.right) {
      SnapRotateRightInner(t, up, n);
    } else {
      SnapRotateRightOuter(t, up, n);
    }
  }

  lemma {:induction false} SnapRotateRightTop<V>(t: Tree<V>, up: Node?<V>, n: Node<V>)
    requires t.Branch? && t.left.Branch? && Distinct(t) && n in Nodes(t) && up !in Nodes(t)
    requires n == t.node || n == t.left.node
    ensures n in Snap(t, up) && n in Snap(RotateRight(t), up)
    ensures Snap(RotateRight(t), up)[n] == Relinked(t, true, up, n, Snap(t, up)[n])
  {
    var p := t.left;
    var r := RotateRight(t);
    var low := r.right;
    var s, s' := Snap(t, up), Snap(r, up);
    assert low == Branch(p.right, t.node, t.key, t.value, t.bal, t.right);
    SnapAtNode(t, up, n);
    SnapAtNode(r, up, n);
    var want := Relinked(t, true, up, n, s[n]);
    assert Distinct(p) && Distinct(low);
    if n == p.node {
      SnapAtNode(p, t.node, n);
      assert s[n] == RecOf(p, t.node) && s'[n] == RecOf(r, up);
      assert want == s[n].(parent := up, right := t.node);
    } else {
      SnapAtNode(low, p.node, n);
      assert s[n] == RecOf(t, up) && s'[n] == RecOf(low, p.node);
      assert want == s[n].(parent := p.node, left := TopNode(p.right));
    }
  }

  lemma {:induction false} SnapRotateRightInner<V>(t: Tree<V>, up: Node?<V>, n: Node<V>)
    requires t.Branch? && t.left.Branch? && Distinct(t) && n in Nodes(t) && up !in Nodes(t)
    requires n in Nodes(t.left.right)
    ensures n in Snap(t, up) && n in Snap(RotateRight(t), up)
    ensures Snap(RotateRight(t), up)[n] == Relinked(t, true, up, n, Snap(t, up)[n])
  {
    var p := t.left;
    var r := RotateRight(t);
    var low := r.right;
    var s, s' := Snap(t, up), Snap(r, up);
    assert low == Branch(p.right, t.node, t.key, t.value, t.bal, t.right);
    SnapAtNode(t, up, n);
    SnapAtNode(r, up, n);
    var want := Relinked(t, true, up, n, s[n]);
    assert Distinct(p) && Distinct(low);
    SnapAtNode(p, t.node, n);
    SnapAtNode(low, p.node, n);
    SnapReparent(p.right, p.node, t.node);
    assert s'[n] == Snap(p.right, t.node)[n] && s[n] == Snap(p.right, p.node)[n];
  }

  lemma {:induction false} SnapRotateRightOuter<V>(t: Tree<V>, up: Node?<V>, n: Node<V>)
    requires t.Branch? && t.left.Branch? && Distinct(t) && n in Nodes(t) && up !in Nodes(t)
    requires n in Nodes(t.left.left) || n in Nodes(t.right)
    ensures n in Snap(t, up) && n in Snap(RotateRight(t), up)
    ensures Snap(RotateRight(t), up)[n] == Relinked(t, true, up, n, Snap(t, up)[n])
  {
    var p := t.left;
    var r := RotateRight(t);
    var low := r.right;
    var s, s' := Snap(t, up), Snap(r, up);
    assert low == Branch(p.right, t.node, t.key, t.value, t.bal, t.right);
    SnapAtNode(t, up, n);
    SnapAtNode(r, up, n);
    var want := Relinked(t, true, up, n, s[n]);
    assert Distinct(p) && Distinct(low);
    assert n != TopNode(p.right) && want == s[n];
    if n in Nodes(t.right) {
      SnapAtNode(low, p.node, n);
      assert s'[n] == Snap(t.right, t.node)[n] == s[n];
    } else {
      SnapAtNode(p, t.node, n);
      assert s'[n] == Snap(p.left, p.node)[n] == s[n];
    }
  }

  /** On a subtree, the snapshot of the left rotation is the old one with rotate's writes applied. */
  lemma {:induction false} SnapRotateLeftAt<V>(t: Tree<V>, up: Node?<V>, n: Node<V>)
    requires t.Branch? && t.right.Branch? && Distinct(t) && n in Nodes(t) && up !in Nodes(t)
    ensures n in Snap(t, up) && n in Snap(RotateLeft(t), up)
    ensures Snap(RotateLeft(t), up)[n] == Relinked(t, false, up, n, Snap(t, up)[n])
  {
    var p := t.right;
    if n == t.node || n == p.node {
      SnapRotateLeftTop(t, up, n);
    } else if n in Nodes(p.left) {
      SnapRotateLeftInner(t, up, n);
    } else {
      SnapRotateLeftOuter(t, up, n);
    }
  }

  lemma {:induction false} SnapRotateLeftTop<V>(t: Tree<V>, up: Node?<V>, n: Node<V>)
    requires t.Branch? && t.right.Branch? && Distinct(t) && n in Nodes(t) && up !in Nodes(t)
    requires n == t.node || n == t.right.node
    ensures n in Snap(t, up) && n in Snap(RotateLeft(t), up)
    ensures Snap(RotateLeft(t), up)[n] == Relinked(t, false, up, n, Snap(t, up)[n])
  {
    var p := t.right;
    var r := RotateLeft(t);
    var low := r.left;
    var s, s' := Snap(t, up), Snap(r, up);
    assert low == Branch(t.left, t.node, t.key, t.value, t.bal, p.left);
    SnapAtNode(t, up, n);
    SnapAtNode(r, up, n);
    var want := Relinked(t, false, up, n, s[n]);
    assert Distinct(p) && Distinct(low);
    if n == p.node {
      SnapAtNode(p, t.node, n);
      assert s[n] == RecOf(p, t.node) && s'[n] == RecOf(r, up);
      assert want == s[n].(parent := up, left := t.node);
    } else {
      SnapAtNode(low, p.node, n);
      assert s[n] == RecOf(t, up) && s'[n] == RecOf(low, p.node);
      assert want == s[n].(parent := p.node, right := TopNode(p.left));
    }
  }

  lemma {:induction false} SnapRotateLeftInner<V>(t: Tree<V>, up: Node?<V>, n: Node<V>)
    requires t.Branch? && t.right.Branch? && Distinct(t) && n in Nodes(t) && up !in Nodes(t)
    requires n in Nodes(t.right.left)
    ensures n in Snap(t, up) && n in Snap(RotateLeft(t), up)
    ensures Snap(RotateLeft(t), up)[n] == Relinked(t, false, up, n, Snap(t, up)[n])
  {
    var p := t.right;
    var r := RotateLeft(t);
    var low := r.left;
    var s, s' := Snap(t, up), Snap(r, up);
    assert low == Branch(t.left, t.node, t.key, t.value, t.bal, p.left);
    SnapAtNode(t, up, n);
    SnapAtNode(r, up, n);
    var want := Relinked(t, false, up, n, s[n]);
    assert Distinct(p) && Distinct(low);
    SnapAtNode(p, t.node, n);
    SnapAtNode(low, p.node, n);
    SnapReparent(p.left, p.node, t.node);
    assert s'[n] == Snap(p.left, t.node)[n] && s[n] == Snap(p.left, p.node)[n];
  }

  lemma {:induction false} SnapRotateLeftOuter<V>(t: Tree<V>, up: Node?<V>, n: Node<V>)
    requires t.Branch? && t.right.Branch? && Distinct(t) && n in Nodes(t) && up !in Nodes(t)
    requires n in Nodes(t.right.right) || n in Nodes(t.left)
    ensures n in Snap(t, up) && n in Snap(RotateLeft(t), up)
    ensures Snap(RotateLeft(t), up)[n] == Relinked(t, false, up, n, Snap(t, up)[n])
  {
    var p := t.right;
    var r := RotateLeft(t);
    var low := r.left;
    var s, s' := Snap(t, up), Snap(r, up);
    assert low == Branch(t.left, t.node, t.key, t.value, t.bal, p.left);
    SnapAtNode(t, up, n);
    SnapAtNode(r, up, n);
    var want := Relinked(t, false, up, n, s[n]);
    assert Distinct(p) && Distinct(low);
    assert n != TopNode(p.left) && want == s[n];
    if n in Nodes(t.left) {
      SnapAtNode(low, p.node, n);
      assert s'[n] == Snap(t.left, t.node)[n] == s[n];
    } else {
      SnapAtNode(p, t.node, n);
      assert s'[n] == Snap(p.right, p.node)[n] == s[n];
    }
  }

  /** In the whole tree, the snapshot after a rotation is the old one with rotate's writes applied. */
  lemma {:induction false} SnapRotatedAt<V>(c: Ctx<V>, t: Tree<V>, d: bool, n: Node<V>)
    requires t.Branch? && Child(t, d).Branch? && Distinct(Plug(c, t)) && n in Snap(Plug(c, t), null)
    ensures n in Snap(Plug(c, Rotated(t, d)), null)
    ensures Snap(Plug(c, Rotated(t, d)), null)[n] == Relinked(t, d, CtxNode(c), n, Snap(Plug(c, t), null)[n])
  {
    DistinctPlug(c, t);
    SnapPlugAt(c, t, n);
    if n in Nodes(t) {
      SnapRotatedInside(c, t, d, n);
    } else {
      SnapRotatedOutside(c, t, d, n);
    }
  }

  lemma {:induction false} SnapRotatedInside<V>(c: Ctx<V>, t: Tree<V>, d: bool, n: Node<V>)
    requires t.Branch? && Child(t, d).Branch? && DistinctCtx(c) && Distinct(t) && CtxNodes(c) !! Nodes(t)
    requires n in Nodes(t)
    ensures n in Snap(Plug(c, t), null) && n in Snap(Plug(c, Rotated(t, d)), null)
    ensures Snap(Plug(c, Rotated(t, d)), null)[n] == Relinked(t, d, CtxNode(c), n, Snap(Plug(c, t), null)[n])
  {
    var r := Rotated(t, d);
    SnapPlugAt(c, t, n);
    SnapPlugAt(c, r, n);
    assert CtxNode(c) !in Nodes(t) by {
      if c.Hole? {
        assert c.node in CtxNodes(c);
      }
    }
    if d {
      SnapRotateRightAt(t, CtxNode(c), n);
    } else {
      SnapRotateLeftAt(t, CtxNode(c), n);
    }
  }

  lemma {:induction false} SnapRotatedOutside<V>(c: Ctx<V>, t: Tree<V>, d: bool, n: Node<V>)
    requires t.Branch? && Child(t, d).Branch? && DistinctCtx(c) && Distinct(t) && CtxNodes(c) !! Nodes(t)
    requires n in CtxNodes(c)
    ensures n in Snap(Plug(c, t), null) && n in Snap(Plug(c, Rotated(t, d)), null)
    ensures Snap(Plug(c, Rotated(t, d)), null)[n] == Relinked(t, d, CtxNode(c), n, Snap(Plug(c, t), null)[n])
  {
    var r := Rotated(t, d);
    var p := Child(t, d);
    SnapPlugAt(c, t, n);
    SnapPlugAt(c, r, n);
    assert Nodes(p) <= Nodes(t);
    assert n != t.node && n != p.node && n != TopNode(Child(p, !d));
    CtxSnapOther(c, t, r, n);
  }

  /** Outside the rotated subtree only the innermost node of the path changes, and only its link down. */
  lemma {:induction false} CtxSnapOther<V>(c: Ctx<V>, t: Tree<V>, r: Tree<V>, n: Node<V>)
    requires t.Branch? && r.Branch? && r.node != t.node && DistinctCtx(c) && Distinct(t) && CtxNodes(c) !! Nodes(t)
    requires n in CtxNodes(c)
    ensures n in CtxSnap(c, t.node) && n in CtxSnap(c, r.node)
    ensures c.Hole? && n == c.node ==> (CtxSnap(c, t.node)[n].left == t.node <==> c.holeLeft)
    ensures CtxSnap(c, r.node)[n] ==
      if c.Hole? && n == c.node then
        (if c.holeLeft then CtxSnap(c, t.node)[n].(left := r.node) else CtxSnap(c, t.node)[n].(right := r.node))
      else CtxSnap(c, t.node)[n]
  {
    CtxSnapKeys(c, t.node);
    CtxSnapKeys(c, r.node);
    CtxSnapBelow(c, t.node, r.node);
    if c.Hole? && n == c.node {
      assert CtxSnap(c, t.node)[n] == CtxRec(c, t.node);
      if c.sib.Branch? {
        assert c.sib.node in CtxNodes(c);
      }
    }
  }

  /** The snapshot after a rotation is the old snapshot with rotate's writes applied. */
  lemma {:induction false} SnapRotated<V>(c: Ctx<V>, t: Tree<V>, d: bool)
    requires t.Branch? && Child(t, d).Branch? && Distinct(Plug(c, t))
    ensures var p := Child(t, d);
      Snap(Plug(c, Rotated(t, d)), null) ==
      RelinkAll(Snap(Plug(c, t), null), t.node, p.node, d, CtxNode(c), TopNode(Child(p, !d)))
  {
    SnapRotatedKeys(c, t, d);
    SnapRotatedAll(c, t, d);
  }

  lemma {:induction false} SnapRotatedKeys<V>(c: Ctx<V>, t: Tree<V>, d: bool)
    requires t.Branch? && Child(t, d).Branch?
    ensures Snap(Plug(c, Rotated(t, d)), null).Keys == Snap(Plug(c, t), null).Keys
  {
    PlugNodes(c, t);
    PlugNodes(c, Rotated(t, d));
    SnapKeys(Plug(c, t), null);
    SnapKeys(Plug(c, Rotated(t, d)), null);
  }

  lemma {:induction false} SnapRotatedAll<V>(c: Ctx<V>, t: Tree<V>, d: bool)
    requires t.Branch? && Child(t, d).Branch? && Distinct(Plug(c, t))
    ensures forall n :: n in Snap(Plug(c, t), null) ==>
      n in Snap(Plug(c, Rotated(t, d)), null) &&
      Snap(Plug(c, Rotated(t, d)), null)[n] == Relinked(t, d, CtxNode(c), n, Snap(Plug(c, t), null)[n])
  {
    forall n | n in Snap(Plug(c, t), null)
      ensures n in Snap(Plug(c, Rotated(t, d)), null)
      ensures Snap(Plug(c, Rotated(t, d)), null)[n] == Relinked(t, d, CtxNode(c), n, Snap(Plug(c, t), null)[n])
    {
      SnapRotatedAt(c, t, d, n);
    }
  }

  /** A heap whose records are a tree's snapshot with rotate's writes applied holds the rotated tree. */
  lemma {:induction false} SnapRotatedHeap<V>(c: Ctx<V>, t: Tree<V>, d: bool, h0: map<Node<V>, Rec<V>>, h1: map<Node<V>, Rec<V>>)
    requires t.Branch? && Child(t, d).Branch? && Distinct(Plug(c, t))
    requires h0 == Snap(Plug(c, t), null)
    requires h1 == RelinkAll(h0, t.node, Child(t, d).node, d, CtxNode(c), TopNode(Child(Child(t, d), !d)))
    ensures h1 == Snap(Plug(c, Rotated(t, d)), null)
    ensures Distinct(Plug(c, Rotated(t, d)))
    ensures TopNode(Plug(c, Rotated(t, d))) == if c.Top? then Child(t, d).node else TopNode(Plug(c, t))
  {
    SnapRotated(c, t, d);
    DistinctPlug(c, t);
    DistinctPlug(c, Rotated(t, d));
    PlugTop(c, t);
    PlugTop(c, Rotated(t, d));
  }

  /** Changing the key, value or balance snapshot of a top node changes only its own record. */
  lemma {:induction false} SnapRetopLocal<V>(t: Tree<V>, u: Tree<V>, p: Node?<V>)
    requires t.Branch? && u.Branch? && u.node == t.node && u.left == t.left && u.right == t.right
    ensures Snap(u, p) == Snap(t, p)[t.node := RecOf(u, p)]
  {
  }

  /** An update of the right operand of a union is an update of the union. */
  lemma {:induction false} UnionUpdate<K, W>(x: map<K, W>, y: map<K, W>, k: K, w: W)
    ensures x + y[k := w] == (x + y)[k := w]
  {
  }

  /** The same, seen in the whole tree. */
  lemma {:induction false} SnapRetop<V>(c: Ctx<V>, t: Tree<V>, u: Tree<V>)
    requires t.Branch? && u.Branch? && u.node == t.node && u.left == t.left && u.right == t.right
    requires Distinct(Plug(c, t))
    ensures Snap(Plug(c, u), null) == Snap(Plug(c, t), null)[t.node := RecOf(u, CtxNode(c))]
    ensures Distinct(Plug(c, u)) && TopNode(Plug(c, u)) == TopNode(Plug(c, t))
  {
    DistinctPlug(c, t);
    assert Nodes(u) == Nodes(t);
    DistinctPlug(c, u);
    SnapPlug(c, t);
    SnapPlug(c, u);
    PlugTop(c, t);
    PlugTop(c, u);
    SnapRetopLocal(t, u, CtxNode(c));
    SnapTop(t, CtxNode(c));
    UnionUpdate(CtxSnap(c, TopNode(t)), Snap(t, CtxNode(c)), t.node, RecOf(u, CtxNode(c)));
  }

  /** A new key put before or after a map that does not hold it, with one more update. */
  lemma {:induction false} AddFront<K, W>(r: map<K, W>, a: K, x: W, y: W, n: K, l: W)
    requires n !in r && n != a
    ensures map[n := l] + r + map[a := y] == (map[] + r + map[a := x])[a := y][n := l]
    ensures r + map[n := l] + map[a := y] == (r + map[] + map[a := x])[a := y][n := l]
  {
  }

  /** Hanging a new leaf below the top node of t: that node's record changes and the leaf's is added. */
  lemma {:induction false} SnapGraftLocal<V>(t: Tree<V>, left: bool, n: Node<V>, k: int, v: V, p: Node?<V>)
    requires t.Branch? && Child(t, left).Empty? && n !in Nodes(t)
    ensures Snap(Graft(t, left, n, k, v), p) ==
      Snap(t, p)[t.node := RecOf(Graft(t, left, n, k, v), p)][n := Rec(t.node, null, null, k, v, 0)]
  {
    var g, r := Graft(t, left, n, k, v), Snap(Child(t, !left), t.node);
    var l := Rec(t.node, null, null, k, v, 0);
    SnapKeys(Child(t, !left), t.node);
    AddFront(r, t.node, RecOf(t, p), RecOf(g, p), n, l);
    assert Snap(Child(g, left), t.node) == map[n := l];
  }

  /** Hanging a new leaf keeps the nodes distinct and the top node, and adds the leaf's node. */
  lemma {:induction false} GraftNodes<V>(c: Ctx<V>, t: Tree<V>, left: bool, n: Node<V>, k: int, v: V)
    requires t.Branch? && Child(t, left).Empty? && Distinct(Plug(c, t)) && n !in Nodes(Plug(c, t))
    ensures DistinctCtx(c) && Distinct(t) && CtxNodes(c) !! Nodes(t)
    ensures var u := Graft(t, left, n, k, v);
      DistinctCtx(c) && Distinct(u) && CtxNodes(c) !! Nodes(u) &&
      Distinct(Plug(c, u)) && TopNode(Plug(c, u)) == TopNode(Plug(c, t)) &&
      Nodes(Plug(c, u)) == Nodes(Plug(c, t)) + {n}
  {
    var u := Graft(t, left, n, k, v);
    DistinctPlug(c, t);
    PlugNodes(c, t);
    PlugNodes(c, u);
    assert Nodes(u) == Nodes(t) + {n};
    DistinctPlug(c, u);
    PlugTop(c, t);
    PlugTop(c, u);
  }

  /** The record of the top node after a leaf is hung below it: only the link on that side differs. */
  lemma {:induction false} GraftRec<V>(t: Tree<V>, left: bool, n: Node<V>, k: int, v: V, q: Node?<V>)
    requires t.Branch?
    ensures RecOf(Graft(t, left, n, k, v), q) == if left then RecOf(t, q).(left := n) else RecOf(t, q).(right := n)
  {
  }

  /** The same, seen in the whole tree. */
  lemma {:induction false} SnapGraft<V>(c: Ctx<V>, t: Tree<V>, left: bool, n: Node<V>, k: int, v: V)
    requires t.Branch? && Child(t, left).Empty? && Distinct(Plug(c, t)) && n !in Nodes(Plug(c, t))
    ensures Snap(Plug(c, Graft(t, left, n, k, v)), null) ==
      Snap(Plug(c, t), null)[t.node := RecOf(Graft(t, left, n, k, v), CtxNode(c))][n := Rec(t.node, null, null, k, v, 0)]
    ensures Distinct(Plug(c, Graft(t, left, n, k, v)))
    ensures TopNode(Plug(c, Graft(t, left, n, k, v))) == TopNode(Plug(c, t))
    ensures Nodes(Plug(c, Graft(t, left, n, k, v))) == Nodes(Plug(c, t)) + {n}
  {
    var u := Graft(t, left, n, k, v);
    GraftNodes(c, t, left, n, k, v);
    PlugNodes(c, t);
    SnapPlug(c, t);
    SnapPlug(c, u);
    SnapGraftLocal(t, left, n, k, v, CtxNode(c));
    UnionUpdate(CtxSnap(c, TopNode(t)), Snap(t, CtxNode(c)), t.node, RecOf(u, CtxNode(c)));
    UnionUpdate(CtxSnap(c, TopNode(t)), Snap(t, CtxNode(c))[t.node := RecOf(u, CtxNode(c))], n, Rec(t.node, null, null, k, v, 0));
  }

  /** Two updates at different keys commute. */
  lemma {:induction false} UpdateSwap<K, W>(m: map<K, W>, a: K, x: W, b: K, y: W)
    requires a != b
    ensures m[a := x][b := y] == m[b := y][a := x]
  {
  }

  /** A heap whose records are a tree's snapshot with a leaf hung below t's top node holds the grown tree. */
  lemma {:induction false} GraftHeap<V>(c: Ctx<V>, t: Tree<V>, left: bool, n: Node<V>, k: int, v: V,
                     h0: map<Node<V>, Rec<V>>, h: map<Node<V>, Rec<V>>, h1: map<Node<V>, Rec<V>>)
    requires t.Branch? && Child(t, left).Empty? && Distinct(Plug(c, t)) && n !in Nodes(Plug(c, t))
    requires h0 == Snap(Plug(c, t), null) && t.node in h0 && h0[t.node] == RecOf(t, CtxNode(c))
    requires h == h0[n := Rec(t.node, null, null, k, v, 0)]
    requires h1 == h[t.node := if left then h[t.node].(left := n) else h[t.node].(right := n)]
    ensures h1 == Snap(Plug(c, Graft(t, left, n, k, v)), null)
    ensures Distinct(Plug(c, Graft(t, left, n, k, v)))
    ensures TopNode(Plug(c, Graft(t, left, n, k, v))) == TopNode(Plug(c, t))
  {
    SnapGraft(c, t, left, n, k, v);
    GraftRec(t, left, n, k, v, CtxNode(c));
    PlugNodes(c, t);
    assert n != t.node;
    UpdateSwap(h0, n, Rec(t.node, null, null, k, v, 0), t.node, RecOf(Graft(t, left, n, k, v), CtxNode(c)));
  }

  // ---------------------------------------------------------------- splicing out a node

  /**
   * The records after removeHelper's writes: n's parent p takes child on the side n hung on (or
   * child becomes the root when p is null), child takes p as its parent, and n leaves the heap.
   */
  ghost function SpliceWrites<V>(h: map<Node<V>, Rec<V>>, n: Node<V>, p: Node?<V>, child: Node?<V>): map<Node<V>, Rec<V>>
    requires (p == null || p in h) && (child == null || child in h)
  {
    var g1 := if p == null then h
              else if h[p].left == n then h[p := h[p].(left := child)]
              else h[p := h[p].(right := child)];
    var g2 := if child == null then g1 else g1[child := g1[child].(parent := p)];
    g2 - {n}
  }

  /** An update of the left operand of a union, at a key the right operand does not hold. */
  lemma {:induction false} UpdateUnionLeft<K, W>(x: map<K, W>, y: map<K, W>, k: K, w: W)
    requires k !in y
    ensures (x + y)[k := w] == x[k := w] + y
  {
  }

  /** A node with at most one child: its snapshot is its child's with its own record added. */
  lemma {:induction false} SnapSpliceLocal<V>(t: Tree<V>, p: Node?<V>)
    requires t.Branch? && (t.left.Empty? || t.right.Empty?)
    ensures Snap(t, p) == Snap(OnlyChild(t), t.node) + map[t.node := RecOf(t, p)]
  {
    if t.right.Empty? {
      assert Snap(t.left, t.node) + Snap(t.right, t.node) == Snap(t.left, t.node);
    } else {
      assert Snap(t.left, t.node) + Snap(t.right, t.node) == Snap(t.right, t.node);
    }
  }

  /** Where the nodes lie when the top node of t, which has at most one child, is spliced out. */
  lemma {:induction false} SpliceNodes<V>(c: Ctx<V>, t: Tree<V>)
    requires t.Branch? && (t.left.Empty? || t.right.Empty?) && Distinct(Plug(c, t))
    ensures DistinctCtx(c) && Distinct(t) && CtxNodes(c) !! Nodes(t)
    ensures Distinct(OnlyChild(t)) && t.node !in Nodes(OnlyChild(t)) && Nodes(t) == Nodes(OnlyChild(t)) + {t.node}
    ensures c.Hole? ==> c.node in CtxNodes(c) && t.node != TopNode(c.sib)
    ensures Distinct(Plug(c, OnlyChild(t))) && Nodes(Plug(c, OnlyChild(t))) == Nodes(Plug(c, t)) - {t.node}
    ensures TopNode(Plug(c, OnlyChild(t))) == if c.Top? then TopNode(OnlyChild(t)) else TopNode(Plug(c, t))
  {
    var s := OnlyChild(t);
    DistinctPlug(c, t);
    assert Distinct(s) && t.node !in Nodes(s) && Nodes(t) == Nodes(s) + {t.node};
    PlugNodes(c, t);
    PlugNodes(c, s);
    DistinctPlug(c, s);
    PlugTop(c, t);
    PlugTop(c, s);
    if c.Hole? {
      assert c.node in CtxNodes(c);
      assert c.sib.Branch? ==> c.sib.node in Nodes(c.sib);
    }
  }

  /** The parent's write of removeHelper: the path's records now name t's only child below. */
  lemma {:induction false} SpliceParent<V>(c: Ctx<V>, t: Tree<V>, rest: map<Node<V>, Rec<V>>)
    requires t.Branch? && (t.left.Empty? || t.right.Empty?) && Distinct(Plug(c, t))
    requires c.Hole? ==> c.node !in rest
    ensures var h, p, child := CtxSnap(c, t.node) + rest, CtxNode(c), TopNode(OnlyChild(t));
      (p == null || p in h) &&
      (if p == null then h
       else if h[p].left == t.node then h[p := h[p].(left := child)]
       else h[p := h[p].(right := child)]) == CtxSnap(c, child) + rest
  {
    var h, n, child := CtxSnap(c, t.node) + rest, t.node, TopNode(OnlyChild(t));
    SpliceNodes(c, t);
    CtxSnapKeys(c, n);
    CtxSnapBelow(c, n, child);
    if c.Hole? {
      var x := CtxSnap(c, n);
      assert x == CtxSnap(c.up, c.node) + Snap(c.sib, c.node) + map[c.node := CtxRec(c, n)];
      assert h[c.node] == CtxRec(c, n);
      UpdateUnionLeft(x, rest, c.node, CtxRec(c, child));
    }
  }

  /** Overwriting an entry of the middle operand of a union, away from its last entry. */
  lemma {:induction false} UpdateUnionInner<K, W>(x: map<K, W>, y: map<K, W>, n: K, r: W, k: K, w: W)
    requires k != n && k in y
    ensures (x + (y + map[n := r]))[k] == y[k]
    ensures (x + (y + map[n := r]))[k := w] == x + (y[k := w] + map[n := r])
  {
  }

  /** The child's write of removeHelper: t's only child now names t's parent above it. */
  lemma {:induction false} SpliceChild<V>(s: Tree<V>, n: Node<V>, p: Node?<V>, x: map<Node<V>, Rec<V>>, r: Rec<V>)
    requires Distinct(s) && n !in Nodes(s)
    ensures var g := x + (Snap(s, n) + map[n := r]);
      (TopNode(s) == null || TopNode(s) in g) &&
      (if TopNode(s) == null then g else g[TopNode(s) := g[TopNode(s)].(parent := p)]) == x + (Snap(s, p) + map[n := r])
  {
    SnapReparent(s, n, p);
    if s.Branch? {
      SnapTop(s, n);
      assert s.node != n;
      UpdateUnionInner(x, Snap(s, n), n, r, s.node, RecOf(s, p));
      assert RecOf(s, n).(parent := p) == RecOf(s, p);
    }
  }

  /** Dropping a node held by neither operand's left part. */
  lemma {:induction false} SpliceDrop<V>(x: map<Node<V>, Rec<V>>, y: map<Node<V>, Rec<V>>, n: Node<V>, r: Rec<V>)
    requires n !in x && n !in y
    ensures (x + (y + map[n := r])) - {n} == x + y
  {
  }

  /**
   * Splicing out the top node of t, which has at most one child: the records removeHelper
   * leaves are the snapshot of the tree with t's only child (or nothing) in t's place.
   */
  lemma {:induction false} SnapSplice<V>(c: Ctx<V>, t: Tree<V>)
    requires t.Branch? && (t.left.Empty? || t.right.Empty?) && Distinct(Plug(c, t))
    ensures var h, s := Snap(Plug(c, t), null), OnlyChild(t);
      (CtxNode(c) == null || CtxNode(c) in h) && (TopNode(s) == null || TopNode(s) in h) &&
      SpliceWrites(h, t.node, CtxNode(c), TopNode(s)) == Snap(Plug(c, s), null)
  {
    var n, p, s := t.node, CtxNode(c), OnlyChild(t);
    var h := Snap(Plug(c, t), null);
    SpliceNodes(c, t);
    SnapPlug(c, t);
    SnapPlug(c, s);
    SnapSpliceLocal(t, p);
    SnapKeys(s, n);
    SnapKeys(s, p);
    CtxSnapKeys(c, TopNode(s));
    var rest := Snap(s, n) + map[n := RecOf(t, p)];
    assert h == CtxSnap(c, n) + rest;
    SpliceParent(c, t, rest);
    SpliceChild(s, n, p, CtxSnap(c, TopNode(s)), RecOf(t, p));
    SpliceDrop(CtxSnap(c, TopNode(s)), Snap(s, p), n, RecOf(t, p));
  }
}
