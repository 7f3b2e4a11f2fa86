/**
 * nodeSwap read on values: two nodes a and b exchange their places in the tree, each taking its
 * key, value and balance along. On a tree this puts b where a stood and a where b stood; on the
 * records of the heap it renames the keys and every link inside the records, while each node
 * keeps its own key, value and balance.
 */
module AvlSwap {
  import opened AvlNodes
  import opened AvlShapes

  /** The node m with a and b exchanged. */
  function SwN<V>(m: Node<V>, a: Node<V>, b: Node<V>): Node<V>
  {
    if m == a then b else if m == b then a else m
  }

  /** The link m with a and b exchanged; null stays null. */
  function Sw<V>(m: Node?<V>, a: Node<V>, b: Node<V>): Node?<V>
  {
    if m == null then null else SwN(m, a, b)
  }

  /**
   * The tree t after a and b have exchanged places: where a stood, b stands with the key, value
   * and balance of rb, and where b stood, a stands with those of ra.
   */
  function SwapTree<V>(t: Tree<V>, a: Node<V>, b: Node<V>, ra: Rec<V>, rb: Rec<V>): (u: Tree<V>)
    ensures TopNode(u) == Sw(TopNode(t), a, b)
  {
    if t.Empty? then Empty
    else
      var l, r := SwapTree(t.left, a, b, ra, rb), SwapTree(t.right, a, b, ra, rb);
      if t.node == a then Branch(l, b, rb.key, rb.value, rb.bal, r)
      else if t.node == b then Branch(l, a, ra.key, ra.value, ra.bal, r)
      else Branch(l, t.node, t.key, t.value, t.bal, r)
  }

  /**
   * The record of node m after the exchange, where r is the record of the place m now holds:
   * the links of that place, renamed, and m's own key, value and balance.
   */
  function SwapRec<V>(r: Rec<V>, m: Node<V>, a: Node<V>, b: Node<V>, ra: Rec<V>, rb: Rec<V>): Rec<V>
  {
    var own := if m == a then ra else if m == b then rb else r;
    Rec(Sw(r.parent, a, b), Sw(r.left, a, b), Sw(r.right, a, b), own.key, own.value, own.bal)
  }

  /** The nodes of s with a and b exchanged. */
  ghost function SwapSet<V>(s: set<Node<V>>, a: Node<V>, b: Node<V>): set<Node<V>>
  {
    set x | x in s :: SwN(x, a, b)
  }

  /** The records of h after the exchange: each node m reads the renamed record of the place SwN(m). */
  ghost function SwapMap<V>(h: map<Node<V>, Rec<V>>, a: Node<V>, b: Node<V>, ra: Rec<V>, rb: Rec<V>): map<Node<V>, Rec<V>>
  {
    map m | m in h.Keys + {a, b} && SwN(m, a, b) in h :: SwapRec(h[SwN(m, a, b)], m, a, b, ra, rb)
  }

  /** Membership in the renamed set is membership of the renamed node. */
  lemma {:induction false} SwapSetIn<V>(s: set<Node<V>>, a: Node<V>, b: Node<V>, m: Node<V>)
    ensures m in SwapSet(s, a, b) <==> SwN(m, a, b) in s
  {
    if SwN(m, a, b) in s {
      assert SwN(SwN(m, a, b), a, b) == m;
    }
  }

  /** An entry of the renamed map. */
  lemma {:induction false} SwapMapAt<V>(h: map<Node<V>, Rec<V>>, a: Node<V>, b: Node<V>, ra: Rec<V>, rb: Rec<V>, m: Node<V>)
    ensures m in SwapMap(h, a, b, ra, rb) <==> SwN(m, a, b) in h
    ensures SwN(m, a, b) in h ==> SwapMap(h, a, b, ra, rb)[m] == SwapRec(h[SwN(m, a, b)], m, a, b, ra, rb)
  {
  }

  /** Renaming distributes over the union of maps. */
  lemma {:induction false} SwapMapUnion<V>(h1: map<Node<V>, Rec<V>>, h2: map<Node<V>, Rec<V>>, a: Node<V>, b: Node<V>, ra: Rec<V>, rb: Rec<V>)
    ensures SwapMap(h1 + h2, a, b, ra, rb) == SwapMap(h1, a, b, ra, rb) + SwapMap(h2, a, b, ra, rb)
  {
    var x, y, z := SwapMap(h1 + h2, a, b, ra, rb), SwapMap(h1, a, b, ra, rb), SwapMap(h2, a, b, ra, rb);
    forall m | m in x
      ensures m in y + z && x[m] == (y + z)[m]
    {
      SwapMapAt(h1 + h2, a, b, ra, rb, m);
      var k := SwN(m, a, b);
      if k in h2 {
        SwapMapAt(h2, a, b, ra, rb, m);
      } else {
        SwapMapAt(h1, a, b, ra, rb, m);
        SwapMapAt(h2, a, b, ra, rb, m);
      }
    }
    forall m | m in y + z
      ensures m in x
    {
      SwapMapAt(h1 + h2, a, b, ra, rb, m);
      SwapMapAt(h1, a, b, ra, rb, m);
      SwapMapAt(h2, a, b, ra, rb, m);
    }
  }

  /** Renaming a single entry. */
  lemma {:induction false} SwapMapSingle<V>(n: Node<V>, r: Rec<V>, a: Node<V>, b: Node<V>, ra: Rec<V>, rb: Rec<V>)
    ensures SwapMap(map[n := r], a, b, ra, rb) == map[SwN(n, a, b) := SwapRec(r, SwN(n, a, b), a, b, ra, rb)]
  {
    var x := SwapMap(map[n := r], a, b, ra, rb);
    forall m
      ensures m in x <==> m == SwN(n, a, b)
      ensures m in x ==> x[m] == SwapRec(r, SwN(n, a, b), a, b, ra, rb)
    {
      SwapMapAt(map[n := r], a, b, ra, rb, m);
    }
  }

  /** Renaming the empty map. */
  lemma {:induction false} SwapMapEmpty<V>(a: Node<V>, b: Node<V>, ra: Rec<V>, rb: Rec<V>)
    ensures SwapMap(map[], a, b, ra, rb) == map[]
  {
    var x := SwapMap(map[], a, b, ra, rb);
    forall m
      ensures m !in x
    {
      SwapMapAt(map[], a, b, ra, rb, m);
    }
  }

  /**
   * The snapshot of the exchanged tree is the renamed snapshot: the exchange of places read on
   * records is the renaming of keys and links, with each node keeping its own key, value, balance.
   */
  lemma {:induction false} SnapSwap<V>(t: Tree<V>, p: Node?<V>, a: Node<V>, b: Node<V>, ra: Rec<V>, rb: Rec<V>)
    requires a != b
    ensures Snap(SwapTree(t, a, b, ra, rb), Sw(p, a, b)) == SwapMap(Snap(t, p), a, b, ra, rb)
  {
    if t.Empty? {
      SwapMapEmpty<V>(a, b, ra, rb);
    } else {
      var n := t.node;
      SnapSwap(t.left, n, a, b, ra, rb);
      SnapSwap(t.right, n, a, b, ra, rb);
      SwapMapUnion(Snap(t.left, n), Snap(t.right, n), a, b, ra, rb);
      SwapMapUnion(Snap(t.left, n) + Snap(t.right, n), map[n := RecOf(t, p)], a, b, ra, rb);
      SwapMapSingle(n, RecOf(t, p), a, b, ra, rb);
      var u := SwapTree(t, a, b, ra, rb);
      assert RecOf(u, Sw(p, a, b)) == SwapRec(RecOf(t, p), SwN(n, a, b), a, b, ra, rb);
    }
  }

  /** A tree holding neither a nor b is unchanged by the exchange. */
  lemma {:induction false} SwapNone<V>(t: Tree<V>, a: Node<V>, b: Node<V>, ra: Rec<V>, rb: Rec<V>)
    requires a !in Nodes(t) && b !in Nodes(t)
    ensures SwapTree(t, a, b, ra, rb) == t
  {
    if t.Branch? {
      SwapNone(t.left, a, b, ra, rb);
      SwapNone(t.right, a, b, ra, rb);
    }
  }

  /** The exchange of two nodes below a path that holds neither happens below the path. */
  lemma {:induction false} SwapPlug<V>(c: Ctx<V>, x: Tree<V>, a: Node<V>, b: Node<V>, ra: Rec<V>, rb: Rec<V>)
    requires a !in CtxNodes(c) && b !in CtxNodes(c)
    ensures SwapTree(Plug(c, x), a, b, ra, rb) == Plug(c, SwapTree(x, a, b, ra, rb))
    decreases c
  {
    if c.Hole? {
      SwapNone(c.sib, a, b, ra, rb);
      SwapPlug(c.up, Attach(c, x), a, b, ra, rb);
      assert SwapTree(Attach(c, x), a, b, ra, rb) == Attach(c, SwapTree(x, a, b, ra, rb));
    }
  }

  /** Renaming distributes over the union of sets. */
  lemma {:induction false} SwapSetUnion<V>(s1: set<Node<V>>, s2: set<Node<V>>, a: Node<V>, b: Node<V>)
    ensures SwapSet(s1 + s2, a, b) == SwapSet(s1, a, b) + SwapSet(s2, a, b)
  {
    forall m
      ensures m in SwapSet(s1 + s2, a, b) <==> m in SwapSet(s1, a, b) + SwapSet(s2, a, b)
    {
      SwapSetIn(s1 + s2, a, b, m);
      SwapSetIn(s1, a, b, m);
      SwapSetIn(s2, a, b, m);
    }
  }

  /** The exchange renames the nodes of the tree. */
  lemma {:induction false} SwapNodes<V>(t: Tree<V>, a: Node<V>, b: Node<V>, ra: Rec<V>, rb: Rec<V>)
    ensures Nodes(SwapTree(t, a, b, ra, rb)) == SwapSet(Nodes(t), a, b)
  {
    if t.Branch? {
      SwapNodes(t.left, a, b, ra, rb);
      SwapNodes(t.right, a, b, ra, rb);
      SwapSetUnion(Nodes(t.left), {t.node}, a, b);
      SwapSetUnion(Nodes(t.left) + {t.node}, Nodes(t.right), a, b);
      assert SwapSet({t.node}, a, b) == {SwN(t.node, a, b)} by {
        forall m
          ensures m in SwapSet({t.node}, a, b) <==> m == SwN(t.node, a, b)
        {
          SwapSetIn({t.node}, a, b, m);
        }
      }
    }
  }

  /** The exchange keeps the nodes of a tree distinct. */
  lemma {:induction false} SwapDistinct<V>(t: Tree<V>, a: Node<V>, b: Node<V>, ra: Rec<V>, rb: Rec<V>)
    requires Distinct(t)
    ensures Distinct(SwapTree(t, a, b, ra, rb))
  {
    if t.Branch? {
      SwapDistinct(t.left, a, b, ra, rb);
      SwapDistinct(t.right, a, b, ra, rb);
      var u := SwapTree(t, a, b, ra, rb);
      SwapNodes(t.left, a, b, ra, rb);
      SwapNodes(t.right, a, b, ra, rb);
      SwapSetIn(Nodes(t.left), a, b, u.node);
      SwapSetIn(Nodes(t.right), a, b, u.node);
      forall m | m in Nodes(u.left)
        ensures m !in Nodes(u.right)
      {
        SwapSetIn(Nodes(t.left), a, b, m);
        SwapSetIn(Nodes(t.right), a, b, m);
      }
    }
  }

  // ---------------------------------------------------------------- links of a snapshot

  /** The child links and the parent links of h agree: m names x as a child exactly when x names m as parent. */
  ghost predicate Linked<V>(h: map<Node<V>, Rec<V>>)
  {
    forall m, x | m in h && x in h :: (h[m].left == x || h[m].right == x) <==> h[x].parent == m
  }

  /** No node of h names the same node as both of its children. */
  ghost predicate DistinctChildren<V>(h: map<Node<V>, Rec<V>>)
  {
    forall m | m in h :: h[m].left == null || h[m].left != h[m].right
  }

  /** The links of every node of Snap(t, p) stay inside t, except the top node's link up to p. */
  ghost predicate LinksInside<V>(t: Tree<V>, p: Node?<V>, h: map<Node<V>, Rec<V>>)
  {
    forall m | m in h ::
      (h[m].left == null || h[m].left in Nodes(t)) && (h[m].right == null || h[m].right in Nodes(t)) &&
      (h[m].parent == p <==> t.Branch? && m == t.node) && (h[m].parent != p ==> h[m].parent in Nodes(t))
  }

  /** The snapshot of a tree with distinct nodes is linked consistently. */
  lemma {:induction false} SnapLinked<V>(t: Tree<V>, p: Node?<V>)
    requires Distinct(t) && (p == null || p !in Nodes(t))
    ensures Linked(Snap(t, p)) && DistinctChildren(Snap(t, p)) && LinksInside(t, p, Snap(t, p))
  {
    if t.Branch? {
      var n := t.node;
      SnapLinked(t.left, n);
      SnapLinked(t.right, n);
      SnapKeys(t.left, n);
      SnapKeys(t.right, n);
      var h, hl, hr := Snap(t, p), Snap(t.left, n), Snap(t.right, n);
      assert h == hl + hr + map[n := RecOf(t, p)];
      forall m | m in h
        ensures h[m] == if m == n then RecOf(t, p) else if m in hl then hl[m] else hr[m]
        ensures m == n || m in hl || m in hr
      {
      }
      forall m | m in h
        ensures (h[m].left == null || h[m].left in Nodes(t)) && (h[m].right == null || h[m].right in Nodes(t))
        ensures (h[m].parent == p <==> m == n) && (h[m].parent != p ==> h[m].parent in Nodes(t))
      {
      }
      forall m, x | m in h && x in h
        ensures (h[m].left == x || h[m].right == x) <==> h[x].parent == m
      {
        if m == n {
          assert x != n ==> (h[x].parent == n <==> x == TopNode(t.left) || x == TopNode(t.right));
        }
      }
    }
  }

  // ---------------------------------------------------------------- the exchange as writes

  /** One instance of Linked. */
  lemma {:induction false} LinkedAt<V>(h: map<Node<V>, Rec<V>>, m: Node<V>, x: Node<V>)
    requires Linked(h) && m in h && x in h
    ensures (h[m].left == x || h[m].right == x) <==> h[x].parent == m
  {
  }

  /** The records g with the record of n replaced by r. */
  function Put<V>(g: map<Node<V>, Rec<V>>, n: Node<V>, r: Rec<V>): (u: map<Node<V>, Rec<V>>)
    requires n in g
    ensures u.Keys == g.Keys
  {
    g[n := r]
  }

  /**
   * The records after the writes of the base class's nodeSwap, for the case remove uses: n2 lies
   * in the left subtree of n1 and has no right child. p1, l1, r1 are n1's parent and children,
   * p2 and l2 are n2's parent and left child, all read before the first write.
   */
  ghost function SwapWrites<V>(h: map<Node<V>, Rec<V>>, n1: Node<V>, n2: Node<V>, p1: Node?<V>, l1: Node<V>,
                               r1: Node<V>, p2: Node<V>, l2: Node?<V>): (f: map<Node<V>, Rec<V>>)
    requires n1 in h && n2 in h && l1 in h && r1 in h && p2 in h
    requires (p1 == null || p1 in h) && (l2 == null || l2 in h)
    ensures f.Keys == h.Keys
  {
    var adjacent := p2 == n1;
    var g1 := Put(h, n2, h[n2].(parent := p1, left := if adjacent then n1 else l1, right := r1));
    var g2 := Put(g1, n1, g1[n1].(parent := if adjacent then n2 else p2, left := l2, right := null));
    var g3 := if p1 == null then g2
              else if h[p1].left == n1 then Put(g2, p1, g2[p1].(left := n2))
              else Put(g2, p1, g2[p1].(right := n2));
    var g4 := Put(g3, r1, g3[r1].(parent := n2));
    var g5 := if adjacent then g4
              else var y := Put(g4, l1, g4[l1].(parent := n2)); Put(y, p2, y[p2].(right := n1));
    if l2 == null then g5 else Put(g5, l2, g5[l2].(parent := n1))
  }

  /** The records after each write of nodeSwap, one write at a time, end in SwapWrites. */
  lemma {:induction false} SwapWritesSteps<V>(h: map<Node<V>, Rec<V>>, n1: Node<V>, n2: Node<V>, p1: Node?<V>, l1: Node<V>,
                           r1: Node<V>, p2: Node<V>, l2: Node?<V>, p1left: bool,
                           g1: map<Node<V>, Rec<V>>, g2: map<Node<V>, Rec<V>>, g3: map<Node<V>, Rec<V>>,
                           g4: map<Node<V>, Rec<V>>, g5: map<Node<V>, Rec<V>>, g6: map<Node<V>, Rec<V>>)
    requires n1 in h && n2 in h && l1 in h && r1 in h && p2 in h
    requires (p1 == null || p1 in h) && (l2 == null || l2 in h)
    requires p1 != null ==> (p1left <==> h[p1].left == n1)
    requires g1 == Put(h, n2, h[n2].(parent := p1, left := if p2 == n1 then n1 else l1, right := r1))
    requires g2 == Put(g1, n1, g1[n1].(parent := if p2 == n1 then n2 else p2, left := l2, right := null))
    requires g3 == if p1 == null then g2 else if p1left then Put(g2, p1, g2[p1].(left := n2)) else Put(g2, p1, g2[p1].(right := n2))
    requires g4 == Put(g3, r1, g3[r1].(parent := n2))
    requires g5 == if p2 == n1 then g4 else var y := Put(g4, l1, g4[l1].(parent := n2)); Put(y, p2, y[p2].(right := n1))
    requires g6 == if l2 == null then g5 else Put(g5, l2, g5[l2].(parent := n1))
    ensures g6 == SwapWrites(h, n1, n2, p1, l1, r1, p2, l2)
  {
  }

  /** The record of a node that neither is nor links to a or b is not renamed. */
  lemma {:induction false} SwapRecSame<V>(r: Rec<V>, m: Node<V>, a: Node<V>, b: Node<V>, ra: Rec<V>, rb: Rec<V>)
    requires m != a && m != b
    requires r.parent != a && r.parent != b && r.left != a && r.left != b && r.right != a && r.right != b
    ensures SwapRec(r, m, a, b, ra, rb) == r
  {
  }

  /** The writes of nodeSwap leave the record of every other node as it was. */
  lemma {:induction false} SwapWritesUntouched<V>(h: map<Node<V>, Rec<V>>, n1: Node<V>, n2: Node<V>, p1: Node?<V>, l1: Node<V>,
                               r1: Node<V>, p2: Node<V>, l2: Node?<V>, m: Node<V>)
    requires n1 in h && n2 in h && l1 in h && r1 in h && p2 in h
    requires (p1 == null || p1 in h) && (l2 == null || l2 in h)
    requires m in h && m != n1 && m != n2 && m != p1 && m != l1 && m != r1 && m != p2 && m != l2
    ensures SwapWrites(h, n1, n2, p1, l1, r1, p2, l2)[m] == h[m]
  {
  }

  /** The record of a node nodeSwap does not write is the exchanged record: it links to neither node. */
  lemma {:induction false} SwapWritesOther<V>(h: map<Node<V>, Rec<V>>, n1: Node<V>, n2: Node<V>, p1: Node?<V>, l1: Node<V>,
                         r1: Node<V>, p2: Node<V>, l2: Node?<V>, m: Node<V>)
    requires Linked(h) && DistinctChildren(h)
    requires n1 in h && n2 in h && l1 in h && r1 in h && p2 in h
    requires (p1 == null || p1 in h) && (l2 == null || l2 in h)
    requires h[n1].parent == p1 && h[n1].left == l1 && h[n1].right == r1
    requires h[n2].parent == p2 && h[n2].left == l2 && h[n2].right == null
    requires n1 != n2 && l1 != n1 && p2 != n2 && p2 != r1 && (l1 == n2 <==> p2 == n1)
    requires p1 != n1 && p1 != n2 && p1 != l1 && p1 != r1 && p1 != p2 && (p1 == null || p1 != l2)
    requires r1 != n1 && r1 != n2 && r1 != l1 && r1 != l2
    requires l2 != n1 && l2 != n2 && l2 != l1 && l2 != p2
    requires p2 != n1 ==> h[p2].right == n2
    requires m in h && m != n1 && m != n2 && m != p1 && m != l1 && m != r1 && m != p2 && m != l2
    ensures SwapWrites(h, n1, n2, p1, l1, r1, p2, l2)[m] == SwapRec(h[SwN(m, n1, n2)], m, n1, n2, h[n1], h[n2])
  {
    SwapWritesUntouched(h, n1, n2, p1, l1, r1, p2, l2, m);
    LinkedAt(h, m, n1);
    LinkedAt(h, m, n2);
    LinkedAt(h, n1, m);
    LinkedAt(h, n2, m);
    SwapRecSame(h[m], m, n1, n2, h[n1], h[n2]);
  }

  /** The record of n1 after the writes of nodeSwap is its exchanged record. */
  lemma {:induction false} SwapWritesFirst<V>(h: map<Node<V>, Rec<V>>, n1: Node<V>, n2: Node<V>, p1: Node?<V>, l1: Node<V>,
                         r1: Node<V>, p2: Node<V>, l2: Node?<V>, m: Node<V>)
    requires Linked(h) && DistinctChildren(h)
    requires n1 in h && n2 in h && l1 in h && r1 in h && p2 in h
    requires (p1 == null || p1 in h) && (l2 == null || l2 in h)
    requires h[n1].parent == p1 && h[n1].left == l1 && h[n1].right == r1
    requires h[n2].parent == p2 && h[n2].left == l2 && h[n2].right == null
    requires n1 != n2 && l1 != n1 && p2 != n2 && p2 != r1 && (l1 == n2 <==> p2 == n1)
    requires p1 != n1 && p1 != n2 && p1 != l1 && p1 != r1 && p1 != p2 && (p1 == null || p1 != l2)
    requires r1 != n1 && r1 != n2 && r1 != l1 && r1 != l2
    requires l2 != n1 && l2 != n2 && l2 != l1 && l2 != p2
    requires p2 != n1 ==> h[p2].right == n2
    requires m in h && (m == n1)
    ensures SwapWrites(h, n1, n2, p1, l1, r1, p2, l2)[m] == SwapRec(h[SwN(m, n1, n2)], m, n1, n2, h[n1], h[n2])
  {
  }

  /** The record of n2 after the writes of nodeSwap is its exchanged record. */
  lemma {:induction false} SwapWritesSecond<V>(h: map<Node<V>, Rec<V>>, n1: Node<V>, n2: Node<V>, p1: Node?<V>, l1: Node<V>,
                         r1: Node<V>, p2: Node<V>, l2: Node?<V>, m: Node<V>)
    requires Linked(h) && DistinctChildren(h)
    requires n1 in h && n2 in h && l1 in h && r1 in h && p2 in h
    requires (p1 == null || p1 in h) && (l2 == null || l2 in h)
    requires h[n1].parent == p1 && h[n1].left == l1 && h[n1].right == r1
    requires h[n2].parent == p2 && h[n2].left == l2 && h[n2].right == null
    requires n1 != n2 && l1 != n1 && p2 != n2 && p2 != r1 && (l1 == n2 <==> p2 == n1)
    requires p1 != n1 && p1 != n2 && p1 != l1 && p1 != r1 && p1 != p2 && (p1 == null || p1 != l2)
    requires r1 != n1 && r1 != n2 && r1 != l1 && r1 != l2
    requires l2 != n1 && l2 != n2 && l2 != l1 && l2 != p2
    requires p2 != n1 ==> h[p2].right == n2
    requires m in h && (m == n2)
    ensures SwapWrites(h, n1, n2, p1, l1, r1, p2, l2)[m] == SwapRec(h[SwN(m, n1, n2)], m, n1, n2, h[n1], h[n2])
  {
  }

  /** The record of the parent of n1, when n1 is its left child, after the writes of nodeSwap. */
  lemma {:induction false} SwapWritesAboveLeft<V>(h: map<Node<V>, Rec<V>>, n1: Node<V>, n2: Node<V>, p1: Node?<V>, l1: Node<V>,
                         r1: Node<V>, p2: Node<V>, l2: Node?<V>, m: Node<V>)
    requires Linked(h) && DistinctChildren(h)
    requires n1 in h && n2 in h && l1 in h && r1 in h && p2 in h
    requires (p1 == null || p1 in h) && (l2 == null || l2 in h)
    requires h[n1].parent == p1 && h[n1].left == l1 && h[n1].right == r1
    requires h[n2].parent == p2 && h[n2].left == l2 && h[n2].right == null
    requires n1 != n2 && l1 != n1 && p2 != n2 && p2 != r1 && (l1 == n2 <==> p2 == n1)
    requires p1 != n1 && p1 != n2 && p1 != l1 && p1 != r1 && p1 != p2 && (p1 == null || p1 != l2)
    requires r1 != n1 && r1 != n2 && r1 != l1 && r1 != l2
    requires l2 != n1 && l2 != n2 && l2 != l1 && l2 != p2
    requires p2 != n1 ==> h[p2].right == n2
    requires m in h && (m == p1) && h[m].left == n1
    ensures SwapWrites(h, n1, n2, p1, l1, r1, p2, l2)[m] == SwapRec(h[SwN(m, n1, n2)], m, n1, n2, h[n1], h[n2])
  {
    LinkedAt(h, n1, m);
    LinkedAt(h, n2, m);
    LinkedAt(h, m, n2);
  }

  /** The record of the parent of n1, when n1 is its right child, after the writes of nodeSwap. */
  lemma {:induction false} SwapWritesAboveRight<V>(h: map<Node<V>, Rec<V>>, n1: Node<V>, n2: Node<V>, p1: Node?<V>, l1: Node<V>,
                         r1: Node<V>, p2: Node<V>, l2: Node?<V>, m: Node<V>)
    requires Linked(h) && DistinctChildren(h)
    requires n1 in h && n2 in h && l1 in h && r1 in h && p2 in h
    requires (p1 == null || p1 in h) && (l2 == null || l2 in h)
    requires h[n1].parent == p1 && h[n1].left == l1 && h[n1].right == r1
    requires h[n2].parent == p2 && h[n2].left == l2 && h[n2].right == null
    requires n1 != n2 && l1 != n1 && p2 != n2 && p2 != r1 && (l1 == n2 <==> p2 == n1)
    requires p1 != n1 && p1 != n2 && p1 != l1 && p1 != r1 && p1 != p2 && (p1 == null || p1 != l2)
    requires r1 != n1 && r1 != n2 && r1 != l1 && r1 != l2
    requires l2 != n1 && l2 != n2 && l2 != l1 && l2 != p2
    requires p2 != n1 ==> h[p2].right == n2
    requires m in h && (m == p1) && h[m].left != n1
    ensures SwapWrites(h, n1, n2, p1, l1, r1, p2, l2)[m] == SwapRec(h[SwN(m, n1, n2)], m, n1, n2, h[n1], h[n2])
  {
    LinkedAt(h, n1, m);
    LinkedAt(h, n2, m);
    LinkedAt(h, m, n2);
  }

  /** The record of the right child of n1 after the writes of nodeSwap. */
  lemma {:induction false} SwapWritesRight<V>(h: map<Node<V>, Rec<V>>, n1: Node<V>, n2: Node<V>, p1: Node?<V>, l1: Node<V>,
                         r1: Node<V>, p2: Node<V>, l2: Node?<V>, m: Node<V>)
    requires Linked(h) && DistinctChildren(h)
    requires n1 in h && n2 in h && l1 in h && r1 in h && p2 in h
    requires (p1 == null || p1 in h) && (l2 == null || l2 in h)
    requires h[n1].parent == p1 && h[n1].left == l1 && h[n1].right == r1
    requires h[n2].parent == p2 && h[n2].left == l2 && h[n2].right == null
    requires n1 != n2 && l1 != n1 && p2 != n2 && p2 != r1 && (l1 == n2 <==> p2 == n1)
    requires p1 != n1 && p1 != n2 && p1 != l1 && p1 != r1 && p1 != p2 && (p1 == null || p1 != l2)
    requires r1 != n1 && r1 != n2 && r1 != l1 && r1 != l2
    requires l2 != n1 && l2 != n2 && l2 != l1 && l2 != p2
    requires p2 != n1 ==> h[p2].right == n2
    requires m in h && (m == r1 && m != p1)
    ensures SwapWrites(h, n1, n2, p1, l1, r1, p2, l2)[m] == SwapRec(h[SwN(m, n1, n2)], m, n1, n2, h[n1], h[n2])
  {
    LinkedAt(h, m, n1);
    LinkedAt(h, m, n2);
  }

  /** The record of the left child of n1, when that is not the parent of n2, after the writes of nodeSwap. */
  lemma {:induction false} SwapWritesLeft<V>(h: map<Node<V>, Rec<V>>, n1: Node<V>, n2: Node<V>, p1: Node?<V>, l1: Node<V>,
                         r1: Node<V>, p2: Node<V>, l2: Node?<V>, m: Node<V>)
    requires Linked(h) && DistinctChildren(h)
    requires n1 in h && n2 in h && l1 in h && r1 in h && p2 in h
    requires (p1 == null || p1 in h) && (l2 == null || l2 in h)
    requires h[n1].parent == p1 && h[n1].left == l1 && h[n1].right == r1
    requires h[n2].parent == p2 && h[n2].left == l2 && h[n2].right == null
    requires n1 != n2 && l1 != n1 && p2 != n2 && p2 != r1 && (l1 == n2 <==> p2 == n1)
    requires p1 != n1 && p1 != n2 && p1 != l1 && p1 != r1 && p1 != p2 && (p1 == null || p1 != l2)
    requires r1 != n1 && r1 != n2 && r1 != l1 && r1 != l2
    requires l2 != n1 && l2 != n2 && l2 != l1 && l2 != p2
    requires p2 != n1 ==> h[p2].right == n2
    requires m in h && (m == l1 && m != p2 && m != n2)
    ensures SwapWrites(h, n1, n2, p1, l1, r1, p2, l2)[m] == SwapRec(h[SwN(m, n1, n2)], m, n1, n2, h[n1], h[n2])
  {
    LinkedAt(h, m, n1);
    LinkedAt(h, m, n2);
    assert h[m].left != n1 && h[m].right != n1 && h[m].left != n2 && h[m].right != n2;
    assert SwapRec(h[m], m, n1, n2, h[n1], h[n2]) == h[m].(parent := n2);
  }

  /** The record of the parent of n2 when it is also the left child of n1, after the writes of nodeSwap. */
  lemma {:induction false} SwapWritesBelowTop<V>(h: map<Node<V>, Rec<V>>, n1: Node<V>, n2: Node<V>, p1: Node?<V>, l1: Node<V>,
                         r1: Node<V>, p2: Node<V>, l2: Node?<V>, m: Node<V>)
    requires Linked(h) && DistinctChildren(h)
    requires n1 in h && n2 in h && l1 in h && r1 in h && p2 in h
    requires (p1 == null || p1 in h) && (l2 == null || l2 in h)
    requires h[n1].parent == p1 && h[n1].left == l1 && h[n1].right == r1
    requires h[n2].parent == p2 && h[n2].left == l2 && h[n2].right == null
    requires n1 != n2 && l1 != n1 && p2 != n2 && p2 != r1 && (l1 == n2 <==> p2 == n1)
    requires p1 != n1 && p1 != n2 && p1 != l1 && p1 != r1 && p1 != p2 && (p1 == null || p1 != l2)
    requires r1 != n1 && r1 != n2 && r1 != l1 && r1 != l2
    requires l2 != n1 && l2 != n2 && l2 != l1 && l2 != p2
    requires p2 != n1 ==> h[p2].right == n2
    requires m in h && (m == p2 && m != n1) && m == l1
    ensures SwapWrites(h, n1, n2, p1, l1, r1, p2, l2)[m] == SwapRec(h[SwN(m, n1, n2)], m, n1, n2, h[n1], h[n2])
  {
    LinkedAt(h, n1, m);
    LinkedAt(h, n2, m);
    LinkedAt(h, m, n1);
  }

  /** The record of the parent of n2 deeper below the left child of n1, after the writes of nodeSwap. */
  lemma {:induction false} SwapWritesBelowInner<V>(h: map<Node<V>, Rec<V>>, n1: Node<V>, n2: Node<V>, p1: Node?<V>, l1: Node<V>,
                         r1: Node<V>, p2: Node<V>, l2: Node?<V>, m: Node<V>)
    requires Linked(h) && DistinctChildren(h)
    requires n1 in h && n2 in h && l1 in h && r1 in h && p2 in h
    requires (p1 == null || p1 in h) && (l2 == null || l2 in h)
    requires h[n1].parent == p1 && h[n1].left == l1 && h[n1].right == r1
    requires h[n2].parent == p2 && h[n2].left == l2 && h[n2].right == null
    requires n1 != n2 && l1 != n1 && p2 != n2 && p2 != r1 && (l1 == n2 <==> p2 == n1)
    requires p1 != n1 && p1 != n2 && p1 != l1 && p1 != r1 && p1 != p2 && (p1 == null || p1 != l2)
    requires r1 != n1 && r1 != n2 && r1 != l1 && r1 != l2
    requires l2 != n1 && l2 != n2 && l2 != l1 && l2 != p2
    requires p2 != n1 ==> h[p2].right == n2
    requires m in h && (m == p2 && m != n1) && m != l1
    ensures SwapWrites(h, n1, n2, p1, l1, r1, p2, l2)[m] == SwapRec(h[SwN(m, n1, n2)], m, n1, n2, h[n1], h[n2])
  {
    LinkedAt(h, n1, m);
    LinkedAt(h, n2, m);
    LinkedAt(h, m, n1);
    assert h[m].parent != n1 && h[m].parent != n2 && h[m].left != n1 && h[m].left != n2;
    assert SwapRec(h[m], m, n1, n2, h[n1], h[n2]) == h[m].(right := n1);
  }

  /** The record of the left child of n2 after the writes of nodeSwap. */
  lemma {:induction false} SwapWritesChild<V>(h: map<Node<V>, Rec<V>>, n1: Node<V>, n2: Node<V>, p1: Node?<V>, l1: Node<V>,
                         r1: Node<V>, p2: Node<V>, l2: Node?<V>, m: Node<V>)
    requires Linked(h) && DistinctChildren(h)
    requires n1 in h && n2 in h && l1 in h && r1 in h && p2 in h
    requires (p1 == null || p1 in h) && (l2 == null || l2 in h)
    requires h[n1].parent == p1 && h[n1].left == l1 && h[n1].right == r1
    requires h[n2].parent == p2 && h[n2].left == l2 && h[n2].right == null
    requires n1 != n2 && l1 != n1 && p2 != n2 && p2 != r1 && (l1 == n2 <==> p2 == n1)
    requires p1 != n1 && p1 != n2 && p1 != l1 && p1 != r1 && p1 != p2 && (p1 == null || p1 != l2)
    requires r1 != n1 && r1 != n2 && r1 != l1 && r1 != l2
    requires l2 != n1 && l2 != n2 && l2 != l1 && l2 != p2
    requires p2 != n1 ==> h[p2].right == n2
    requires m in h && (m == l2)
    ensures SwapWrites(h, n1, n2, p1, l1, r1, p2, l2)[m] == SwapRec(h[SwN(m, n1, n2)], m, n1, n2, h[n1], h[n2])
  {
    LinkedAt(h, m, n1);
    LinkedAt(h, m, n2);
  }

  /** One record after the writes of nodeSwap is the exchanged record of that node. */
  lemma {:induction false} SwapWritesAt<V>(h: map<Node<V>, Rec<V>>, n1: Node<V>, n2: Node<V>, p1: Node?<V>, l1: Node<V>,
                         r1: Node<V>, p2: Node<V>, l2: Node?<V>, m: Node<V>)
    requires Linked(h) && DistinctChildren(h)
    requires n1 in h && n2 in h && l1 in h && r1 in h && p2 in h
    requires (p1 == null || p1 in h) && (l2 == null || l2 in h)
    requires h[n1].parent == p1 && h[n1].left == l1 && h[n1].right == r1
    requires h[n2].parent == p2 && h[n2].left == l2 && h[n2].right == null
    requires n1 != n2 && l1 != n1 && p2 != n2 && p2 != r1 && (l1 == n2 <==> p2 == n1)
    requires p1 != n1 && p1 != n2 && p1 != l1 && p1 != r1 && p1 != p2 && (p1 == null || p1 != l2)
    requires r1 != n1 && r1 != n2 && r1 != l1 && r1 != l2
    requires l2 != n1 && l2 != n2 && l2 != l1 && l2 != p2
    requires p2 != n1 ==> h[p2].right == n2
    requires m in h
    ensures SwapWrites(h, n1, n2, p1, l1, r1, p2, l2)[m] == SwapRec(h[SwN(m, n1, n2)], m, n1, n2, h[n1], h[n2])
  {
    if m == n1 {
      SwapWritesFirst(h, n1, n2, p1, l1, r1, p2, l2, m);
    } else if m == n2 {
      SwapWritesSecond(h, n1, n2, p1, l1, r1, p2, l2, m);
    } else if m == p1 {
      if h[m].left == n1 {
        SwapWritesAboveLeft(h, n1, n2, p1, l1, r1, p2, l2, m);
      } else {
        SwapWritesAboveRight(h, n1, n2, p1, l1, r1, p2, l2, m);
      }
    } else if m == r1 {
      SwapWritesRight(h, n1, n2, p1, l1, r1, p2, l2, m);
    } else if m == p2 {
      if m == l1 {
        SwapWritesBelowTop(h, n1, n2, p1, l1, r1, p2, l2, m);
      } else {
        SwapWritesBelowInner(h, n1, n2, p1, l1, r1, p2, l2, m);
      }
    } else if m == l1 {
      SwapWritesLeft(h, n1, n2, p1, l1, r1, p2, l2, m);
    } else if m == l2 {
      SwapWritesChild(h, n1, n2, p1, l1, r1, p2, l2, m);
    } else {
      SwapWritesOther(h, n1, n2, p1, l1, r1, p2, l2, m);
    }
  }

  /** A map whose every entry is the exchanged record of its node is the exchanged map. */
  lemma {:induction false} SwapMapByEntries<V>(f: map<Node<V>, Rec<V>>, h: map<Node<V>, Rec<V>>, a: Node<V>, b: Node<V>)
    requires a in h && b in h && f.Keys == h.Keys
    requires forall m {:trigger f[m]} | m in h :: f[m] == SwapRec(h[SwN(m, a, b)], m, a, b, h[a], h[b])
    ensures f == SwapMap(h, a, b, h[a], h[b])
  {
    var g := SwapMap(h, a, b, h[a], h[b]);
    forall m | m in g ensures m in h
    {
      SwapMapAt(h, a, b, h[a], h[b], m);
    }
    forall m | m in h ensures f[m] == g[m]
    {
      SwapMapAt(h, a, b, h[a], h[b], m);
    }
  }

  /** The writes of nodeSwap produce exactly the exchanged records, on a consistently linked heap. */
  lemma {:induction false} SwapWritesMap<V>(h: map<Node<V>, Rec<V>>, n1: Node<V>, n2: Node<V>, p1: Node?<V>, l1: Node<V>,
                         r1: Node<V>, p2: Node<V>, l2: Node?<V>)
    requires Linked(h) && DistinctChildren(h)
    requires n1 in h && n2 in h && l1 in h && r1 in h && p2 in h
    requires (p1 == null || p1 in h) && (l2 == null || l2 in h)
    requires h[n1].parent == p1 && h[n1].left == l1 && h[n1].right == r1
    requires h[n2].parent == p2 && h[n2].left == l2 && h[n2].right == null
    requires n1 != n2 && l1 != n1 && p2 != n2 && p2 != r1 && (l1 == n2 <==> p2 == n1)
    requires p1 != n1 && p1 != n2 && p1 != l1 && p1 != r1 && p1 != p2 && (p1 == null || p1 != l2)
    requires r1 != n1 && r1 != n2 && r1 != l1 && r1 != l2
    requires l2 != n1 && l2 != n2 && l2 != l1 && l2 != p2
    requires p2 != n1 ==> h[p2].right == n2
    ensures SwapWrites(h, n1, n2, p1, l1, r1, p2, l2) == SwapMap(h, n1, n2, h[n1], h[n2])
  {
    forall m | m in h
      ensures SwapWrites(h, n1, n2, p1, l1, r1, p2, l2)[m] == SwapRec(h[SwN(m, n1, n2)], m, n1, n2, h[n1], h[n2])
    {
      SwapWritesAt(h, n1, n2, p1, l1, r1, p2, l2, m);
    }
    SwapMapByEntries(SwapWrites(h, n1, n2, p1, l1, r1, p2, l2), h, n1, n2);
  }

  // ---------------------------------------------------------------- the exchange remove performs

  /**
   * The configuration in which remove exchanges a node with two children and its predecessor:
   * t is the node's subtree under the path c, its left subtree is q under the path ci, which only
   * goes right, and q has no right child, so q's node holds the largest key below t's left.
   */
  ghost predicate PredecessorAt<V>(c: Ctx<V>, t: Tree<V>, ci: Ctx<V>, q: Tree<V>)
  {
    t.Branch? && t.right.Branch? && t.left == Plug(ci, q) && RightSpine(ci) &&
    q.Branch? && q.right.Empty? && Distinct(Plug(c, t))
  }

  /** The whole tree after the exchange: the predecessor's node at t's place and t's node at q's place. */
  function Exchanged<V>(c: Ctx<V>, t: Tree<V>, ci: Ctx<V>, q: Tree<V>): Tree<V>
    requires t.Branch? && q.Branch?
  {
    Plug(c, Branch(Plug(ci, Branch(q.left, t.node, t.key, t.value, t.bal, Empty)), q.node, q.key, q.value, q.bal, t.right))
  }

  /** The top node of a path lies on the path. */
  lemma {:induction false} CtxTopIn<V>(c: Ctx<V>)
    requires c.Hole?
    ensures CtxTop(c) in CtxNodes(c)
    decreases c
  {
    if c.up.Hole? {
      CtxTopIn(c.up);
    }
  }

  /** Where the nodes nodeSwap reads lie, in the configuration remove meets. */
  lemma {:induction false} PredecessorNodes<V>(c: Ctx<V>, t: Tree<V>, ci: Ctx<V>, q: Tree<V>)
    requires PredecessorAt(c, t, ci, q)
    ensures var e := Append(ci, DownCtx(c, t, true));
      Plug(e, q) == Plug(c, t) && DistinctCtx(c) && Distinct(t) && CtxNodes(c) !! Nodes(t) &&
      DistinctCtx(e) && Distinct(q) && CtxNodes(e) !! Nodes(q) &&
      t.node !in Nodes(t.left) && t.node !in Nodes(t.right) && Nodes(t.left) !! Nodes(t.right) &&
      Nodes(t.left) == CtxNodes(ci) + Nodes(q) && CtxNodes(ci) !! Nodes(q) && q.node in Nodes(q) &&
      q.node !in Nodes(q.left) && q.node in Nodes(t.left) && t.node !in CtxNodes(ci) && q.node !in CtxNodes(ci) &&
      TopNode(t.left) != null && TopNode(t.left) in Nodes(t.left) && TopNode(t.right) != null && TopNode(t.right) in Nodes(t.right) &&
      (TopNode(q.left) == null || TopNode(q.left) in Nodes(q.left)) &&
      (ci.Top? ==> TopNode(t.left) == q.node && CtxNode(e) == t.node) &&
      (ci.Hole? ==> TopNode(t.left) in CtxNodes(ci) && CtxNode(e) == ci.node && ci.node in CtxNodes(ci) && !ci.holeLeft) &&
      (c.Hole? ==> c.node in CtxNodes(c))
  {
    var d := DownCtx(c, t, true);
    var e := Append(ci, d);
    PlugAppend(ci, d, q);
    DistinctPlug(c, t);
    DistinctPlug(e, q);
    PlugNodes(ci, q);
    DistinctPlug(ci, q);
    PlugTop(ci, q);
    if ci.Hole? {
      CtxTopIn(ci);
    }
  }

  /** The nodes nodeSwap reads are pairwise apart as far as its writes need, in the configuration remove meets. */
  lemma {:induction false} PredecessorApart<V>(c: Ctx<V>, t: Tree<V>, ci: Ctx<V>, q: Tree<V>,
                            p1: Node?<V>, l1: Node?<V>, r1: Node?<V>, p2: Node?<V>, l2: Node?<V>)
    requires PredecessorAt(c, t, ci, q)
    requires p1 == CtxNode(c) && l1 == TopNode(t.left) && r1 == TopNode(t.right)
    requires p2 == CtxNode(Append(ci, DownCtx(c, t, true))) && l2 == TopNode(q.left)
    ensures l1 != null && r1 != null && p2 != null
    ensures t.node != q.node && l1 != t.node && p2 != q.node && p2 != r1 && (l1 == q.node <==> p2 == t.node)
    ensures p1 != t.node && p1 != q.node && p1 != l1 && p1 != r1 && p1 != p2 && (p1 == null || p1 != l2)
    ensures r1 != t.node && r1 != q.node && r1 != l1 && r1 != l2
    ensures l2 != t.node && l2 != q.node && l2 != l1 && l2 != p2
  {
    PredecessorNodes(c, t, ci, q);
    assert Nodes(t) == Nodes(t.left) + {t.node} + Nodes(t.right);
    assert p2 in Nodes(t);
  }

  /** The records nodeSwap reads, and the links between them, in the configuration remove meets. */
  lemma {:induction false} PredecessorLinks<V>(c: Ctx<V>, t: Tree<V>, ci: Ctx<V>, q: Tree<V>, h: map<Node<V>, Rec<V>>, p2: Node?<V>)
    requires PredecessorAt(c, t, ci, q) && h == Snap(Plug(c, t), null)
    requires p2 == CtxNode(Append(ci, DownCtx(c, t, true)))
    ensures Linked(h) && DistinctChildren(h)
    ensures t.node in h && q.node in h && h[t.node] == RecOf(t, CtxNode(c)) && h[q.node] == RecOf(q, p2)
    ensures h.Keys == Nodes(Plug(c, t))
    ensures p2 != null && p2 != t.node ==> p2 in h && h[p2].right == q.node
  {
    var w, e := Plug(c, t), Append(ci, DownCtx(c, t, true));
    PredecessorNodes(c, t, ci, q);
    SnapKeys(w, null);
    SnapAt(c, t);
    SnapAt(e, q);
    SnapLinked(w, null);
  }

  /** Exchanging the node and its predecessor, carrying their records, gives the exchanged tree. */
  lemma {:induction false} PredecessorExchanged<V>(c: Ctx<V>, t: Tree<V>, ci: Ctx<V>, q: Tree<V>, ra: Rec<V>, rb: Rec<V>)
    requires PredecessorAt(c, t, ci, q)
    requires ra.key == t.key && ra.value == t.value && ra.bal == t.bal
    requires rb.key == q.key && rb.value == q.value && rb.bal == q.bal
    ensures SwapTree(Plug(c, t), t.node, q.node, ra, rb) == Exchanged(c, t, ci, q)
    ensures Distinct(Exchanged(c, t, ci, q))
    ensures TopNode(Exchanged(c, t, ci, q)) == if c.Top? then q.node else TopNode(Plug(c, t))
  {
    var n1, n2 := t.node, q.node;
    PredecessorNodes(c, t, ci, q);
    SwapPlug(c, t, n1, n2, ra, rb);
    SwapPlug(ci, q, n1, n2, ra, rb);
    SwapNone(t.right, n1, n2, ra, rb);
    SwapNone(q.left, n1, n2, ra, rb);
    SwapDistinct(Plug(c, t), n1, n2, ra, rb);
    PlugTop(c, t);
    if c.Hole? {
      CtxTopIn(c);
    }
  }

  /**
   * In the configuration remove meets, the writes of nodeSwap turn the records of the tree into
   * the records of the exchanged tree, which again has distinct nodes.
   */
  lemma {:induction false} SwapAtPredecessor<V>(c: Ctx<V>, t: Tree<V>, ci: Ctx<V>, q: Tree<V>, h: map<Node<V>, Rec<V>>,
                             p1: Node?<V>, l1: Node?<V>, r1: Node?<V>, p2: Node?<V>, l2: Node?<V>)
    requires PredecessorAt(c, t, ci, q) && h == Snap(Plug(c, t), null)
    requires p1 == CtxNode(c) && l1 == TopNode(t.left) && r1 == TopNode(t.right)
    requires p2 == CtxNode(Append(ci, DownCtx(c, t, true))) && l2 == TopNode(q.left)
    ensures l1 != null && r1 != null && p2 != null
    ensures t.node in h && q.node in h && l1 in h && r1 in h && p2 in h
    ensures (p1 == null || p1 in h) && (l2 == null || l2 in h)
    ensures SwapWrites(h, t.node, q.node, p1, l1, r1, p2, l2) == Snap(Exchanged(c, t, ci, q), null)
    ensures Distinct(Exchanged(c, t, ci, q))
    ensures TopNode(Exchanged(c, t, ci, q)) == if c.Top? then q.node else TopNode(Plug(c, t))
  {
    var w := Plug(c, t);
    var n1, n2 := t.node, q.node;
    PredecessorLinks(c, t, ci, q, h, p2);
    PredecessorApart(c, t, ci, q, p1, l1, r1, p2, l2);
    PredecessorNodes(c, t, ci, q);
    PlugNodes(c, t);
    SwapWritesMap(h, n1, n2, p1, l1, r1, p2, l2);
    SnapSwap(w, null, n1, n2, h[n1], h[n2]);
    PredecessorExchanged(c, t, ci, q, h[n1], h[n2]);
  }
}
