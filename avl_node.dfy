/**
 * The node of an AVL tree: a binary-search-tree node with parent, left and right links,
 * plus a balance field holding height(right) - height(left) of the subtree it roots.
 * The source stores the balance in a signed 8-bit integer.
 */
module AvlNodes {

  /** The range of a signed 8-bit integer. */
  predicate Int8(x: int)
  {
    -128 <= x < 128
  }

  /** Conversion of an int to a signed 8-bit integer, wrapping around modulo 256. */
  function Wrap8(x: int): (r: int)
    ensures Int8(r)
    ensures (r - x) % 256 == 0
    ensures Int8(x) ==> r == x
  {
    (x + 128) % 256 - 128
  }

  /** The set holding n, empty for null: the nodes a write through n can reach. */
  function NodeSet<V>(n: Node?<V>): set<Node<V>>
  {
    if n == null then {} else {n}
  }

  /** The left child of n when left holds, the right child otherwise. */
  function ChildOn<V>(n: Node<V>, left: bool): Node?<V>
    reads n
  {
    if left then n.left else n.right
  }

  class Node<V> {
    var key: int
    var value: V
    var parent: Node?<V>
    var left: Node?<V>
    var right: Node?<V>
    var balance: int

    /** A new node is a leaf with balance 0 below the given parent. */
    constructor (key: int, value: V, parent: Node?<V>)
      ensures this.key == key && this.value == value && this.parent == parent
      ensures left == null && right == null
      ensures balance == 0
    {
      this.key := key;
      this.value := value;
      this.parent := parent;
      left := null;
      right := null;
      balance := 0;
    }

    method SetBalance(b: int)
      requires Int8(b)
      modifies this`balance
      ensures balance == b
    {
      balance := b;
    }

    /** Adds diff to the balance; the sum is stored back into 8 bits. */
    method UpdateBalance(diff: int)
      requires Int8(diff)
      modifies this`balance
      ensures balance == Wrap8(old(balance) + diff)
      ensures Int8(old(balance) + diff) ==> balance == old(balance) + diff
    {
      balance := Wrap8(balance + diff);
    }
  }
}
