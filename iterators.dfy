/**
 * The bidirectional tree iterator. One class stands for both tree_iterator
 * and tree_const_iterator, whose traversal code is the same. The iterator
 * holds the index of its current node; the arena is the heap it walks and is
 * passed in, together with the ghost shape that describes it.
 *
 * The four walks of operator++ and operator-- are methods of their own: the
 * descent along a left or a right spine, and the climb along parent links
 * until the node just left was the parent's left (resp. right) child.
 */
module Iterators {
  import opened Nodes
  import opened Shapes

  /**
   * Descends along left links from `n` until a node without a left child:
   * the first node of the subtree rooted at `n`.
   */
  method SubtreeMin(nodes: Arena, ghost shape: Shape, n: int) returns (m: int)
    requires WellFormed(nodes, shape) && InTree(nodes, shape, n)
    ensures InTree(nodes, shape, m) && nodes[m].left == Null
    ensures shape.spans[m].pos == shape.spans[n].lo
  {
    m := n;
    while nodes[m].left != Null
      invariant InTree(nodes, shape, m)
      invariant shape.spans[m].lo == shape.spans[n].lo
      decreases shape.spans[m].hi - shape.spans[m].lo
    {
      assert NodeOK(nodes, shape, m);
      m := nodes[m].left;
      assert NodeOK(nodes, shape, m);
    }
    assert NodeOK(nodes, shape, m);
  }

  /**
   * Descends along right links from `n` until a node without a right child:
   * the last node of the subtree rooted at `n`.
   */
  method SubtreeMax(nodes: Arena, ghost shape: Shape, n: int) returns (m: int)
    requires WellFormed(nodes, shape) && InTree(nodes, shape, n)
    ensures InTree(nodes, shape, m) && nodes[m].right == Null
    ensures shape.spans[m].pos == shape.spans[n].hi - 1
  {
    m := n;
    while nodes[m].right != Null
      invariant InTree(nodes, shape, m)
      invariant shape.spans[m].hi == shape.spans[n].hi
      decreases shape.spans[m].hi - shape.spans[m].lo
    {
      assert NodeOK(nodes, shape, m);
      m := nodes[m].right;
      assert NodeOK(nodes, shape, m);
    }
    assert NodeOK(nodes, shape, m);
  }

  /**
   * Climbs parent links from `x` until the node just left was the parent's
   * left child, or until a node without a parent. The result is the node
   * that follows the whole subtree of `x` in order, or the header when that
   * subtree reaches the end; in the first case `x`'s subtree ends exactly
   * where the result's left subtree ends.
   */
  method ClimbPastSubtree(nodes: Arena, ghost shape: Shape, x: int) returns (a: int)
    requires WellFormed(nodes, shape) && InTree(nodes, shape, x)
    ensures InTree(nodes, shape, a)
    ensures shape.spans[x].hi < |shape.order| ==> shape.spans[a].pos == shape.spans[x].hi
    ensures shape.spans[x].hi >= |shape.order| ==> a == Header(shape)
    ensures nodes[a].parent == Null ||
            (InTree(nodes, shape, nodes[a].left) && shape.spans[nodes[a].left].hi == shape.spans[x].hi)
  {
    a := x;
    while nodes[a].parent != Null
      invariant InTree(nodes, shape, a)
      invariant shape.spans[a].hi == shape.spans[x].hi
      decreases |shape.order| - (shape.spans[a].hi - shape.spans[a].lo)
    {
      assert NodeOK(nodes, shape, a);
      var from := a;
      a := nodes[a].parent;
      assert NodeOK(nodes, shape, a);
      if from == nodes[a].left {
        break;
      }
    }
    assert NodeOK(nodes, shape, a);
  }

  /**
   * Climbs parent links from `x` until the node just left was the parent's
   * right child, or until a node without a parent. The result is the node
   * that precedes the whole subtree of `x` in order, or the header when that
   * subtree starts the order; in the first case `x`'s subtree starts exactly
   * where the result's right subtree starts.
   */
  method ClimbBeforeSubtree(nodes: Arena, ghost shape: Shape, x: int) returns (a: int)
    requires WellFormed(nodes, shape) && InTree(nodes, shape, x)
    ensures InTree(nodes, shape, a)
    ensures shape.spans[x].lo > 0 ==> shape.spans[a].pos == shape.spans[x].lo - 1
    ensures shape.spans[x].lo <= 0 ==> a == Header(shape)
    ensures nodes[a].parent == Null ||
            (InTree(nodes, shape, nodes[a].right) && shape.spans[nodes[a].right].lo == shape.spans[x].lo)
  {
    a := x;
    while nodes[a].parent != Null
      invariant InTree(nodes, shape, a)
      invariant shape.spans[a].lo == shape.spans[x].lo
      decreases |shape.order| - (shape.spans[a].hi - shape.spans[a].lo)
    {
      assert NodeOK(nodes, shape, a);
      var from := a;
      a := nodes[a].parent;
      assert NodeOK(nodes, shape, a);
      if from == nodes[a].right {
        break;
      }
    }
    assert NodeOK(nodes, shape, a);
  }

  /** A cursor on one node of the arena. */
  class TreeIterator {
    var node: int

    /** An iterator parked on node `n`. */
    constructor (n: int)
      ensures node == n
    {
      node := n;
    }

    /**
     * operator++: a tombstone moves to its recorded `next` node; a live
     * node moves to its in-order successor (the header, i.e. end, after the
     * last node; the header itself stays put).
     */
    method Next(nodes: Arena, ghost shape: Shape)
      requires WellFormed(nodes, shape) && 0 <= node < |nodes|
      modifies this
      ensures 0 <= node < |nodes|
      ensures nodes[old(node)].deleted ==> node == nodes[old(node)].next
      ensures !nodes[old(node)].deleted ==> node == InOrderNext(nodes, shape, old(node))
    {
      var x := node;
      assert NodeOK(nodes, shape, x);
      if nodes[x].deleted {
        node := nodes[x].next;
      } else if nodes[x].right != Null {
        node := SubtreeMin(nodes, shape, nodes[x].right);
      } else {
        node := ClimbPastSubtree(nodes, shape, x);
      }
    }

    /** Postfix operator++: moves as Next does and returns an iterator on the node it left. */
    method PostNext(nodes: Arena, ghost shape: Shape) returns (prior: TreeIterator)
      requires WellFormed(nodes, shape) && 0 <= node < |nodes|
      modifies this
      ensures fresh(prior) && prior.node == old(node)
      ensures 0 <= node < |nodes|
      ensures nodes[old(node)].deleted ==> node == nodes[old(node)].next
      ensures !nodes[old(node)].deleted ==> node == InOrderNext(nodes, shape, old(node))
    {
      prior := new TreeIterator(node);
      Next(nodes, shape);
    }

    /**
     * operator--: a tombstone moves to its recorded `next` node, as
     * operator++ does; a live node moves to its in-order predecessor (the
     * header before the first node; from the header, the last node).
     */
    method Prev(nodes: Arena, ghost shape: Shape)
      requires WellFormed(nodes, shape) && 0 <= node < |nodes|
      modifies this
      ensures 0 <= node < |nodes|
      ensures nodes[old(node)].deleted ==> node == nodes[old(node)].next
      ensures !nodes[old(node)].deleted ==> node == InOrderPrev(nodes, shape, old(node))
    {
      var x := node;
      assert NodeOK(nodes, shape, x);
      if nodes[x].deleted {
        node := nodes[x].next;
      } else if nodes[x].left != Null {
        node := SubtreeMax(nodes, shape, nodes[x].left);
      } else {
        node := ClimbBeforeSubtree(nodes, shape, x);
      }
    }

    /** Postfix operator--: moves as Prev does and returns an iterator on the node it left. */
    method PostPrev(nodes: Arena, ghost shape: Shape) returns (prior: TreeIterator)
      requires WellFormed(nodes, shape) && 0 <= node < |nodes|
      modifies this
      ensures fresh(prior) && prior.node == old(node)
      ensures 0 <= node < |nodes|
      ensures nodes[old(node)].deleted ==> node == nodes[old(node)].next
      ensures !nodes[old(node)].deleted ==> node == InOrderPrev(nodes, shape, old(node))
    {
      prior := new TreeIterator(node);
      Prev(nodes, shape);
    }

    /** operator==: the same node. */
    function Equals(other: TreeIterator): (r: bool)
      reads this, other
      ensures r <==> node == other.node
    {
      node == other.node
    }

    /** operator!=: the negation of operator==. */
    function NotEquals(other: TreeIterator): (r: bool)
      reads this, other
      ensures r <==> !Equals(other)
    {
      !Equals(other)
    }
  }
}
