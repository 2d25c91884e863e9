/**
 * The shape of a parent-linked binary tree stored in an arena, and its
 * in-order sequence.
 *
 * A `Shape` is a ghost witness: the in-order sequence of the tree's node
 * indices, with the header sentinel last, and for every tree node the span
 * of positions its subtree fills in that sequence. `WellFormed` checks the
 * witness against the links node by node; `InOrderIsOrder` then shows that
 * the sequence is exactly what an in-order walk over the left/right links
 * produces, and `OrderIsUnique` that the links alone determine it.
 *
 * The header is the "end" position: its left child is the root, it has no
 * right child and no parent, and it sits after every real node.
 */
module Shapes {
  import opened Nodes

  /** A tree node's subtree fills positions lo .. hi-1; the node itself is at pos. */
  datatype Span = Span(lo: int, pos: int, hi: int)

  /** The in-order sequence of node indices (header last) and each node's span. */
  datatype Shape = Shape(order: seq<int>, spans: seq<Span>)

  /** The sentinel at the end of the in-order sequence. */
  ghost function Header(shape: Shape): int
    requires |shape.order| > 0
  {
    shape.order[|shape.order| - 1]
  }

  /** Node `i` is one of the tree's nodes (the header included). */
  ghost predicate InTree(nodes: Arena, shape: Shape, i: int)
  {
    && 0 <= i < |nodes|
    && |shape.spans| == |nodes|
    && 0 <= shape.spans[i].pos < |shape.order|
    && shape.order[shape.spans[i].pos] == i
  }

  /**
   * The local conditions on node `i`. A tombstone is out of the tree and its
   * `next` link points into the arena. A live node is in the tree, its span
   * is split by its own position between its left and right subtrees, its
   * children point back to it, and its parent (unless it is the header)
   * is a tree node that has it as a child.
   */
  ghost predicate NodeOK(nodes: Arena, shape: Shape, i: int)
  {
    && 0 <= i < |nodes|
    && |shape.spans| == |nodes|
    && |shape.order| > 0
    && var n, s := nodes[i], shape.spans[i];
       if n.deleted then
         0 <= n.next < |nodes| && !InTree(nodes, shape, i)
       else
         && InTree(nodes, shape, i)
         && 0 <= s.lo <= s.pos < s.hi <= |shape.order|
         && (n.left == Null ==> s.lo == s.pos)
         && (n.left != Null ==>
               && InTree(nodes, shape, n.left)
               && shape.spans[n.left].lo == s.lo
               && shape.spans[n.left].hi == s.pos
               && nodes[n.left].parent == i)
         && (n.right == Null ==> s.hi == s.pos + 1)
         && (n.right != Null ==>
               && InTree(nodes, shape, n.right)
               && shape.spans[n.right].lo == s.pos + 1
               && shape.spans[n.right].hi == s.hi
               && nodes[n.right].parent == i)
         && (i == Header(shape) ==> n.parent == Null)
         && (i != Header(shape) ==>
               && InTree(nodes, shape, n.parent)
               && (nodes[n.parent].left == i || nodes[n.parent].right == i))
  }

  /**
   * The arena holds a finite binary tree under a header sentinel, with
   * parent links consistent with child links, plus tombstones; `shape` is
   * its in-order layout. Child spans are strictly inside their parent's,
   * which rules out cycles.
   */
  ghost predicate WellFormed(nodes: Arena, shape: Shape)
  {
    && |shape.spans| == |nodes|
    && |shape.order| > 0
    && (forall k :: 0 <= k < |shape.order| ==>
          0 <= shape.order[k] < |nodes| && shape.spans[shape.order[k]].pos == k)
    && InTree(nodes, shape, Header(shape))
    && shape.spans[Header(shape)] == Span(0, |shape.order| - 1, |shape.order|)
    && (forall i :: 0 <= i < |nodes| ==> NodeOK(nodes, shape, i))
  }

  /** Live nodes are exactly the tree nodes. */
  lemma LiveIsInTree(nodes: Arena, shape: Shape, i: int)
    requires WellFormed(nodes, shape) && 0 <= i < |nodes|
    ensures Live(nodes, i) <==> InTree(nodes, shape, i)
  {
    assert NodeOK(nodes, shape, i);
  }

  /** The position after `x` in order: its in-order successor, or the header at the end. */
  ghost function InOrderNext(nodes: Arena, shape: Shape, x: int): int
    requires WellFormed(nodes, shape) && Live(nodes, x)
  {
    assert NodeOK(nodes, shape, x);
    var p := shape.spans[x].pos;
    if p + 1 < |shape.order| then shape.order[p + 1] else Header(shape)
  }

  /** The position before `x` in order: its in-order predecessor, or the header before the first node. */
  ghost function InOrderPrev(nodes: Arena, shape: Shape, x: int): int
    requires WellFormed(nodes, shape) && Live(nodes, x)
  {
    assert NodeOK(nodes, shape, x);
    var p := shape.spans[x].pos;
    if p > 0 then shape.order[p - 1] else Header(shape)
  }

  /** The in-order walk of the subtree rooted at `c` (empty for Null), read off the left/right links. */
  ghost function InOrder(nodes: Arena, shape: Shape, c: int): seq<int>
    requires WellFormed(nodes, shape) && (c == Null || InTree(nodes, shape, c))
    decreases if c == Null then 0 else shape.spans[c].hi - shape.spans[c].lo + 1
  {
    if c == Null then []
    else
      assert NodeOK(nodes, shape, c);
      InOrder(nodes, shape, nodes[c].left) + [c] + InOrder(nodes, shape, nodes[c].right)
  }

  /**
   * The positions lo .. hi-1 hold exactly the in-order walk of the subtree
   * rooted at `c`, when `c`'s span is lo .. hi (an absent child fills an
   * empty span).
   */
  lemma {:induction false} SubtreeIsInOrder(nodes: Arena, shape: Shape, c: int, lo: int, hi: int)
    requires WellFormed(nodes, shape)
    requires c == Null ==> 0 <= lo == hi <= |shape.order|
    requires c != Null ==> InTree(nodes, shape, c) && shape.spans[c].lo == lo && shape.spans[c].hi == hi
    ensures 0 <= lo <= hi <= |shape.order|
    ensures InOrder(nodes, shape, c) == shape.order[lo .. hi]
    decreases hi - lo
  {
    if c != Null {
      assert NodeOK(nodes, shape, c);
      var n, pos := nodes[c], shape.spans[c].pos;
      SubtreeIsInOrder(nodes, shape, n.left, lo, pos);
      SubtreeIsInOrder(nodes, shape, n.right, pos + 1, hi);
      JoinAt(shape.order, lo, pos, hi, InOrder(nodes, shape, n.left), InOrder(nodes, shape, n.right),
             InOrder(nodes, shape, c));
    }
  }

  /** Gluing the slices on either side of one position back together. */
  lemma JoinAt(o: seq<int>, lo: int, pos: int, hi: int, l: seq<int>, r: seq<int>, w: seq<int>)
    requires 0 <= lo <= pos < hi <= |o|
    requires l == o[lo .. pos] && r == o[pos + 1 .. hi]
    requires w == l + [o[pos]] + r
    ensures w == o[lo .. hi]
  {
  }

  /** The ghost in-order sequence is the in-order walk of the whole tree from the header. */
  lemma InOrderIsOrder(nodes: Arena, shape: Shape)
    requires WellFormed(nodes, shape)
    ensures InTree(nodes, shape, Header(shape))
    ensures InOrder(nodes, shape, Header(shape)) == shape.order
  {
    SubtreeIsInOrder(nodes, shape, Header(shape), 0, |shape.order|);
  }

  /** The in-order walk does not depend on which witness proved the tree finite. */
  lemma {:induction false} InOrderIndependent(nodes: Arena, s1: Shape, s2: Shape, i: int)
    requires WellFormed(nodes, s1) && InTree(nodes, s1, i)
    requires WellFormed(nodes, s2) && InTree(nodes, s2, i)
    ensures InOrder(nodes, s1, i) == InOrder(nodes, s2, i)
    decreases s1.spans[i].hi - s1.spans[i].lo
  {
    assert NodeOK(nodes, s1, i);
    assert NodeOK(nodes, s2, i);
    var n := nodes[i];
    if n.left != Null {
      InOrderIndependent(nodes, s1, s2, n.left);
    }
    if n.right != Null {
      InOrderIndependent(nodes, s1, s2, n.right);
    }
  }

  /** The header is the only live node without a parent. */
  lemma ParentlessIsHeader(nodes: Arena, shape: Shape, i: int)
    requires WellFormed(nodes, shape) && Live(nodes, i)
    ensures nodes[i].parent == Null <==> i == Header(shape)
  {
    assert NodeOK(nodes, shape, i);
  }

  /** The links alone determine the in-order sequence. */
  lemma OrderIsUnique(nodes: Arena, s1: Shape, s2: Shape)
    requires WellFormed(nodes, s1) && WellFormed(nodes, s2)
    ensures s1.order == s2.order
  {
    LiveIsInTree(nodes, s1, Header(s1));
    ParentlessIsHeader(nodes, s1, Header(s1));
    ParentlessIsHeader(nodes, s2, Header(s1));
    InOrderIsOrder(nodes, s1);
    InOrderIsOrder(nodes, s2);
    InOrderIndependent(nodes, s1, s2, Header(s1));
  }
}
