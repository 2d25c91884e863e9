/**
 * What the in-order neighbours mean for keys. Under the binary-search-tree
 * property (every key in a left subtree below the node's key, every key in
 * its right subtree above), the in-order successor of a live node is the
 * live node with the least greater key, and the header when there is none;
 * the predecessor is the mirror image.
 */
module KeyOrder {
  import opened Nodes
  import opened Shapes

  /** The binary-search-tree property at node `i` (the header has no key to compare). */
  ghost predicate KeysAround(nodes: Arena, shape: Shape, i: int)
    requires WellFormed(nodes, shape) && 0 <= i < |nodes|
  {
    assert NodeOK(nodes, shape, i);
    InTree(nodes, shape, i) && i != Header(shape) ==>
      var s := shape.spans[i];
      && (forall k :: s.lo <= k < s.pos ==> nodes[shape.order[k]].key < nodes[i].key)
      && (forall k :: s.pos < k < s.hi ==> nodes[i].key < nodes[shape.order[k]].key)
  }

  /** The binary-search-tree property at every node. */
  ghost predicate BstOrdered(nodes: Arena, shape: Shape)
    requires WellFormed(nodes, shape)
  {
    forall i :: 0 <= i < |nodes| ==> KeysAround(nodes, shape, i)
  }

  /**
   * The same property read off the links: every key in the in-order walk of
   * a node's left subtree is below the node's key, and every key in the walk
   * of its right subtree is above it.
   */
  lemma KeysAroundLinks(nodes: Arena, shape: Shape, i: int)
    requires WellFormed(nodes, shape) && BstOrdered(nodes, shape)
    requires InTree(nodes, shape, i) && i != Header(shape)
    ensures nodes[i].left == Null || InTree(nodes, shape, nodes[i].left)
    ensures nodes[i].right == Null || InTree(nodes, shape, nodes[i].right)
    ensures forall z :: z in InOrder(nodes, shape, nodes[i].left) ==>
              0 <= z < |nodes| && nodes[z].key < nodes[i].key
    ensures forall z :: z in InOrder(nodes, shape, nodes[i].right) ==>
              0 <= z < |nodes| && nodes[i].key < nodes[z].key
  {
    assert NodeOK(nodes, shape, i);
    assert KeysAround(nodes, shape, i);
    var n, s := nodes[i], shape.spans[i];
    SubtreeIsInOrder(nodes, shape, n.left, s.lo, s.pos);
    SubtreeIsInOrder(nodes, shape, n.right, s.pos + 1, s.hi);
    SliceKeysBelow(nodes, shape.order, s.lo, s.pos, InOrder(nodes, shape, n.left), n.key);
    SliceKeysAbove(nodes, shape.order, s.pos + 1, s.hi, InOrder(nodes, shape, n.right), n.key);
  }

  /** Keys below a bound at every position of a slice are below it for every member of the slice. */
  lemma SliceKeysBelow(nodes: Arena, o: seq<int>, lo: int, hi: int, w: seq<int>, key: int)
    requires 0 <= lo <= hi <= |o| && w == o[lo .. hi]
    requires forall k :: lo <= k < hi ==> 0 <= o[k] < |nodes| && nodes[o[k]].key < key
    ensures forall z :: z in w ==> 0 <= z < |nodes| && nodes[z].key < key
  {
  }

  /** Keys above a bound at every position of a slice are above it for every member of the slice. */
  lemma SliceKeysAbove(nodes: Arena, o: seq<int>, lo: int, hi: int, w: seq<int>, key: int)
    requires 0 <= lo <= hi <= |o| && w == o[lo .. hi]
    requires forall k :: lo <= k < hi ==> 0 <= o[k] < |nodes| && key < nodes[o[k]].key
    ensures forall z :: z in w ==> 0 <= z < |nodes| && key < nodes[z].key
  {
  }

  /** Keys strictly increase along the in-order sequence of a subtree. */
  lemma {:induction false} SubtreeSorted(nodes: Arena, shape: Shape, i: int)
    requires WellFormed(nodes, shape) && BstOrdered(nodes, shape)
    requires InTree(nodes, shape, i) && i != Header(shape)
    ensures 0 <= shape.spans[i].lo && shape.spans[i].hi <= |shape.order|
    ensures forall a, b :: shape.spans[i].lo <= a < b < shape.spans[i].hi ==>
              nodes[shape.order[a]].key < nodes[shape.order[b]].key
    decreases shape.spans[i].hi - shape.spans[i].lo
  {
    assert NodeOK(nodes, shape, i);
    assert KeysAround(nodes, shape, i);
    var n, s, o := nodes[i], shape.spans[i], shape.order;
    if n.left != Null {
      SubtreeSorted(nodes, shape, n.left);
    }
    if n.right != Null {
      SubtreeSorted(nodes, shape, n.right);
    }
    forall a, b | s.lo <= a < b < s.hi
      ensures nodes[o[a]].key < nodes[o[b]].key
    {
      if b < s.pos {
        assert n.left != Null;
      } else if s.pos < a {
        assert n.right != Null;
      } else if a < s.pos && s.pos < b {
        assert nodes[o[a]].key < n.key < nodes[o[b]].key;
      }
    }
  }

  /** Keys strictly increase along the in-order sequence, header excluded. */
  lemma InOrderSorted(nodes: Arena, shape: Shape)
    requires WellFormed(nodes, shape) && BstOrdered(nodes, shape)
    ensures forall a, b :: 0 <= a < b < |shape.order| - 1 ==>
              nodes[shape.order[a]].key < nodes[shape.order[b]].key
  {
    var h := Header(shape);
    assert NodeOK(nodes, shape, h);
    var root := nodes[h].left;
    if root != Null {
      SubtreeSorted(nodes, shape, root);
    }
  }

  /**
   * Advancing from a live node that is not the header lands on the live node
   * with the least key greater than its own, or on the header exactly when
   * no live key is greater.
   */
  lemma NextIsLeastGreater(nodes: Arena, shape: Shape, x: int)
    requires WellFormed(nodes, shape) && BstOrdered(nodes, shape)
    requires Live(nodes, x) && x != Header(shape)
    ensures Live(nodes, InOrderNext(nodes, shape, x))
    ensures InOrderNext(nodes, shape, x) == Header(shape) <==>
              forall z :: Live(nodes, z) && z != Header(shape) ==> nodes[z].key <= nodes[x].key
    ensures InOrderNext(nodes, shape, x) != Header(shape) ==>
              && nodes[x].key < nodes[InOrderNext(nodes, shape, x)].key
              && forall z :: Live(nodes, z) && z != Header(shape) && nodes[x].key < nodes[z].key ==>
                   nodes[InOrderNext(nodes, shape, x)].key <= nodes[z].key
  {
    InOrderSorted(nodes, shape);
    assert NodeOK(nodes, shape, x);
    var h, o, N, p := Header(shape), shape.order, |shape.order|, shape.spans[x].pos;
    assert o[p] == x && p < N - 1;
    var y := InOrderNext(nodes, shape, x);
    assert y == o[p + 1];
    assert y == h <==> p + 1 == N - 1;
    LiveIsInTree(nodes, shape, y);
    forall z | Live(nodes, z) && z != h
      ensures nodes[z].key <= nodes[x].key <==> shape.spans[z].pos <= p
      ensures shape.spans[z].pos < N - 1
    {
      LiveIsInTree(nodes, shape, z);
      var q := shape.spans[z].pos;
      assert o[q] == z;
      if q < p {
        assert nodes[o[q]].key < nodes[o[p]].key;
      } else if p < q {
        assert nodes[o[p]].key < nodes[o[q]].key;
      }
    }
    if y != h {
      assert nodes[o[p]].key < nodes[o[p + 1]].key;
      forall z | Live(nodes, z) && z != h && nodes[x].key < nodes[z].key
        ensures nodes[y].key <= nodes[z].key
      {
        LiveIsInTree(nodes, shape, z);
        var q := shape.spans[z].pos;
        assert o[q] == z;
        if p + 1 < q {
          assert nodes[o[p + 1]].key < nodes[o[q]].key;
        }
      }
    }
  }

  /**
   * Retreating from a live node that is not the header lands on the live
   * node with the greatest key less than its own, or on the header exactly
   * when no live key is smaller.
   */
  lemma PrevIsGreatestLess(nodes: Arena, shape: Shape, x: int)
    requires WellFormed(nodes, shape) && BstOrdered(nodes, shape)
    requires Live(nodes, x) && x != Header(shape)
    ensures Live(nodes, InOrderPrev(nodes, shape, x))
    ensures InOrderPrev(nodes, shape, x) == Header(shape) <==>
              forall z :: Live(nodes, z) && z != Header(shape) ==> nodes[x].key <= nodes[z].key
    ensures InOrderPrev(nodes, shape, x) != Header(shape) ==>
              && nodes[InOrderPrev(nodes, shape, x)].key < nodes[x].key
              && forall z :: Live(nodes, z) && z != Header(shape) && nodes[z].key < nodes[x].key ==>
                   nodes[z].key <= nodes[InOrderPrev(nodes, shape, x)].key
  {
    InOrderSorted(nodes, shape);
    assert NodeOK(nodes, shape, x);
    var h, o, N, p := Header(shape), shape.order, |shape.order|, shape.spans[x].pos;
    assert o[p] == x && p < N - 1;
    var y := InOrderPrev(nodes, shape, x);
    assert p > 0 ==> y == o[p - 1] && y != h;
    assert p == 0 ==> y == h;
    LiveIsInTree(nodes, shape, y);
    forall z | Live(nodes, z) && z != h
      ensures nodes[x].key <= nodes[z].key <==> p <= shape.spans[z].pos
      ensures 0 <= shape.spans[z].pos
    {
      LiveIsInTree(nodes, shape, z);
      var q := shape.spans[z].pos;
      assert o[q] == z;
      if q < p {
        assert nodes[o[q]].key < nodes[o[p]].key;
      } else if p < q {
        assert nodes[o[p]].key < nodes[o[q]].key;
      }
    }
    if p > 0 {
      assert nodes[o[p - 1]].key < nodes[o[p]].key;
      assert Live(nodes, y) && y != h && nodes[y].key < nodes[x].key;
      forall z | Live(nodes, z) && z != h && nodes[z].key < nodes[x].key
        ensures nodes[z].key <= nodes[y].key
      {
        LiveIsInTree(nodes, shape, z);
        var q := shape.spans[z].pos;
        assert o[q] == z;
        if q < p - 1 {
          assert nodes[o[q]].key < nodes[o[p - 1]].key;
        }
      }
    }
  }

  /**
   * Retreating from the header (the end position) lands on the live node
   * with the greatest key, and stays on the header only in an empty tree.
   */
  lemma PrevOfHeaderIsMaximum(nodes: Arena, shape: Shape)
    requires WellFormed(nodes, shape) && BstOrdered(nodes, shape)
    ensures Live(nodes, Header(shape))
    ensures Live(nodes, InOrderPrev(nodes, shape, Header(shape)))
    ensures InOrderPrev(nodes, shape, Header(shape)) == Header(shape) <==>
              forall z :: Live(nodes, z) ==> z == Header(shape)
    ensures InOrderPrev(nodes, shape, Header(shape)) != Header(shape) ==>
              forall z :: Live(nodes, z) && z != Header(shape) ==>
                nodes[z].key <= nodes[InOrderPrev(nodes, shape, Header(shape))].key
  {
    InOrderSorted(nodes, shape);
    var h, o, N := Header(shape), shape.order, |shape.order|;
    LiveIsInTree(nodes, shape, h);
    var y := InOrderPrev(nodes, shape, h);
    assert N > 1 ==> y == o[N - 2] && y != h;
    assert N == 1 ==> y == h;
    LiveIsInTree(nodes, shape, y);
    forall z | Live(nodes, z) && z != h
      ensures N > 1 && nodes[z].key <= nodes[y].key
    {
      LiveIsInTree(nodes, shape, z);
      var q := shape.spans[z].pos;
      assert o[q] == z && q < N - 1;
      if q < N - 2 {
        assert nodes[o[q]].key < nodes[o[N - 2]].key;
      }
    }
  }

  /** Advancing from the header stays on the header. */
  lemma NextOfHeaderIsHeader(nodes: Arena, shape: Shape)
    requires WellFormed(nodes, shape)
    ensures Live(nodes, Header(shape))
    ensures InOrderNext(nodes, shape, Header(shape)) == Header(shape)
  {
    LiveIsInTree(nodes, shape, Header(shape));
  }

  /** Retreating undoes advancing, for every live node but the header. */
  lemma PrevUndoesNext(nodes: Arena, shape: Shape, x: int)
    requires WellFormed(nodes, shape) && Live(nodes, x) && x != Header(shape)
    ensures Live(nodes, InOrderNext(nodes, shape, x))
    ensures InOrderPrev(nodes, shape, InOrderNext(nodes, shape, x)) == x
  {
    assert NodeOK(nodes, shape, x);
    var y := InOrderNext(nodes, shape, x);
    LiveIsInTree(nodes, shape, y);
  }

  /** Advancing undoes retreating, for every live node but the first. */
  lemma NextUndoesPrev(nodes: Arena, shape: Shape, x: int)
    requires WellFormed(nodes, shape) && Live(nodes, x)
    requires InOrderPrev(nodes, shape, x) != Header(shape)
    ensures Live(nodes, InOrderPrev(nodes, shape, x))
    ensures InOrderNext(nodes, shape, InOrderPrev(nodes, shape, x)) == x
  {
    assert NodeOK(nodes, shape, x);
    var y := InOrderPrev(nodes, shape, x);
    LiveIsInTree(nodes, shape, y);
  }
}
