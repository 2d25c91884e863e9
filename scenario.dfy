/**
 * A concrete arena: the tree {1, 2, 3} after key 2 (the root) was erased.
 * Node 3 keeps the tombstone of key 2, whose `next` is the node of key 3;
 * the node of key 3 is the new root, with the node of key 1 as its left
 * child; node 0 is the header.
 */
module Scenario {
  import opened Nodes
  import opened Shapes
  import opened Iterators

  function ErasedRootArena(): Arena
  {
    [ Node(0, 0, 2, Null, Null, false, Null),   // header; its left child is the root
      Node(1, 10, Null, Null, 2, false, Null),  // key 1
      Node(3, 30, 1, Null, 0, false, Null),     // key 3, the root
      Node(2, 20, 1, 2, 0, true, 2) ]           // key 2, erased; next is key 3
  }

  ghost function ErasedRootShape(): Shape
  {
    Shape([1, 2, 0], [Span(0, 2, 3), Span(0, 0, 1), Span(0, 1, 2), Span(0, 0, 0)])
  }

  lemma ErasedRootIsWellFormed()
    ensures WellFormed(ErasedRootArena(), ErasedRootShape())
    ensures Header(ErasedRootShape()) == 0
  {
  }

  /**
   * Advancing from the first node visits keys 1 and 3 and then reaches
   * the header; an iterator left on the erased key 2 moves to key 3 whether
   * it is advanced or retreated; retreating from the header reaches key 3,
   * the largest key.
   */
  method ErasedRootWalk() returns (keys: seq<int>, atEnd: bool, advanced: int, retreated: int, last: int)
    ensures keys == [1, 3] && atEnd
    ensures advanced == 3 && retreated == 3
    ensures last == 3
  {
    var nodes := ErasedRootArena();
    ghost var shape := ErasedRootShape();
    ErasedRootIsWellFormed();
    var it := new TreeIterator(1);
    keys := [nodes[it.node].key];
    it.Next(nodes, shape);
    keys := keys + [nodes[it.node].key];
    it.Next(nodes, shape);
    atEnd := it.node == 0;
    var onTombstone := new TreeIterator(3);
    onTombstone.Next(nodes, shape);
    advanced := nodes[onTombstone.node].key;
    onTombstone := new TreeIterator(3);
    onTombstone.Prev(nodes, shape);
    retreated := nodes[onTombstone.node].key;
    it.Prev(nodes, shape);
    last := nodes[it.node].key;
  }
}
