/**
 * The node records the iterators walk. Nodes live in an arena (a sequence)
 * and link to each other by index; `Null` plays the part of nullptr.
 */
module Nodes {

  /** The null link. */
  const Null: int := -1

  /**
   * One tree vertex: its key and value, the left/right/parent links, and the
   * tombstone state the iterator reads through is_deleted() and get_next().
   * `next` is only meaningful while `deleted` holds.
   */
  datatype Node = Node(
    key: int,
    value: int,
    left: int,
    right: int,
    parent: int,
    deleted: bool,
    next: int)

  /** All nodes, addressed by index. */
  type Arena = seq<Node>

  /** `i` names a node that has not been erased. */
  predicate Live(nodes: Arena, i: int)
  {
    0 <= i < |nodes| && !nodes[i].deleted
  }
}
