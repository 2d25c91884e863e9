# Verified model of the B-Tree map's bidirectional tree iterator

The repository declares an ordered key-value container, `fefu::tree`, over a
parent-linked binary search tree. The only code with behaviour is its
bidirectional iterator (`tree_iterator`, and `tree_const_iterator`, whose
traversal code is the same). `operator++` moves an iterator to the in-order
successor of its node, provided the tree hangs below a header sentinel as the
model assumes (see "## Left out"). On a tombstoned (erased) node it jumps to the node's
recorded `next` node. On a live node it descends to the leftmost node of the
right subtree, or, when there is no right subtree, climbs parent links until
it arrives from a left child or reaches a node without a parent.
`operator--` is the mirror image, except that on a tombstone it also follows
`next`. Two iterators are equal when they refer to the same node.

## How the model is laid out

- `nodes.dfy` (module `Nodes`): the node record (key, value, left, right,
  parent, deleted, next). Nodes live in an arena, a `seq<Node>`, and link to
  each other by index, with `Null` (-1) for nullptr.
- `shapes.dfy` (module `Shapes`): what a well-formed arena is. There is a
  finite binary tree under a header sentinel, parent links agree with child
  links, and tombstones sit outside the tree with a `next` link into the
  arena. The header's left child is the root. It has no right child and no
  parent, and it is the "end" position: climbing off the largest node stops
  there. A ghost `Shape` gives the tree's in-order sequence, header last, and
  the span of positions each subtree fills. `WellFormed` checks it node by
  node. `InOrderIsOrder` proves the sequence is exactly the in-order walk of
  the left/right links. `ParentlessIsHeader` shows the header is the only live
  node without a parent, and `OrderIsUnique` that the links alone determine
  the sequence. `InOrderNext` and `InOrderPrev` read the neighbours off this
  sequence.
- `keyorder.dfy` (module `KeyOrder`): under the binary-search-tree property,
  the in-order neighbours are the live nodes with the least greater key and
  the greatest smaller key. The property is stated over positions of the
  in-order sequence; `KeysAroundLinks` restates it over the link subtrees.
- `iterators.dfy` (module `Iterators`): the iterator. There are four walk
  methods: descend the left spine, descend the right spine, climb until
  arriving from a left child, and climb until arriving from a right child.
  Each holds one `while` loop of the source and is proved against the
  in-order sequence. The class `TreeIterator` has a mutable `node` field and
  prefix/postfix `++`/`--` as `Next`, `PostNext`, `Prev` and `PostPrev`,
  plus `==`/`!=`.
- `scenario.dfy` (module `Scenario`): a concrete arena for the tree {1, 2, 3}
  after its root was erased, with the walks over it.

The iterator is passed the arena it walks (the heap of the C++ program) and
a ghost shape. Keys are modelled as `int` ordered by `<`; the source's
`Compare` parameter defaults to `std::less<K>`.

A symmetric iterator would move a tombstone to its predecessor on `--`. The
code follows `next` in both directions (include/B-Tree/tree.h:108-109), and so
does the model: `operator--` on a tombstone reaches the same node as
`operator++`.
`Scenario.ErasedRootWalk` shows this: an iterator left on the erased key 2
reaches key 3 in both directions.

## Model

| member | source | states |
|---|---|---|
| `Iterators.SubtreeMin` | include/B-Tree/tree.h:82-85 | The descent along left links ends at a tree node with no left child. Its in-order position is the first of the starting node's subtree, so it is that subtree's minimum. The loop terminates and stays inside the tree. |
| `Iterators.SubtreeMax` | include/B-Tree/tree.h:111-114 | The descent along right links ends at a tree node with no right child, at the last in-order position of the starting node's subtree (its maximum). The loop terminates and stays inside the tree. |
| `Iterators.ClimbPastSubtree` | include/B-Tree/tree.h:86-93 | The climb stops at a node without a parent (the header, when the subtree reaches the end of the order), or at the first ancestor entered from its left child. That ancestor's left subtree ends where the start node's subtree ends, and its in-order position is the one just after that subtree. |
| `Iterators.ClimbBeforeSubtree` | include/B-Tree/tree.h:115-122 | The mirror climb stops at a node without a parent (the header, when the subtree starts the order), or at the first ancestor entered from its right child. That ancestor's right subtree starts where the start node's subtree starts, and its position is the one just before that subtree. |
| `Iterators.TreeIterator.constructor` | include/B-Tree/tree.h:61-63 | A new iterator refers to the given node. |
| `Iterators.TreeIterator.Next` | include/B-Tree/tree.h:77-98 | On a tombstone, the iterator moves to the recorded `next` node. On a live node, it moves to the in-order successor, or to the header after the last node. From the header it stays put. It stays inside the arena. |
| `Iterators.TreeIterator.PostNext` | include/B-Tree/tree.h:100-104 | Returns a fresh iterator on the node it left and moves itself exactly as `Next` does. |
| `Iterators.TreeIterator.Prev` | include/B-Tree/tree.h:106-127 | On a tombstone, the iterator moves to the same `next` node that `Next` would reach. On a live node, it moves to the in-order predecessor, or to the header before the first node. From the header it moves to the last node. |
| `Iterators.TreeIterator.PostPrev` | include/B-Tree/tree.h:129-133 | Returns a fresh iterator on the node it left and moves itself exactly as `Prev` does. |
| `Iterators.TreeIterator.Equals` | include/B-Tree/tree.h:135-137 | Two iterators are equal exactly when they refer to the same node. |
| `Iterators.TreeIterator.NotEquals` | include/B-Tree/tree.h:139-141 | `!=` is the negation of `==`. |
| `KeyOrder.NextIsLeastGreater` | include/B-Tree/tree.h:77-98 | Under BST order, advancing from a live non-header node reaches the live node with the least key greater than its own. It reaches the header exactly when no live key is greater. |
| `KeyOrder.PrevIsGreatestLess` | include/B-Tree/tree.h:106-127 | Under BST order, retreating from a live non-header node reaches the live node with the greatest key less than its own. It reaches the header exactly when no live key is smaller. |
| `KeyOrder.PrevOfHeaderIsMaximum` | include/B-Tree/tree.h:110-114 | Retreating from the header (end) reaches the live node with the greatest key. It stays on the header exactly when the tree is empty. |
| `KeyOrder.NextOfHeaderIsHeader` | include/B-Tree/tree.h:86-93 | Advancing from the header leaves the iterator on the header: it has no right child and no parent, so the climb loop does not run. |
| `KeyOrder.PrevUndoesNext` | include/B-Tree/tree.h:77-127 | For every live node but the header, retreating after advancing returns to the node. |
| `KeyOrder.NextUndoesPrev` | include/B-Tree/tree.h:77-127 | For every live node whose predecessor is not the header, advancing after retreating returns to the node. |
| `KeyOrder.SubtreeSorted` | include/B-Tree/node.h:17-18 | If every node's left-subtree keys are smaller and its right-subtree keys larger, keys strictly increase across each subtree's in-order positions. |
| `KeyOrder.InOrderSorted` | include/B-Tree/node.h:17-18 | Under the BST property, keys strictly increase along the whole in-order sequence (header excluded). |
| `Shapes.LiveIsInTree` | include/B-Tree/tree.h:79 | In a well-formed arena, a node is live (not tombstoned) exactly when it is a node of the tree. So `is_deleted()` decides between following `next` and walking links. |
| `Shapes.SubtreeIsInOrder` | include/B-Tree/node.h:18 | The positions a subtree's span covers hold exactly the in-order walk of that subtree over its left/right links. An absent child (nullptr) walks to the empty sequence over an empty span. |
| `Shapes.InOrderIsOrder` | include/B-Tree/node.h:18 | The ghost in-order sequence equals the in-order walk of the whole tree from the header. |
| `Shapes.InOrderIndependent` | include/B-Tree/node.h:18 | The in-order walk from a node is the same whichever shape witness proves the tree finite. |
| `Shapes.OrderIsUnique` | include/B-Tree/node.h:18 | Any two well-formed shapes of the same arena have the same in-order sequence: the links alone fix it. |
| `Shapes.ParentlessIsHeader` | include/B-Tree/tree.h:88-93 | A live node has no parent exactly when it is the header, so the climbs stop either at an ancestor entered from the proper side or at the header. |
| `KeyOrder.KeysAroundLinks` | include/B-Tree/node.h:17-18 | Under the BST property, every key in the in-order walk of a node's left subtree is below the node's key, and every key in the walk of its right subtree is above it. |
| `Scenario.ErasedRootIsWellFormed` | include/B-Tree/node.h:14-19 | The arena of {1, 2, 3} after erasing 2 (root 3, left child 1, tombstone 2 with `next` = 3) is well formed. |
| `Scenario.ErasedRootWalk` | include/B-Tree/tree.h:77-127 | On that arena, advancing from key 1 visits keys 1 and 3 and then reaches end. The tombstone of 2 moves to key 3 under both `++` and `--`. Retreating from end reaches key 3. |

## Left out

- The pin/unpin statements `node_++`/`node_--` (include/B-Tree/tree.h:62, 78, 96, 107, 125, 162, 169, 182, 209, 222, 249). In C++ they step the `Node*` itself by one object (pointer arithmetic) and never touch a node's `ref` count. They also disagree with each other: line 209 decrements where line 96 increments, and only `tree_const_iterator` has an unpinning destructor (lines 168-170 against line 67). The model reads them as pin/unpin calls, which do not change which node the iterator refers to. It keeps no reference counts. Read as pointer arithmetic, they have a further consequence that the model does not capture. The copy constructor (line 65) delegates to the explicit constructor, so each copy steps one more `Node` past its original. The iterator that postfix `++`/`--` return (lines 101-103, 130-132) would then not compare equal to an iterator on the node it left. `Iterators.TreeIterator.PostNext` and `Iterators.TreeIterator.PostPrev` return an iterator on exactly the node left.
- Dereference `operator*`/`operator->` (include/B-Tree/tree.h:69-75, 172-178): they call `get_ref`/`get_pointer`, which node.h never declares.
- The default constructor (include/B-Tree/tree.h:59) leaves `node_` indeterminate. The model's methods require an iterator on a node of the arena. The copy constructor (line 65) appears only as the fresh iterator that `PostNext`/`PostPrev` return.
- `tree_const_iterator` (include/B-Tree/tree.h:148-272) is not a separate class. Its constructor from `tree_iterator`, its `++`/`--` and its `==`/`!=` do the same traversal as `tree_iterator`, apart from the pin lines above.
- The allocator (include/B-Tree/tree.h:16-42) only forwards to `::operator new`/`::operator delete`.
- Shapes.WellFormed, Iterators.TreeIterator.Next and Iterators.TreeIterator.Prev assume a header sentinel: a parentless node with no right child whose left child is the root. The source never builds one, since the `tree` body is empty (include/B-Tree/tree.h:292-293). The climbs at lines 88-93 and 117-122 stop at any node without a parent. In a headerless tree (root 2 with children 1 and 3, the root's parent nullptr), `++` from key 3 climbs to the root and lands on key 2, `--` from key 1 also lands on key 2, and no end position is ever reached. Such arenas are not `WellFormed`, and the model says nothing about them.
- The `tree` container (include/B-Tree/tree.h:274-294) has typedefs and an empty body: no insert, find, erase, rebalancing, begin or end exists to model. BST order and link consistency appear only as preconditions on the arena the iterator walks, and end is the header sentinel.
- node.h's constructors, `is_ref` and `operator++`/`operator--` (include/B-Tree/node.h:21-30) are declarations without bodies. The fields `ref`, `height` and `children` are not read by the iterator and are not in the record. The `deleted` flag and the `next` link, read through `is_deleted()` and `get_next()`, are added although node.h does not declare them. node.h takes its parameters as `<T, K>` while tree.h:276 instantiates `Node<const K, T>`.
- `std::reverse_iterator` typedefs (include/B-Tree/tree.h:288-289) and main.cpp (a console demo) are not modelled.
- The comparator is fixed to `<` on integer keys. Values are integers.
