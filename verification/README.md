# Red-black tree (rb.c) in Dafny

This project models the red-black tree of `rb.c`. The tree is an ordered multiset of `int` keys, and a shared BLACK sentinel `nil` stands in for null links. The design is the one of Cormen et al., *Introduction to Algorithms*, chapter 13. The model covers:

- the two rotations;
- insertion: a search-tree descent in which ties go right, followed by the `insertFixup` recolour/rotate loop;
- deletion: `deleteKey` searches, `deleteNode` splices the node out with `transplant` and, for a node with two children, its successor from `minimum`, and the `deleteFixup` loop repairs the colouring;
- the in-order and level-order walks.

The tree is an immutable datatype `Tree = Leaf | Node(color, left, key, right)`. `Leaf` plays the sentinel.

The C code moves through the tree along `parent` pointers. The model replaces them with a zipper: a `Path` lists the ancestors of the current node, each with its side, colour, key and other subtree. `Plug` rebuilds the whole tree from a subtree and its path.

Each fixup loop becomes two functions:

- a one-iteration function, `InsertStep` or `DeleteStep`, which follows the C code's case split and its mirror case by case;
- a recursive loop function, `InsertFixup` or `DeleteFixup`.

Modules:

- `RbTree` (rbtree.dfy): the tree, its key multiset, and the order and colouring predicates.
- `Traversal` (traversal.dfy): the in-order walk, sortedness, and level order.
- `Context` (context.dfy): paths, `Plug` and `transplant`, and how the colouring predicates of the whole tree read off a subtree and its path.
- `Rotation` (rotation.dfy): `leftRotate` and `rightRotate`.
- `Insertion` (insertion.dfy): `insert` and `insertFixup`.
- `Deletion` (deletion.dfy): `minimum`, `deleteKey`, `deleteNode` and `deleteFixup`.
- `Scenarios` (scenarios.dfy): worked examples on concrete trees.

The order invariant follows the code, not the textbook's strict search tree. `insert` sends a key equal to a node's key to the right, so duplicate keys are stored as extra nodes. A later rotation can then move an equal key to the left of its twin (`Scenarios.InsertTies`). The model's `Ordered` is therefore non-strict: every key on the left is ≤ the node's key, and every key on the right is ≥ it. Equivalently, the in-order walk is non-decreasing (`Traversal.OrderedIffSorted`). A strict ordering invariant ("left < key < right") is not kept by this code once a key is inserted twice.

## Model

| member | source | states |
|---|---|---|
| RbTree.Blacken | rb.c:105 | painting a node BLACK keeps its keys and its being a node, and leaves it BLACK; the sentinel stays the sentinel |
| Rotation.RotateLeft | rb.c:41-51 | left rotation keeps the in-order key sequence. `y` (x's right child) takes x's place with its colour, x becomes y's left child with its colour, y's former left subtree becomes x's right subtree, and a right rotation undoes it |
| Rotation.RotateRight | rb.c:55-65 | right rotation keeps the in-order key sequence; x (y's left child) takes y's place, y becomes x's right child, and x's former right subtree becomes y's left subtree |
| Rotation.RotateRightLeft | rb.c:41-65 | a left rotation undoes a right rotation |
| Traversal.InorderKeys | rb.c:250-256 | the in-order walk visits every stored key exactly once: its multiset is the tree's key multiset and its length is the node count |
| Traversal.OrderedIffSorted | rb.c:250-256 | a tree satisfies the search-tree order if and only if its in-order walk is non-decreasing |
| Traversal.Children | rb.c:276-277 | the nodes enqueued for a visited node are its non-sentinel children, carrying exactly the keys and nodes of its two subtrees |
| Traversal.Visit | rb.c:274-277 | one round of the level-order loop emits the front node's key and trades that node for its non-sentinel children, so the keys emitted plus the keys still queued stay the same and the queued node count drops |
| Traversal.LevelOrder | rb.c:267-280 | level order emits nothing for the empty tree; otherwise it emits the root's key first, and exactly the same multiset of keys as the in-order walk, one per node |
| Context.Transplant | rb.c:135-140 | replacing the subtree at `u` by `v` leaves the in-order keys before and after `u` untouched, and the key multiset loses u's keys and gains v's |
| Insertion.BstInsert | rb.c:115-124 | reference search-tree insertion (a new RED leaf, smaller keys left, ties right) adds exactly one occurrence of the key and removes nothing |
| Insertion.BstInsertOrdered | rb.c:115-124 | the reference insertion (ties go right) keeps the search-tree order |
| Insertion.Descend | rb.c:115-124 | the descent ends at a sentinel of the same tree, and linking a RED node with the key there gives the reference insertion |
| Insertion.InsertStep | rb.c:71-103 | one insertFixup iteration (cases 1-3 and mirrors) keeps the in-order sequence and moves strictly up the tree |
| Insertion.InsertFixup | rb.c:69-106 | insertFixup keeps the in-order sequence of the tree |
| Insertion.Insert | rb.c:110-131 | insert adds exactly one occurrence of the key and removes nothing, and the in-order walk is that of the reference insertion |
| Insertion.InsertStepKeepsInvariant | rb.c:71-103 | each insertFixup iteration keeps the loop state: a RED node whose only possible defect is a RED parent (or a RED root when it is the root) |
| Insertion.InsertFixupRedBlack | rb.c:69-106 | when insertFixup ends and the root is painted BLACK, the tree is a red-black tree |
| Insertion.InsertRedBlack | rb.c:110-131 | insert turns a red-black tree into a red-black tree: BLACK root, no RED node with a RED child, equal black-heights |
| Insertion.InsertOrdered | rb.c:110-131 | insert keeps the search-tree order, so the in-order walk stays non-decreasing |
| Deletion.Find | rb.c:241-245 | the search stops at a node holding the key, or at a sentinel; in an ordered tree that holds the key it always finds a node |
| Deletion.Minimum | rb.c:144-147 | minimum returns the leftmost node of a non-empty subtree: a node with no left child whose key comes first in the subtree's in-order walk. Nothing of the surrounding tree moves, and in an ordered subtree every key is ≥ the returned key |
| Deletion.Splice | rb.c:209-233 | unlinking a node (with one child, or via its successor) removes exactly its key from the in-order sequence, everything else in place |
| Deletion.SplitAtLeftmost | rb.c:144-147 | the node minimum stops at holds the first key of the subtree, and replacing it by its right child removes exactly that key |
| Deletion.SuccessorSplice | rb.c:219-233 | moving the successor into a two-child node's place, with the node's colour and left subtree, removes exactly that node's key from the in-order sequence |
| Deletion.RedFarChild | rb.c:165-170 | case 3 of deleteFixup (mirrored at 189-194) keeps the sibling's in-order keys and leaves the sibling's far child RED |
| Deletion.RotateFar | rb.c:165-175 | cases 3 and 4 of deleteFixup (and mirrors at 189-199) rebuild the parent's subtree as a node of the parent's colour with the same in-order keys |
| Deletion.RotateFarRedBlack | rb.c:165-175 | cases 3 and 4 repair the missing BLACK: the rebuilt subtree has no RED-RED edge, is balanced, and has the parent's original black-height |
| Deletion.SiblingCases | rb.c:161-176 | cases 2-4 keep the in-order sequence and do not increase the loop measure beyond the parent's |
| Deletion.DeleteStep | rb.c:153-201 | one deleteFixup iteration (cases 1-4 and mirrors) keeps the in-order sequence and strictly decreases the loop measure, so the loop terminates |
| Deletion.DeleteFixup | rb.c:151-204 | deleteFixup keeps the in-order sequence of the tree |
| Deletion.SiblingCasesKeepsInvariant | rb.c:161-200 | cases 2-4 keep the loop state: a tree that is red-black except for one BLACK missing on every path through `x` |
| Deletion.DeleteStepKeepsInvariant | rb.c:153-201 | each deleteFixup iteration, case 1 included, keeps that loop state |
| Deletion.DeleteFixupRedBlack | rb.c:151-204 | when deleteFixup ends and `x` is painted BLACK, the tree is a red-black tree |
| Deletion.SpliceChildRedBlack | rb.c:213-218 | replacing a node with at most one child by that child leaves a red-black tree if the node was RED, else deleteFixup's starting state |
| Deletion.RekeyRedBlack | rb.c:229-232 | the successor taking over a node's colour and position keeps the colouring invariants, since they ignore keys |
| Deletion.SpliceSuccessorRedBlack | rb.c:219-235 | moving the successor into a two-child node leaves a red-black tree if the successor was RED, else deleteFixup's starting state at the successor's old right child |
| Deletion.DeleteNode | rb.c:208-236 | deleteNode removes exactly the node's key from the in-order sequence and keeps every other key in place |
| Deletion.DeleteNodeRedBlack | rb.c:208-236 | deleteNode turns a red-black tree into a red-black tree |
| Deletion.DeleteKey | rb.c:240-247 | deleteKey of an absent key leaves the tree unchanged; of a present key in an ordered tree, it removes exactly one occurrence from the key multiset |
| Deletion.DeleteKeyRedBlack | rb.c:240-247 | deleteKey turns a red-black tree into a red-black tree, whether or not the key is present |
| Deletion.DeleteKeyInorder | rb.c:240-247 | deleteKey of a present key in an ordered tree drops one occurrence of the key from the in-order walk and leaves every other key in its place |
| Deletion.DeleteKeyOrdered | rb.c:240-247 | deleteKey keeps the search-tree order |
| Scenarios.InsertAscending | rb.c:110-131 | inserting 10, 20, 30 gives a BLACK 20 with RED children 10 and 30 |
| Scenarios.InsertTies | rb.c:115-124 | inserting 5 three times stores three nodes, and the rebalancing moves one 5 to the left of the root |
| Scenarios.DeleteRoot | rb.c:240-247 | deleting the root of a three-node tree moves its successor up; deleting an absent key changes nothing |
| Scenarios.DeleteRecolour | rb.c:161-164 | deleting a BLACK leaf whose sibling has BLACK children recolours the sibling RED |
| Scenarios.DeleteRotate | rb.c:171-175 | deleting a BLACK leaf whose sibling has a RED far child rotates at the parent |

## Left out

- `main`, the file I/O and the output formatting (`fopen`, `fscanf`, `fprintf`, the `print*` wrappers): the walks return their keys as a `seq<int>` instead of writing them.
- `createNode` and `createRBTree`: `malloc` and the sentinel's set-up become the constructors `Node(Red, Leaf, key, Leaf)` and `Leaf`. Allocation failure is not modelled. Neither is the fact that deleted nodes are never freed.
- Parent pointers, including the writes to the sentinel's `parent` field (rb.c:139, 223): a zipper path takes their place.
- The fixed 100-slot queue of `levelOrderTraversal`: the model's queue is an unbounded sequence. Every node is enqueued once, so the C array overflows once a tree has more than 100 nodes.
- The time-complexity comments: running time is not modelled.
- Configurations in which the C code would read the sentinel's uninitialised links: a RED parent with no grandparent in insertFixup, or a sentinel sibling in deleteFixup. The model ends the loop there. `InsertStepKeepsInvariant` and `DeleteStepKeepsInvariant` show that neither arises from a red-black tree.
- The strict-order invariant ("left < key < right"): duplicate keys break it, so the model keeps the non-strict order that the code actually maintains.
- Traversal.LevelOrder: states that the root comes first and which multiset of keys is emitted, but not the full breadth-first order.
- Deletion.DeleteKey: the multiset statement assumes an ordered tree. In a tree that breaks the order, the search can miss a key that is present, and then the tree is left unchanged.
- Keys are unbounded integers: `rb.c` only compares keys, so the width of C's `int` plays no part.
