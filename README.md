# AVL tree (avl.c) in Dafny

This project models the AVL tree engine of `avl.c`: integer keys kept in a
self-balancing binary search tree whose nodes cache their height and a
balance status (`avl_status`). It also models the driver in `main.c`, which
inserts seven keys, deletes one and queries the result.

It has three modules:

- **AvlTree** (`avl_tree.dfy`) is the engine on values. A `Tree` is `Nil` or
  a `Node` holding the key, the children, and the two cached fields `height`
  and `status`.
  - `newstatus`, `rebalance`, `rotateleft`, `rotateright`, `avl_insert` and
    `avl_delete` are functions that follow the C branch for branch, including
    the stored-status tests that choose between single and double rotations.
  - `Rebalance` is proved equal to `Balance`, a non-recursive textbook
    single/double rotation.
  - On `Balance` and on the results, the module proves:
    - the AVL invariant;
    - the in-order key sequence and key set of every operation;
    - the height bounds of insertion and deletion;
    - that cached heights equal real heights;
    - that height is logarithmic in size.
  - `rebalance` and the rotations call each other. Their termination is
    shown by a measure: the number of keys, then a rank computed from the
    heights of the top three levels. In the left-right case whose grandchild
    leans left, the nested `rebalance` inside `rotateleft` rotates back.
    The overall result is still the textbook double rotation, and the model
    follows this detour as written.
- **AvlHeap** (`avl_heap.dfy`) is the engine on node objects.
  - `AvlNode` is a class with the fields of `struct avl_node`, plus ghost `Repr`
    (the footprint) and ghost `Model` (the subtree as an `AvlTree.Tree`).
  - Insertion, deletion, rebalancing and the rotations update nodes in
    place. Each is proved to produce exactly the value the matching AvlTree
    function computes.
  - Search, min, max, predecessor and successor are cursor loops with
    invariants. Each is proved against the key set of the tree it walks.
  - Traversal is a recursive function that returns the visited keys.
  - Several C functions are split over two or three methods, so that each
    proof stays small: one method per branch of a switch or per half of a
    rotation. For the same reason every method also takes the footprints and
    values of the subtrees it is handed as ghost parameters, although
    `Valid()` already determines them.
- **AvlDemo** (`avl_demo.dfy`) is the run of `main.c`. It builds the tree and
  proves the values the program prints: min 4, max 42, keys
  4 8 15 16 23 42, predecessor of 15 is 8, and successor of 17 is 23.

## Model

| member | source | states |
|---|---|---|
| AvlTree.NewStatus | avl.c:32-44 | the status is DOUBLY_LEFT_HEAVY, LEFT_HEAVY, RIGHT_HEAVY or DOUBLY_RIGHT_HEAVY exactly when the difference is -2, -1, 1 or 2; it is below AVL_VIOLATIVE iff the difference is in -1..1 and below AVL_INVALID iff it is in -2..2 |
| AvlTree.Ordinal | avl.c:8-16 | the position of each `avl_status` value in its declaration, which the debug assertions compare; no contract of its own (`NewStatus` states the two thresholds) |
| AvlTree.Larger | avl.c:3 | the `max` macro on two heights; no contract of its own (it is used only inside the height facts of `Avl`, `Recomputed` and the lemmas about them) |
| AvlTree.Height | avl.c:4 | the `height` macro on a subtree value: the cached height, -1 for an empty subtree; no contract of its own (`CachedHeightIsDepth` proves the cached height is the real one) |
| AvlTree.Recomputed | avl.c:92-93 | the first two statements of `rebalance` with the `newheight` macro of avl.c:5-6: a node over the children with fresh height and status; no contract of its own (`RebalanceIdle` proves it is a valid AVL node when the children differ by at most one) |
| AvlTree.Rebalance | avl.c:85-116 | `rebalance` on values, branch for branch; no contract of its own: `RebalanceMatchesBalance` proves it equals the reference `Balance`, and `RebalanceSound` gives its AVL, in-order, key-set and height properties |
| AvlTree.RotateLeft | avl.c:49-62 | `rotateleft` on values (rebalance the lowered node, then the raised one); no contract of its own: `RotateLeftMatchesBalance` and `RotateLeftKeepsInOrder` carry its properties |
| AvlTree.RotateRight | avl.c:67-80 | `rotateright` on values; no contract of its own: `RotateRightMatchesBalance` and `RotateRightKeepsInOrder` carry its properties |
| AvlTree.RebalanceMatchesBalance | avl.c:85-116 | `rebalance` (recompute, then for a doubly heavy node an optional inner rotation chosen by the child's stored status and an outer rotation) equals the textbook single/double rotation `Balance` on every valid input |
| AvlTree.RotateLeftMatchesBalance | avl.c:49-62 | `rotateleft` (lower the node to the left, rebalance it, then rebalance the raised right child) equals `Balance` over the recomputed lowered node |
| AvlTree.RotateRightMatchesBalance | avl.c:67-80 | mirror image of `rotateleft` for `rotateright` |
| AvlTree.LeftHeavyArm | avl.c:98-105 | in the DOUBLY_LEFT_HEAVY arm, the left child after the optional left rotation is valid, has the same size, meets `rotateright`'s requirements and lowers the rank; the arm's result is the whole of `rebalance` |
| AvlTree.RightHeavyArm | avl.c:106-113 | mirror image for the DOUBLY_RIGHT_HEAVY arm |
| AvlTree.InnerRotationLeft | avl.c:102-104 | the reference form of the left-right step: a RIGHT_HEAVY left child, rotated left, leaves an AVL child on which the right rotation yields `Balance` of the original node |
| AvlTree.InnerRotationRight | avl.c:110-112 | mirror image for a LEFT_HEAVY right child |
| AvlTree.BalanceAvl | avl.c:97-113 | restructuring children that are valid and differ in height by at most two gives a valid AVL node whose height is the higher child's or one more |
| AvlTree.BalanceSound | avl.c:85-116 | the restructured node is AVL, keeps the in-order key sequence and key set, stays ordered, and is exactly one higher than the higher child when no rotation is due |
| AvlTree.RebalanceSound | avl.c:85-116 | `rebalance` returns a valid AVL subtree with the children's in-order keys around `k`, the same key set, and a height between the higher child's and one more; it stays ordered when the input was |
| AvlTree.RebalanceKeys | avl.c:85-116 | `rebalance` keeps the key set, and keeps the search-tree order |
| AvlTree.RebalanceIdle | avl.c:92-115 | a node whose children differ by at most one is only given a fresh height and status |
| AvlTree.RotateLeftSteps | avl.c:58-61 | the node `rotateleft` lowers needs no rotation, and the raised child is then rebalanced over the same number of keys, with a height difference of at most two |
| AvlTree.RotateRightSteps | avl.c:76-79 | mirror image for `rotateright` |
| AvlTree.RotateLeftKeepsInOrder | avl.c:49-62 | `rotateleft` keeps the in-order key sequence |
| AvlTree.RotateRightKeepsInOrder | avl.c:67-80 | `rotateright` keeps the in-order key sequence |
| AvlTree.InOrderSound | avl.c:302-312 | the traversal visits each node's key once, visits exactly the tree's keys, and is strictly ascending iff the tree is a search tree |
| AvlTree.LeftmostKey | avl.c:141-149 | the key reached by following left children is in the tree, and in a search tree it is the least key |
| AvlTree.RightmostKey | avl.c:154-162 | the key reached by following right children is in the tree, and in a search tree it is the greatest key |
| AvlTree.Insert | avl.c:232-258 | insertion into a valid AVL tree gives a valid AVL tree whose height grew by zero or one |
| AvlTree.Delete | avl.c:263-296 | deletion from a valid AVL tree gives a valid AVL tree whose height shrank by zero or one |
| AvlTree.InsertKeys | avl.c:232-258 | the inserted tree's keys are the old keys plus `k`, and order is kept |
| AvlTree.InsertPresent | avl.c:255-256 | inserting a key already present returns the tree unchanged |
| AvlTree.DeleteKeys | avl.c:263-296 | in a search tree, the deleted tree's keys are the old keys minus `k`, and order is kept |
| AvlTree.DeleteTopKeys | avl.c:279-293 | removing the matching node (by its single child, or by a new node holding the in-order successor) removes exactly that key and keeps order |
| AvlTree.DeleteAbsent | avl.c:270-278 | deleting a key that is not present returns the tree unchanged |
| AvlTree.InsertThenDelete | avl.c:232-296 | inserting a new key and deleting it again restores the key set |
| AvlTree.AvlIsSettled | avl.c:248-250 | every node of a valid AVL tree has a status below AVL_VIOLATIVE, so the debug assertions on entry to insert and delete hold |
| AvlTree.CachedHeightIsDepth | avl.c:4-6 | in a valid AVL tree the cached height the `height` macro reads is the real height (-1 for an empty tree) |
| AvlTree.LogarithmicHeight | avl.c:85-116 | a tree kept valid by `rebalance` with height h holds at least 2^((h+1)/2) - 1 keys |
| AvlHeap.AvlNode | avl.c:18-24 | `struct avl_node` as a class with the same five fields, plus ghost `Repr` and `Model`; `Valid()` states that the subtree is unshared and finite and that `Model` is its value |
| AvlHeap.Sentinel | avl.h:8 | AVL_SENTINEL, -1, the value the queries return when there is no key to return |
| AvlHeap.AvlNode.Leaf | avl.c:239-246 | the new node is a valid one-node subtree: height 0, BALANCED, no children |
| AvlHeap.HeightOf | avl.c:4 | the `height` macro on a pointer is the height of the subtree's value, -1 for NULL |
| AvlHeap.Refresh | avl.c:92-93 | recomputing height and status makes the node a valid node over its children, without touching keys or links |
| AvlHeap.Rebalance | avl.c:85-116 | in place, the returned top is a valid subtree within the original nodes whose value is `AvlTree.Rebalance` of the children |
| AvlHeap.FixLeftHeavy | avl.c:98-105 | the DOUBLY_LEFT_HEAVY arm in place yields `AvlTree.Rebalance` of the node |
| AvlHeap.PrepareLeft | avl.c:102-103 | a RIGHT_HEAVY left child is replaced by its left rotation in place, and other children are left as they are |
| AvlHeap.FixRightHeavy | avl.c:106-113 | the DOUBLY_RIGHT_HEAVY arm in place yields `AvlTree.Rebalance` of the node |
| AvlHeap.PrepareRight | avl.c:110-111 | a LEFT_HEAVY right child is replaced by its right rotation in place |
| AvlHeap.RotateLeft | avl.c:49-62 | in place, the returned top is a valid subtree whose value is `AvlTree.RotateLeft` of the node |
| AvlHeap.LowerLeft | avl.c:58-60 | after unlinking the right child and handing its left subtree to the node, the rebalanced node is valid with value `AvlTree.Rebalance` over it, disjoint from the right child's right subtree |
| AvlHeap.RaiseRight | avl.c:60-61 | linking the lowered node as the left child and rebalancing the raised node yields `AvlTree.Rebalance` of the raised node |
| AvlHeap.RotateRight | avl.c:67-80 | in place, the returned top is a valid subtree whose value is `AvlTree.RotateRight` of the node |
| AvlHeap.LowerRight | avl.c:76-78 | mirror image of `LowerLeft` |
| AvlHeap.RaiseLeft | avl.c:78-79 | mirror image of `RaiseRight` |
| AvlHeap.Insert | avl.c:232-258 | insertion in place returns a valid tree whose value is `AvlTree.Insert`; every node of the result that was not in the input is newly allocated |
| AvlHeap.InsertLeft | avl.c:251-252 | the left-descent branch in place yields `AvlTree.Rebalance` of the node over the inserted left subtree |
| AvlHeap.InsertRight | avl.c:253-254 | the right-descent branch in place yields `AvlTree.Rebalance` over the inserted right subtree |
| AvlHeap.Delete | avl.c:263-296 | deletion in place returns NULL or a valid tree whose value is `AvlTree.Delete` |
| AvlHeap.DeleteLeft | avl.c:275-276 | the left-descent branch in place yields `AvlTree.Rebalance` over the left subtree with the key deleted |
| AvlHeap.DeleteRight | avl.c:277-278 | the right-descent branch in place yields `AvlTree.Rebalance` over the right subtree with the key deleted |
| AvlHeap.ReplaceBySuccessor | avl.c:284-292 | a matching node with two children is replaced by a new node holding the least key of the right subtree; the result's value is `AvlTree.Delete` of the node's key |
| AvlHeap.AdoptRemainder | avl.c:288-290 | the new node takes the right subtree with its least key deleted, and is rebalanced |
| AvlHeap.Search | avl.c:121-136 | returns 0 or 1, and 1 only for a key in the tree; in a search tree it returns 1 iff the key is present |
| AvlHeap.Min | avl.c:141-149 | returns AVL_SENTINEL for an empty tree, otherwise a key of the tree, which in a search tree is the least |
| AvlHeap.Max | avl.c:154-162 | returns AVL_SENTINEL for an empty tree, otherwise a key of the tree, which in a search tree is the greatest |
| AvlHeap.Predecessor | avl.c:168-195 | returns AVL_SENTINEL or a key of the tree; in a search tree it is AVL_SENTINEL when no key is below `k`, and otherwise the greatest key below `k` |
| AvlHeap.Successor | avl.c:200-227 | returns AVL_SENTINEL or a key of the tree; in a search tree it is AVL_SENTINEL when no key is above `k`, and otherwise the least key above `k` |
| AvlHeap.Traverse | avl.c:302-312 | the keys handed to the callback, in order: each key once, exactly the tree's keys, ascending in a search tree |
| AvlDemo.Add | main.c:15-21 | one `avl_insert` call of main.c on an ordered AVL tree: the result is a valid, ordered AVL tree holding the old keys plus `k`, and every node it has that was not in the input is newly allocated |
| AvlDemo.InsertAll | main.c:15-21 | inserting a list of keys into an empty tree gives a valid, ordered AVL tree holding exactly those keys |
| AvlDemo.Build | main.c:13-22 | after the seven insertions and the deletion of 22 the tree holds exactly 4, 8, 15, 16, 23, 42 |
| AvlDemo.MinOfFinal | main.c:24 | `avl_min` returns 4 |
| AvlDemo.MaxOfFinal | main.c:25 | `avl_max` returns 42 |
| AvlDemo.TraverseFinal | main.c:27 | `avl_traverse` visits 4, 8, 15, 16, 23, 42 in that order |
| AvlDemo.PredecessorInFinal | main.c:29 | `avl_predecessor(t, 15)` returns 8 |
| AvlDemo.SuccessorInFinal | main.c:30 | `avl_successor(t, 17)` returns 23 |
| AvlDemo.Scenario | main.c:13-30 | the whole run yields min 4, max 42, keys 4 8 15 16 23 42, predecessor 8 and successor 23 |

## Left out

- `avl_malloc` is `new`. Allocation failure is not modelled, because the C code does not check for it either.
- `avl_free` in `avl_delete` is modelled as dropping the node from the footprint. Reclaiming memory is outside Dafny's heap model.
- The callback of `avl_traverse` is replaced by the returned sequence of keys, handed over in callback order. What the callback does with them is the caller's I/O.
- The `printf` output of `main.c` is left out. The demo proves the printed values instead.
- Keys are unbounded `int`. The C `int` is 32-bit, but the engine only compares keys and never computes with them. Cached heights are logarithmic in the number of nodes (`AvlTree.LogarithmicHeight`), so they cannot overflow.
- The debug assertions (`avl_debug`) become proof obligations rather than run-time checks:
  - the non-NULL children asserted before rotations;
  - the status below AVL_INVALID in `rebalance`;
  - the status below AVL_VIOLATIVE in insert and delete.
  
  Build variants with debugging switched off are not modelled separately.
- AvlHeap.Rebalance: it requires valid AVL children whose heights differ by at most two. The C code asserts only the derived status, but every caller in `avl.c` meets this requirement.
- AvlHeap.Search: "returns 1 iff the key is present" is stated for search-ordered trees only. For an arbitrary tree the contract says only that 1 implies presence, which is all the descent guarantees.
- AvlHeap.Predecessor: the greatest-key-below property is stated for search-ordered trees only. Otherwise the contract says only that the result is AVL_SENTINEL or a key of the tree.
- AvlHeap.Successor: the same restriction as `Predecessor`.
- AVL_SENTINEL (-1) is also a valid key. The contracts of `Min`, `Max`, `Predecessor` and `Successor` tell the two cases apart through the key set rather than through the returned value, as a caller of the C code would have to.
- The heap methods take ghost parameters naming the footprints and values of the subtrees they are given. These parameters do not exist in C.
- Aliasing between separate trees is excluded: each tree owns its nodes.
