# AVL tree of integers: a Dafny model

This project models the integer AVL tree of `AVL_Tree/avl_trees.cpp` and
`AVL_Tree/avl_trees.h`. It covers the `Node` record, the three insertion
status codes, the two rotations, the two rebalancers, the recursive insertion
with its public wrapper, the two constructors and the read-only queries
(`find`, `contains`, `get_min`, `get_max`, `get_next_higher`). Everything is
written as pure functions over an immutable tree:

- `Tree = Leaf | Node(data, bf, left, right)`. `Leaf` is the null pointer.
- A rotation or rebalancer that rewrites a `Node*&` slot in place returns the
  new subtree root instead, and the caller stores it.
- `find` returns the subtree rooted at the found node, or `Leaf` for
  `nullptr`.
- Keys are unbounded `int`. The source only compares keys, so 32-bit width
  plays no role.

Files, one module each:

| file | module | models |
|---|---|---|
| `nodes.dfy` | `Nodes` | `Node`, `Node(int)`, the `OP_*` codes, the outcome type |
| `tree_spec.dfy` | `TreeSpec` | ghost `InOrder`, `Entries`, `Keys`, `Bag` (the data as a multiset), `Height`, `TrueFactor`, `IsBST`, and the two balance claims of the doc-comments |
| `rotations.dfy` | `Rotations` | `rotate_left`, `rotate_right` |
| `rebalancing.dfy` | `Rebalancing` | `balance_left_heavy`, `balance_right_heavy`, their factor tables |
| `queries.dfy` | `Queries` | `find`, `contains`, `get_min`/`get_max` and their helpers, `get_next_higher` |
| `insertion.dfy` | `Insertion` | `insert(int, Node*&)` |
| `avl_tree.dfy` | `AvlTree` | the two constructors, `insert(int)`, a sequence of inserts |
| `traces.dfy` | `Traces` | concrete insertion sequences |

## Where the code departs from the textbook algorithm

The model follows the code as written, and it differs from the textbook AVL
algorithm in three places. Each departure is proved on a concrete input.

1. **The height signal over-propagates.** A node passes `OP_CHANGED_HEIGHT`
   upward whenever its child did and no rebalancer ran. This happens even
   when the node's factor has just returned to 0 (`UnwindLeft`,
   `UnwindRight`, `BalancedInsertStillReportsChange`). So ancestors' factors
   drift away from the true height differences. After 20, 10, 30, 5, 15 the
   root stores -2, but its true difference is -1 (`FactorsDriftFromHeights`).
   Adding 3 then stores -3 at the root. No rebalancer runs, because the code
   tests for exactly -2. The root's subtrees now differ in height by 2
   (`DriftLeadsToImbalance`). Past -2 the drift can go on: the signal stops
   only at the first node on the path whose factor hits exactly -2 or +2,
   where a rebalancer runs, even one that changes nothing. Inserting 12, 7, 17 and 4
   next, each reports a height change all the way up and moves the root's
   factor one more step. The root then stores -7 while its true difference is -3
   (`FurtherDriftTrace`, `FarDriftFromHeights`). Both comments in the header are therefore
   false of the trees the code builds: "factor = height difference" and
   "heights differ by at most 1".
2. **A pivot factor of exactly 0 falls through.** Neither branch of a
   rebalancer runs, so the node keeps its factor of -2 or +2. The insertion
   still reports that the height was maintained
   (`PivotFactorZeroFallsThrough`).
3. **The double rotations relink the wrong slot.** Each double-rotation
   branch rotates a local copy of the pivot pointer. It then stores the copy
   in the node's opposite child slot (`right_child` on line 88,
   `left_child` on line 139) and rotates the node. The result:
   - the node's original child link is never updated;
   - the node's other subtree becomes unreachable;
   - the three nodes form a cycle: pivot, node, secondary pivot, pivot.

   No tree value can describe that graph, so both branches return
   `Corrupt(Cycle(...))`. The `Cycle` value records each node's data and the
   factor the code leaves in it. The factors come from the switch tables as
   written. A null secondary pivot would be dereferenced by the switch; it
   gives `Corrupt(NullSecondary(...))`. Inserting 30, 10, 20 reaches the
   cycle (`LeftRightDoubleRotationCorrupts`), and so does its mirror image
   10, 30, 20. The right-heavy table's +1 row (node 0, pivot -1) is not the
   mirror image of the left-heavy table. Compared with the true heights
   after a correct relinking, that row is wrong: the correct factors are
   node -1, pivot 0 (`RightLeftTableVersusHeights`). The left-heavy table
   matches the true heights (`LeftRightTableMatchesHeights`).

The single rotations are correct. On a subtree with exact factors, a node at
-2 and a pivot at -1 (+2 and +1 for the mirror image), they restore exact
factors and lower the height by one (`SingleRightRotationRestoresBalance`,
`SingleLeftRotationRestoresBalance`). The sequences 10, 20, 30 and 20, 10, 5
produce the expected balanced trees.

## Model

| member | source | states |
|---|---|---|
| `Nodes.CodesDistinct` | AVL_Tree/avl_trees.h:16-18 | the three status codes are pairwise distinct integers |
| `TreeSpec.NewNodeIsValid` | AVL_Tree/avl_trees.h:27 | a new node holds exactly its item, has factor 0, no children, height 1, and is a valid balanced search tree |
| `TreeSpec.BagIsInOrder` | AVL_Tree/avl_trees.cpp:228-252 | the data counted with multiplicity are exactly the entries of the left-node-right walk |
| `TreeSpec.BstIffSorted` | AVL_Tree/avl_trees.cpp:228-252 | search-tree order holds exactly when the left-node-right walk visits the keys in strictly increasing order |
| `TreeSpec.ExactFactorsInRangeAreBalanced` | AVL_Tree/avl_trees.h:23-36 | when factors equal height differences, "all factors in -1..1" and "child heights differ by at most 1" are the same claim |
| `Rotations.RotateLeft` | AVL_Tree/avl_trees.cpp:17-31 | the right child becomes the root and the old root becomes its left child, holding the pivot's former left subtree; with no node or no right child nothing changes; the in-order sequence of (data, factor) pairs, the key set and search-tree order are preserved |
| `Rotations.RotateRight` | AVL_Tree/avl_trees.cpp:33-47 | mirror image of `RotateLeft` |
| `Rotations.RotationsAreInverse` | AVL_Tree/avl_trees.cpp:17-47 | a right rotation undoes a left rotation that moved something, and vice versa |
| `Rebalancing.BalanceLeftHeavy` | AVL_Tree/avl_trees.cpp:49-94 | pivot factor < 0: node and pivot factors become 0, then a right rotation; pivot factor 0: subtree unchanged; pivot factor > 0: `Corrupt`, a cycle whose factors follow the switch table, or `NullSecondary` when the pivot has no right child; any tree returned keeps the in-order keys and search-tree order |
| `Rebalancing.BalanceRightHeavy` | AVL_Tree/avl_trees.cpp:96-144 | mirror image of `BalanceLeftHeavy`, using the right-heavy table as written |
| `Rebalancing.SingleRightRotationRestoresBalance` | AVL_Tree/avl_trees.cpp:54-60 | on exact factors with node -2 and pivot -1, the repaired subtree has exact factors and is one level lower |
| `Rebalancing.SingleLeftRotationRestoresBalance` | AVL_Tree/avl_trees.cpp:101-108 | mirror image for node +2 and pivot +1 |
| `Rebalancing.LeftRightTableMatchesHeights` | AVL_Tree/avl_trees.cpp:67-85 | the left-heavy table gives the true factors that a correct left-right double rotation produces |
| `Rebalancing.RightLeftTableVersusHeights` | AVL_Tree/avl_trees.cpp:116-134 | the right-heavy table gives the true factors of a correct right-left rotation for secondary -1 and 0, but not for +1 |
| `Queries.Find` | AVL_Tree/avl_trees.cpp:254-271 | a returned node holds the target and is a subtree of the tree; on a search tree a node is returned exactly when the key is present |
| `Queries.Contains` | AVL_Tree/avl_trees.cpp:328-335 | true only for keys of the tree; on a search tree, true exactly for its keys |
| `Queries.MinHelper` | AVL_Tree/avl_trees.cpp:297-305 | on a null node the value is left as passed; otherwise the result is the first in-order key, and on a search tree the least key |
| `Queries.MaxHelper` | AVL_Tree/avl_trees.cpp:318-326 | on a null node the value is left as passed; otherwise the result is the last in-order key, and on a search tree the greatest key |
| `Queries.GetMin` | AVL_Tree/avl_trees.cpp:285-295 | 0 on an empty tree; otherwise the first in-order key, which on a search tree is the least key |
| `Queries.GetMax` | AVL_Tree/avl_trees.cpp:307-316 | 0 on an empty tree; otherwise the last in-order key, which on a search tree is the greatest key |
| `Queries.GetNextHigher` | AVL_Tree/avl_trees.cpp:345-369 | if the key is not found, or is found without a right child, the argument comes back unchanged; on a search tree any other answer is the least key above the argument |
| `Queries.FoundRightMinIsSuccessor` | AVL_Tree/avl_trees.cpp:350-363 | on a search tree, the leftmost key of the found node's right subtree is the successor among all keys of the tree |
| `Insertion.InsertAt` | AVL_Tree/avl_trees.cpp:156-212 | an empty slot receives a new node and reports a height change; any subtree returned is non-empty |
| `Insertion.UnwindLeft` | AVL_Tree/avl_trees.cpp:168-183 | a height-change report from the left moves the factor by exactly -1; the node reports maintained height only if its factor reached -2 and the rebalancer returned a tree; otherwise it reports a change, even when the factor became 0; other reports pass through unchanged; keys keep their order |
| `Insertion.UnwindRight` | AVL_Tree/avl_trees.cpp:185-200 | mirror image of `UnwindLeft`: +1 per report, threshold +2 |
| `Insertion.FailureIffFound` | AVL_Tree/avl_trees.cpp:168-206 | insertion reports failure exactly when `find` finds the key, and then returns the tree identical in shape and factors |
| `Insertion.InsertAddsExactlyK` | AVL_Tree/avl_trees.cpp:159-164 | a successful insertion adds exactly the new key to the multiset of data (`Bag`), and no other data is written |
| `Insertion.AddsExactlyKLeft` | AVL_Tree/avl_trees.cpp:168-183 | a descent to the left that does not fail adds exactly the new key, whatever the node then does with its factor or the left rebalancer |
| `Insertion.AddsExactlyKRight` | AVL_Tree/avl_trees.cpp:185-200 | mirror image of `AddsExactlyKLeft` for a descent to the right |
| `Insertion.InsertKeepsSearchOrder` | AVL_Tree/avl_trees.cpp:156-212 | on a search tree, an uncorrupted insertion yields a search tree whose keys are the old keys plus the new one |
| `AvlTree.EmptyTree` | AVL_Tree/avl_trees.h:43 | the empty tree contains no key, and `get_min`/`get_max` return 0 |
| `AvlTree.SingletonTree` | AVL_Tree/avl_trees.cpp:3-8 | the tree holds exactly the given key, which is its minimum and maximum, with an exact, in-range factor |
| `AvlTree.Insert` | AVL_Tree/avl_trees.cpp:146-154 | answers false exactly when the key is already found, and then nothing changes; on a search tree an uncorrupted insertion answers true exactly for a new key, adds exactly that key, keeps search order, and makes the key findable |
| `AvlTree.InsertAll` | AVL_Tree/avl_trees.cpp:146-154 | on a search tree, uncorrupted insertion of a sequence gives a search tree with the old keys plus all inserted keys |
| `Traces.AscendingKeysRotateLeft` | AVL_Tree/avl_trees.cpp:99-108 | 10, 20, 30 gives root 20 with children 10 and 30, all factors 0 |
| `Traces.DescendingKeysRotateRight` | AVL_Tree/avl_trees.cpp:52-60 | 20, 10, 5 gives root 10 with children 5 and 20, all factors 0 |
| `Traces.LeftRightDoubleRotationCorrupts` | AVL_Tree/avl_trees.cpp:61-92 | 30, 10, 20 ends in the corrupt cycle 10, 30, 20 |
| `Traces.RightLeftDoubleRotationCorrupts` | AVL_Tree/avl_trees.cpp:109-142 | 10, 30, 20 ends in the corrupt cycle 30, 10, 20 |
| `Traces.BalancedInsertStillReportsChange` | AVL_Tree/avl_trees.cpp:187-200 | an insertion that brings the factor back to 0 without changing the height still reports a height change |
| `Traces.PivotFactorZeroFallsThrough` | AVL_Tree/avl_trees.cpp:172-181 | a node that reaches -2 over a pivot of factor 0 stays unchanged at -2, and the insertion reports maintained height |
| `Traces.DriftTrace` | AVL_Tree/avl_trees.cpp:168-200 | 20, 10, 30, 5, 15 performs no rotation and leaves the root with factor -2 |
| `Traces.FactorsDriftFromHeights` | AVL_Tree/avl_trees.h:23 | in that tree the root's stored factor -2 differs from its true height difference -1 |
| `Traces.ImbalanceTrace` | AVL_Tree/avl_trees.cpp:172-181 | inserting 3 next pushes the root to -3 and no rebalancer runs |
| `Traces.DriftLeadsToImbalance` | AVL_Tree/avl_trees.h:32-36 | the resulting root's subtrees differ in height by 2, refuting the class comment |
| `Traces.FurtherDriftTrace` | AVL_Tree/avl_trees.cpp:168-200 | 20, 10, 30, 5, 15, 3, 12, 7, 17, 4 performs no rotation and leaves the root with factor -7 |
| `Traces.FarDriftFromHeights` | AVL_Tree/avl_trees.h:23 | in that tree the root stores -7 while its true height difference is -3, and its subtrees' heights differ by more than 1 |
| `Traces.MinMaxAndNextHigher` | AVL_Tree/avl_trees.cpp:345-369 | after 10, 20: maximum 20, minimum 10, next higher after 10 is 20 |
| `Traces.NextHigherIgnoresAncestors` | AVL_Tree/avl_trees.cpp:350-367 | a found key without a right child gets itself back, though a larger key sits above it |

## Left out

- `display`/`display_subtree` (avl_trees.cpp:221-252): console output. Only their left-node-right order is kept, as the ghost `InOrder`.
- Destructor and `delete_subtree` (avl_trees.cpp:10-15, 273-283): they release memory and have no observable result on a tree. On a `Corrupt` graph they do not terminate: after 30, 10, 20 the walk descends 10, 30, 20, 10, ... and recurses until the stack runs out, before deleting anything.
- `remove`, `get_next_lower`, `get_median` (avl_trees.cpp:214-219, 337-343, 371-375): stubs. The last two fall off the end of a non-void function, which is undefined behaviour.
- `driver.cpp`: an interactive console loop. `InsertAll` stands in for a run of its inserts.
- The cyclic pointer graph is not modelled: it is `Corrupt`. After corruption the C++ goes on. The public `insert` still returns true, and later walks may never terminate on the cycle. A null secondary pivot is undefined behaviour in C++. The model stops at the first `Corrupt`.
- Fixed-width `int`: keys are only compared, so their width plays no role. Stored factors are not bounded by the heights: they keep drifting past -2 and +2 (`FurtherDriftTrace` reaches -7). But an insertion that returns a tree changes a stored factor in only two ways: `UnwindLeft` and `UnwindRight` step it by exactly one, and the single rotations reset it to 0 (new nodes start at 0). So a factor's magnitude never exceeds the number of insertions, and overflowing a 32-bit factor would take about 2^31 insertions. Factors are therefore unbounded integers.
- Rebalancing.BalanceLeftHeavy: requires a node with a left child. The C++ dereferences both without checking, and insertion only calls it after inserting into that child. The same holds for `BalanceRightHeavy` with the right child.
