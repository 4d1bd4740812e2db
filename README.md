# Aggregating AVL tree of C-Wire, in Dafny

This project models the station index of `codeC/avl_tree.c`. The index is an AVL tree
keyed by `station_id`. Every node carries a `capacity` and an accumulated `load`, and
stores `balance = height(right) - height(left)`. `insertAVL` descends by key. On a miss
it adds a leaf. On a hit it adds the incoming load to the node it finds. On the way back
up it corrects the balance fields with single and double rotations. `inorder` and
`exportAVLNodeToFile` walk the tree in key order.

The model has three modules.

- `AvlModel` (`avl_model.dfy`) is the value model. A `Tree` is a snapshot of the nodes
  reachable from an `AVLNode *`. Its functions perform the C arithmetic and case analysis
  on snapshots:
  - the O(1) balance updates of the rotations (lines 40-41 and 57-58);
  - the dispatch of `balanceAVL`;
  - the `*h` protocol of `insertAVL`.
  Lemmas prove these facts:
  - the rotation formulas are exact whenever the stored balances were exact;
  - every rotation case of `balanceAVL` restores the AVL property;
  - `insertAVL` keeps every balance field exact and within {-1, 0, 1};
  - the returned flag is exactly the height increase;
  - an AVL tree of height `h` holds at least MinSize(h) = F(h+2) - 1 nodes, so a tree of
    n nodes is at most about 2·log2(n + 1) levels high. This bound is what keeping the
    balance fields buys.
- `AvlContents` (`avl_contents.dfy`) states what an insertion does to the contents. It
  compares the in-order record sequence with `MergeEntry`, a reference insertion into a
  list sorted by id. From that comparison it proves that the search-tree order is
  preserved and that a missing key adds exactly one record in its place in the order.
  It also proves that:
  - a present key only gains `load` (by its own induction over the insertion);
  - the traversal lists every node once, in strictly increasing id order.
- `AvlHeap` (`avl_heap.dfy`) follows the C statement by statement, over mutable `AvlNode`
  objects. The one C body of `insertAVL` is split into a descent (`InsertAVL`, `InsertLeft`,
  `InsertRight`) and a relink-and-retrace step (`AttachLeft`, `AttachRight`, `Retrace`).
  Rotations rewire `left`/`right` and rewrite `balance` in place, and `insertAVL`
  reassigns child links and `load`. A ghost `Shape` names the node objects of a subtree.
  - `Linked` ties the shape to the actual links.
  - `Disjoint` says no node is reachable twice.
  - `Snap` reads the fields back as a `Tree`.
  Every method ensures that the new snapshot is the one the matching `AvlModel` function
  computes from the old snapshot. The properties proved on the value model therefore
  carry over to the heap. The single rotations' `modifies` clauses name exactly the four
  fields the C code writes.

On a repeated station, `codeC/avl_tree.c` and another draft of the same insertion in the
repository disagree. `codeC/ajouter_dans_L'arbre.c:24-26` adds both the load and the
capacity to the existing node. `codeC/avl_tree.c:110-113` adds only `load` and keeps the
capacity that the first insertion stored. The model follows `avl_tree.c`, whose
`insertAVL` is the function `codeC/main.c` calls. `AvlContents.InsertPresentKey` and
`AvlContents.MergeEntry` state that the capacity is kept.

## Model

| member | source | states |
|---|---|---|
| AvlModel.Max | codeC/avl_tree.c:20-22 | the result is one of the two arguments and is at least both |
| AvlModel.Min | codeC/avl_tree.c:25-27 | the result is one of the two arguments and is at most both |
| AvlModel.LeftRotate | codeC/avl_tree.c:29-44 | the old right child becomes the root with the old root as its left child. The three subtrees below are untouched and the in-order records are unchanged. If both touched nodes stored their true height difference, the formulas of lines 40-41 leave both exact |
| AvlModel.RightRotate | codeC/avl_tree.c:46-61 | mirror of LeftRotate. The formulas of lines 57-58 keep both touched balance fields exact |
| AvlModel.DoubleRotateLeft | codeC/avl_tree.c:64-67 | a right rotation of the right child followed by a left rotation of the node; the in-order records are unchanged |
| AvlModel.DoubleRotateRight | codeC/avl_tree.c:70-73 | a left rotation of the left child followed by a right rotation of the node; the in-order records are unchanged |
| AvlModel.BalanceAVL | codeC/avl_tree.c:75-96 | the in-order records are unchanged, and a node with balance in {-1, 0, 1} is returned as it is (line 95) |
| AvlModel.SingleLeftRepairs | codeC/avl_tree.c:79-82 | at balance 2 with a right child that is not left-heavy, the left rotation gives an AVL tree. The height drops by one and the root balance becomes 0 unless the child was balanced |
| AvlModel.DoubleLeftRepairs | codeC/avl_tree.c:83-85 | at balance 2 with a left-heavy right child, the child's inner node exists, and the double rotation gives an AVL tree one level lower with root balance 0 |
| AvlModel.BalanceRestoresLeft | codeC/avl_tree.c:79-86 | at balance 2 over two AVL subtrees with exact balances, every child `balanceAVL` dereferences exists. The result is AVL and at most one level lower, and exactly one level lower with root balance 0 when the heavy child was not balanced |
| AvlModel.SingleRightRepairs | codeC/avl_tree.c:87-90 | mirror of SingleLeftRepairs for balance -2 |
| AvlModel.DoubleRightRepairs | codeC/avl_tree.c:91-93 | mirror of DoubleLeftRepairs for balance -2 |
| AvlModel.BalanceRestoresRight | codeC/avl_tree.c:87-94 | mirror of BalanceRestoresLeft for balance -2 |
| AvlModel.AvlMinSize | codeC/avl_tree.c:75-96 | an AVL tree with exact balance fields has at least `MinSize(height)` nodes, where `MinSize(h) = 1 + MinSize(h-1) + MinSize(h-2)` is the worst case, F(h+2) - 1 |
| AvlModel.AvlHeightLogarithmic | codeC/avl_tree.c:75-96 | the height `h` of such a tree of `n` nodes satisfies 2^(h/2) <= n + 1, so the height is logarithmic in the number of stations |
| AvlModel.Retrace | codeC/avl_tree.c:115-125 | adding the height change to the balance and rebalancing keeps the in-order records |
| AvlModel.Insert | codeC/avl_tree.c:98-126 | on an AVL tree whose balance fields are exact, the result is again such a tree, and is non-empty. The flag is 0 or 1 and equals the exact height increase. A flag of 1 with root balance 0 happens only for a new leaf |
| AvlModel.RetraceLeft | codeC/avl_tree.c:103-106 | after the left subtree grew by `h`, negating the flag and retracing gives an AVL tree whose flag is again its exact height increase |
| AvlModel.RetraceRight | codeC/avl_tree.c:107-109 | the same for growth of the right subtree, where the flag is added unchanged |
| AvlModel.LeftGrowthRotates | codeC/avl_tree.c:115-123 | a left-heavy node whose left subtree grew reaches balance -2, is rotated back to the old height, and reports flag 0 |
| AvlModel.RightGrowthRotates | codeC/avl_tree.c:115-123 | a right-heavy node whose right subtree grew reaches balance 2, is rotated back to the old height, and reports flag 0 |
| AvlContents.BstIffSorted | codeC/avl_tree.c:128-134 | a tree is a strict search tree exactly when its in-order records have strictly increasing ids |
| AvlContents.TraversalVisitsEachNode | codeC/avl_tree.c:150-158 | on a search tree the traversal has one record per node, its ids are exactly the keys, and they strictly increase |
| AvlContents.MergeSorted | codeC/avl_tree.c:98-113 | the reference sorted insertion keeps a list sorted and adds exactly the new id to its ids |
| AvlContents.MergeAbsent | codeC/avl_tree.c:99-101 | for an id not in the list, the reference insertion places one new record `(id, capacity, load)` between the unchanged old ones |
| AvlContents.InsertElements | codeC/avl_tree.c:98-126 | the in-order records after `insertAVL` are the reference sorted insertion of the new record into the old ones |
| AvlContents.InsertKeepsOrder | codeC/avl_tree.c:103-109 | `insertAVL` keeps the strict search-tree order, so no key is duplicated. The key set becomes the old one plus the id |
| AvlContents.InsertAbsentKey | codeC/avl_tree.c:99-101 | inserting a missing id adds exactly one node. The in-order records are the old ones with `(id, capacity, load)` inserted at one position |
| AvlContents.InsertPresentKey | codeC/avl_tree.c:110-113 | inserting a present id leaves shape, balances, keys and capacities as they were, adds `load` to that node's load only, and returns flag 0 |
| AvlHeap.AvlNode.constructor | codeC/avl_tree.c:4-17 | `newNode`: a fresh node with the given id, capacity and load, no children and balance 0 |
| AvlHeap.LeftRotate | codeC/avl_tree.c:29-44 | writes only `node.right`, `pivot.left` and the two balance fields. It returns the old right child, keeps the subtree a tree over the same node objects, and leaves the snapshot that AvlModel.LeftRotate computes |
| AvlHeap.RightRotate | codeC/avl_tree.c:46-61 | mirror of AvlHeap.LeftRotate over `node.left`, `pivot.right` and the two balance fields |
| AvlHeap.RotateRightChild | codeC/avl_tree.c:65 | the right child is replaced by its right rotation: the snapshot is the old one with its right subtree rotated right |
| AvlHeap.DoubleRotateLeft | codeC/avl_tree.c:64-67 | same node objects, still a tree, and the snapshot AvlModel.DoubleRotateLeft computes |
| AvlHeap.RotateLeftChild | codeC/avl_tree.c:71 | the left child is replaced by its left rotation: the snapshot is the old one with its left subtree rotated left |
| AvlHeap.DoubleRotateRight | codeC/avl_tree.c:70-73 | same node objects, still a tree, and the snapshot AvlModel.DoubleRotateRight computes |
| AvlHeap.BalanceAVL | codeC/avl_tree.c:75-96 | same node objects, still a tree, and the snapshot AvlModel.BalanceAVL computes |
| AvlHeap.Retrace | codeC/avl_tree.c:115-125 | the snapshot and the flag are the ones AvlModel.Retrace computes |
| AvlHeap.AttachLeft | codeC/avl_tree.c:104-105 | after the grown left subtree is linked under the node, retracing with the already negated flag gives the snapshot and flag AvlModel.Retrace computes |
| AvlHeap.AttachRight | codeC/avl_tree.c:108 | after the grown right subtree is linked under the node, the result is what AvlModel.Retrace computes |
| AvlHeap.InsertLeft | codeC/avl_tree.c:103-106 | the left branch of `insertAVL` produces the snapshot and flag of AvlModel.Insert |
| AvlHeap.InsertRight | codeC/avl_tree.c:107-109 | the right branch of `insertAVL` produces the snapshot and flag of AvlModel.Insert |
| AvlHeap.InsertAVL | codeC/avl_tree.c:98-126 | the result is still a tree. Old nodes are kept and any added node is fresh. The snapshot and `*h` are those of AvlModel.Insert, so the AvlModel and AvlContents lemmas hold of the heap |
| AvlHeap.InOrder | codeC/avl_tree.c:128-134 | the records `inorder` emits are the in-order records of the snapshot |
| AvlHeap.InOrderVisitsEachNode | codeC/avl_tree.c:150-158 | on a search tree, `exportAVLNodeToFile` emits one record per node object, with strictly increasing ids |

## Left out

- The input loop of `codeC/main.c` is not part of this model; it only feeds `insertAVL`. It parses `station_id;load;capacity` lines: `main.c:12` reads the load before the capacity, and `main.c:13` passes them to `insertAVL` as `(capacity, load)`.
- `codeC/avl_tree.h` is not part of this model: its declarations do not match `avl_tree.c`. The node layout is taken from `avl_tree.c:10-15`.
- Console and file output are left out. This covers the `printf`/`fprintf` formatting in `inorder` and `exportAVLNodeToFile`, and the `fopen`, header line and `fclose` of `saveAVLNodeToFile` (lines 161-173). Only the order and content of the emitted records is modelled.
- Memory management is left out because Dafny is garbage-collected. This covers the `malloc` failure exit in `newNode` (lines 5-9) and `freeAVL` (lines 136-147).
- The NULL exits of the rotations (lines 30-32 and 47-49) and the NULL branch of `balanceAVL` (lines 76-78) become preconditions. So do the NULL children that the C code dereferences without a check (`pivot`, `node->right->balance`).
- C `int`/`long` overflow is left out. Ids, loads, capacities and balances are unbounded integers.
- AvlModel.Insert: requires an AVL tree whose stored balances are exact. The C code assumes this without checking, and only under it are the children that `balanceAVL` dereferences guaranteed to exist. The same precondition is on AvlHeap.InsertAVL.
- AvlHeap.InOrder: returns the sequence of records rather than writing them out one at a time.
