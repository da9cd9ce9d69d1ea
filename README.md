# Search trees of taobear/DataStructure, modelled in Dafny

This project models the three ordered-map trees under `tree/`:

- the plain binary search tree `BinaryTree<Key, Value>` (`tree/BinaryTree/BinaryTree.h`);
- the AVL tree `AVLTree<Key, Value>` (`tree/AVLTree/AVLTree.h`);
- insertion into the red-black tree `RbTree<Key, Value>` (`tree/RBTree/RBTree.h`).

Keys are `int` and values are a type parameter `V`. `nullptr` from `get` becomes `None` of `Common.Option`.

**Binary search tree and AVL tree (`Bst.dfy`, `Avl.dfy`).**
- The recursive private helpers (`put`, `deleteMin`, `deleteMax`, `deleteKey`, `rebalance`, the rotations) build a new subtree from an old one.
- They are functions on an immutable `Tree` datatype.
- Each helper that changes the tree also returns `delta`, its effect on `count_`.
- Each tree object is a class (`Bst.BinaryTree`, `Avl.AvlTree`) with the fields `root` and `count`. Its methods reassign those fields as the C++ public members do. The one exception is the AVL deletions (`DeleteMin`, `DeleteMax`, `DeleteKey`): they rebalance with the tie corrected (see below).
- Every operation is related to `Content`, the map a tree stores, and to `Ordered`, the search-tree property. The AVL tree is also related to `Sound`, meaning its stored heights are right and every node's balance factor is within one.

**The AVL tie.** `Avl.Rebalance` takes an `OnTie` argument.
- `DoubleRotation` is the code as written. It double-rotates when the heavy child's two subtrees have equal heights.
- `SingleRotation` is the textbook choice.
- The two agree on every insertion (`Avl.InsertTieIrrelevant`). They differ on deletion; see Findings.
- `AvlTree.Put` runs the code as written. The deletions run the corrected choice.

**Red-black tree (`RedBlack.dfy`).**
- Nodes live in an arena: a sequence of records whose `left`, `right` and `parent` fields are indices, with `NIL` (-1) for `nullptr`.
- Each routine that rewrites fields is a function on the arena. It makes the C++ assignments in order, so aliasing behaves as it does with pointers.
- The class `RedBlack.RbTree` holds the arena, `root_` and `count_`. Its methods are proved to leave exactly the arena the function computes.
- A failed `assert` or a `nullptr` dereference ends a run with an `Outcome` value instead of crashing.
- A shape (`Shape`) and an abstraction `Abs` map the arena onto `Bst.Tree`. This connects the descent and attachment of `insert`, and the rotations, with the plain search-tree `put` and its in-order listing.
- `Variant` selects either the mirror branch of `insertFixUp` as written (`AsWritten`) or the corrected one (`Textbook`); see Findings. The class runs the corrected one.

`AvlScenario.dfy`, `RbScenario.dfy` and the scenario members of `Bst.dfy` follow the runs in the three `test_*.cpp` files on concrete trees.

## Model

| member | source | states |
|---|---|---|
| Bst.Lookup | tree/BinaryTree/BinaryTree.h:101-117 | on a search tree, get finds exactly the value the tree stores for the key, and nothing for an absent key |
| Bst.Insert | tree/BinaryTree/BinaryTree.h:119-137 | put adds the key to the key set, and the reported count change matches the change in node count |
| Bst.MinNode | tree/BinaryTree/BinaryTree.h:139-152 | minimum returns nullptr only for nullptr; otherwise a stored node with no left child, whose key is the smallest on a search tree |
| Bst.MaxNode | tree/BinaryTree/BinaryTree.h:154-167 | maximum returns nullptr only for nullptr; otherwise a stored node with no right child, whose key is the largest on a search tree |
| Bst.RemoveMin | tree/BinaryTree/BinaryTree.h:169-186 | deleteMin of an empty tree changes nothing; otherwise exactly one node goes |
| Bst.RemoveMax | tree/BinaryTree/BinaryTree.h:188-205 | deleteMax of an empty tree changes nothing; otherwise exactly one node goes |
| Bst.Remove | tree/BinaryTree/BinaryTree.h:207-246 | deleteKey removes at most one node, and the reported count change matches the node count |
| Bst.KeysSize | tree/BinaryTree/BinaryTree.h:38 | a search tree has as many distinct keys as nodes, so count_ is the number of keys |
| Bst.ContentSize | tree/BinaryTree/BinaryTree.h:38 | a search tree stores as many pairs as it has nodes |
| Bst.InsertOrdered | tree/BinaryTree/BinaryTree.h:119-137 | put keeps the search-tree order |
| Bst.InsertContent | tree/BinaryTree/BinaryTree.h:119-137 | after put, the stored map is the old one with key mapped to val |
| Bst.InsertGrowth | tree/BinaryTree/BinaryTree.h:123-126 | put adds a node exactly when the key was absent |
| Bst.InsertInPlace | tree/BinaryTree/BinaryTree.h:132-134 | putting a present key only overwrites its value: the tree's shape and keys stay the same |
| Bst.InsertSpec | tree/BinaryTree/BinaryTree.h:121-137 | put in one statement: order kept, map updated, count change, shape kept for a present key |
| Bst.GetAfterPut | tree/BinaryTree/BinaryTree.h:101-137 | get after put finds the new value for the key and the old answer for every other key |
| Bst.RemoveMinOrdered | tree/BinaryTree/BinaryTree.h:169-186 | deleteMin removes exactly the smallest key and keeps the order |
| Bst.RemoveMinSpec | tree/BinaryTree/BinaryTree.h:171-186 | deleteMin leaves the stored map without its smallest key, still ordered |
| Bst.RemoveMaxOrdered | tree/BinaryTree/BinaryTree.h:188-205 | deleteMax removes exactly the largest key and keeps the order |
| Bst.RemoveMaxSpec | tree/BinaryTree/BinaryTree.h:190-205 | deleteMax leaves the stored map without its largest key, still ordered |
| Bst.RemoveKeys | tree/BinaryTree/BinaryTree.h:207-246 | deleteKey removes exactly the given key from the key set |
| Bst.RemoveOrdered | tree/BinaryTree/BinaryTree.h:207-246 | deleteKey keeps the search-tree order |
| Bst.SuccessorOrdered | tree/BinaryTree/BinaryTree.h:236-242 | putting the right subtree's minimum in place of a deleted node with two children keeps the order |
| Bst.RemoveContent | tree/BinaryTree/BinaryTree.h:207-246 | after deleteKey, the stored map is the old one without the key, with every other value kept |
| Bst.RemoveShrink | tree/BinaryTree/BinaryTree.h:207-246 | deleteKey removes a node exactly when the key was present |
| Bst.RemoveSpec | tree/BinaryTree/BinaryTree.h:212-245 | deleteKey in one statement: order kept, key removed from the map, count change |
| Bst.InOrderKeys | tree/BinaryTree/BinaryTree.h:279-289 | the in-order listing lists exactly the tree's keys |
| Bst.OrderedIffIncreasing | tree/BinaryTree/BinaryTree.h:279-289 | a tree is a search tree if and only if its in-order listing has strictly increasing keys |
| Bst.ListedBelow | tree/BinaryTree/BinaryTree.h:279-289 | every key is below k if and only if every listed pair is below k |
| Bst.ListedAbove | tree/BinaryTree/BinaryTree.h:279-289 | every key is above k if and only if every listed pair is above k |
| Bst.BinaryTree.constructor | tree/BinaryTree/BinaryTree.h:88-93 | a new tree is empty with count_ 0 |
| Bst.BinaryTree.Size | tree/BinaryTree/BinaryTree.h:38 | size is the number of stored pairs |
| Bst.BinaryTree.IsEmpty | tree/BinaryTree/BinaryTree.h:39 | isEmpty holds exactly when nothing is stored |
| Bst.BinaryTree.Get | tree/BinaryTree/BinaryTree.h:42 | get finds a value exactly for the stored keys, and it is the stored value |
| Bst.BinaryTree.Contain | tree/BinaryTree/BinaryTree.h:40 | contain holds exactly for the stored keys |
| Bst.BinaryTree.Put | tree/BinaryTree/BinaryTree.h:43 | put maps key to val, counts a new key once, and keeps the shape when the key was present |
| Bst.BinaryTree.Minimum | tree/BinaryTree/BinaryTree.h:45-49 | on a non-empty tree (the assert), minimum is a stored key no larger than any other |
| Bst.BinaryTree.Maximum | tree/BinaryTree/BinaryTree.h:50-54 | on a non-empty tree (the assert), maximum is a stored key no smaller than any other |
| Bst.BinaryTree.DeleteMin | tree/BinaryTree/BinaryTree.h:56 | deleteMin does nothing to an empty tree; otherwise it drops the smallest key and decrements count_ |
| Bst.BinaryTree.DeleteMax | tree/BinaryTree/BinaryTree.h:57 | deleteMax does nothing to an empty tree; otherwise it drops the largest key and decrements count_ |
| Bst.BinaryTree.DeleteKey | tree/BinaryTree/BinaryTree.h:59 | deleteKey drops the key and decrements count_ exactly when the key was present |
| Bst.FinalContent | tree/BinaryTree/test_BinaryTree.cpp:26-30 | the final tree of the test run stores 0:1, 1:2, 2:1, 5:2 |
| Bst.ScenarioStart | tree/BinaryTree/test_BinaryTree.cpp:5-7 | the first three puts build 1(0, 5) |
| Bst.ScenarioTree | tree/BinaryTree/test_BinaryTree.cpp:3-11 | initBinaryTree builds 1(0, 5(3(2, -), 7)) |
| Bst.Scenario | tree/BinaryTree/test_BinaryTree.cpp:13-30 | after deleteMax and deleteKey(3), the tree stores 0:1, 1:2, 2:1, 5:2, with maximum 5 and minimum 0 |
| Avl.NodeHeight | tree/AVLTree/AVLTree.h:93 | getNodeHeight is 0 for nullptr, otherwise the stored height, which is the real height when the stored heights are right |
| Avl.Refresh | tree/AVLTree/AVLTree.h:299-300 | recomputing a node's height changes nothing else and makes the node's height right when its children's heights are right |
| Avl.LeftRotate | tree/AVLTree/AVLTree.h:285-303 | leftRotate keeps the in-order listing, keys and node count, and keeps heights right; without a right child it changes nothing |
| Avl.RightRotate | tree/AVLTree/AVLTree.h:311-329 | rightRotate keeps the in-order listing, keys and node count, and keeps heights right; without a left child it changes nothing |
| Avl.LL | tree/AVLTree/AVLTree.h:231-236 | LL keeps the in-order listing, and keeps stored heights right when there is a left child; SingleRightSound states when it restores balance |
| Avl.LR | tree/AVLTree/AVLTree.h:244-250 | LR keeps the in-order listing, and keeps stored heights right when there is a left child; DoubleRightSound states when it restores balance |
| Avl.RR | tree/AVLTree/AVLTree.h:258-263 | RR keeps the in-order listing, and keeps stored heights right when there is a right child; SingleLeftSound states when it restores balance |
| Avl.RL | tree/AVLTree/AVLTree.h:271-277 | RL keeps the in-order listing, and keeps stored heights right when there is a right child; DoubleLeftSound states when it restores balance |
| Avl.Rebalance | tree/AVLTree/AVLTree.h:331-363 | rebalance keeps the in-order listing, and on a node within balance only recomputes its height |
| Avl.Lookup | tree/AVLTree/AVLTree.h:121-138 | on a search tree, get finds exactly the stored value for the key |
| Avl.MinNode | tree/AVLTree/AVLTree.h:140-153 | minimum is nullptr only for nullptr, otherwise a stored node with no left child and the smallest key |
| Avl.MaxNode | tree/AVLTree/AVLTree.h:155-168 | maximum is nullptr only for nullptr, otherwise a stored node with no right child and the largest key |
| Avl.Insert | tree/AVLTree/AVLTree.h:365-387 | put adds at most one node |
| Avl.RemoveMin | tree/AVLTree/AVLTree.h:389-406 | deleteMin removes no node from an empty tree and exactly one otherwise |
| Avl.RemoveMax | tree/AVLTree/AVLTree.h:408-425 | deleteMax removes no node from an empty tree and exactly one otherwise |
| Avl.Remove | tree/AVLTree/AVLTree.h:427-464 | deleteKey removes at most one node |
| Avl.Successor | tree/AVLTree/AVLTree.h:452-456 | the node that replaces one with two children holds the right subtree's minimum over the old left subtree and the right subtree without its minimum |
| Avl.InOrderKeys | tree/AVLTree/AVLTree.h:201-211 | the in-order listing lists exactly the tree's keys |
| Avl.ListedBelow | tree/AVLTree/AVLTree.h:201-211 | every key is below k if and only if every listed pair is below k |
| Avl.ListedAbove | tree/AVLTree/AVLTree.h:201-211 | every key is above k if and only if every listed pair is above k |
| Avl.OrderedIffIncreasing | tree/AVLTree/AVLTree.h:201-211 | a tree is a search tree if and only if its in-order listing has strictly increasing keys |
| Avl.SameListing | tree/AVLTree/AVLTree.h:285-329 | two trees with one in-order listing are both search trees or neither is |
| Avl.LeftRotateContent | tree/AVLTree/AVLTree.h:285-303 | leftRotate keeps a search tree ordered and keeps its stored map |
| Avl.RightRotateContent | tree/AVLTree/AVLTree.h:311-329 | rightRotate keeps a search tree ordered and keeps its stored map |
| Avl.RebalanceContent | tree/AVLTree/AVLTree.h:331-363 | rebalance keeps a search tree ordered and keeps its stored map |
| Avl.InsertKeys | tree/AVLTree/AVLTree.h:365-387 | put adds the key to the key set, and the reported count change matches the node count |
| Avl.InsertOrdered | tree/AVLTree/AVLTree.h:365-387 | put keeps the search-tree order |
| Avl.InsertContent | tree/AVLTree/AVLTree.h:365-387 | after put, the stored map is the old one with key mapped to val |
| Avl.InsertLocal | tree/AVLTree/AVLTree.h:375-380 | put below a node stores what the changed child stores, the other child's pairs and the node's own pair |
| Avl.InsertBelow | tree/AVLTree/AVLTree.h:375-377 | put into the left subtree: the node's map is the new left map, the right map and the node's pair |
| Avl.InsertAbove | tree/AVLTree/AVLTree.h:378-380 | put into the right subtree: the node's map is the left map, the new right map and the node's pair |
| Avl.InsertGrowth | tree/AVLTree/AVLTree.h:369-384 | put adds a node exactly when the key was absent |
| Avl.RemoveMinKeys | tree/AVLTree/AVLTree.h:389-406 | deleteMin removes exactly the smallest key |
| Avl.RemoveMinOrdered | tree/AVLTree/AVLTree.h:389-406 | deleteMin removes exactly the smallest key and keeps the order |
| Avl.RemoveMinContent | tree/AVLTree/AVLTree.h:391-406 | deleteMin leaves the stored map without its smallest key |
| Avl.RemoveMaxKeys | tree/AVLTree/AVLTree.h:408-425 | deleteMax removes exactly the largest key |
| Avl.RemoveMaxOrdered | tree/AVLTree/AVLTree.h:408-425 | deleteMax removes exactly the largest key and keeps the order |
| Avl.RemoveMaxContent | tree/AVLTree/AVLTree.h:410-425 | deleteMax leaves the stored map without its largest key |
| Avl.SuccessorOrdered | tree/AVLTree/AVLTree.h:452-456 | the successor node built for a deleted node with two children is a search tree |
| Avl.NodeOrdered | tree/AVLTree/AVLTree.h:427-464 | a node over two search trees, with its key between their keys, is a search tree |
| Avl.RemoveKeys | tree/AVLTree/AVLTree.h:427-464 | deleteKey removes exactly the given key from the key set |
| Avl.RemoveKeysBelow | tree/AVLTree/AVLTree.h:436-438 | deleteKey into the left subtree removes exactly the key, given that the recursive call does |
| Avl.RemoveKeysAbove | tree/AVLTree/AVLTree.h:439-441 | deleteKey into the right subtree removes exactly the key, given that the recursive call does |
| Avl.RemoveKeysHere | tree/AVLTree/AVLTree.h:442-460 | deleting the node that holds the key removes exactly that key |
| Avl.RemoveOrdered | tree/AVLTree/AVLTree.h:427-464 | deleteKey removes exactly the key and keeps the order |
| Avl.RemoveContent | tree/AVLTree/AVLTree.h:429-464 | after deleteKey, the stored map is the old one without the key |
| Avl.RemoveContentBelow | tree/AVLTree/AVLTree.h:436-438 | deleteKey into the left subtree leaves the map without the key, given that the recursive call does |
| Avl.RemoveContentAbove | tree/AVLTree/AVLTree.h:439-441 | deleteKey into the right subtree leaves the map without the key, given that the recursive call does |
| Avl.RemoveContentHere | tree/AVLTree/AVLTree.h:442-460 | deleting the node that holds the key leaves the map without exactly that key |
| Avl.RemoveShrink | tree/AVLTree/AVLTree.h:427-464 | deleteKey removes a node exactly when the key was present |
| Avl.RebalanceHeights | tree/AVLTree/AVLTree.h:331-363 | rebalance keeps every stored height right under either tie choice, given right heights below the node |
| Avl.InsertHeights | tree/AVLTree/AVLTree.h:365-387 | put keeps every stored height right under either tie choice |
| Avl.RemoveMinHeights | tree/AVLTree/AVLTree.h:389-406 | deleteMin keeps every stored height right under either tie choice, the code as written included |
| Avl.RemoveMaxHeights | tree/AVLTree/AVLTree.h:408-425 | deleteMax keeps every stored height right under either tie choice, the code as written included |
| Avl.RemoveHeights | tree/AVLTree/AVLTree.h:427-464 | deleteKey keeps every stored height right under either tie choice, the code as written included, with the successor's height recomputed at line 456 |
| Avl.SingleRightSound | tree/AVLTree/AVLTree.h:231-236 | LL on a node two too heavy on the left, whose left child leans left or is tied, gives an AVL tree of the stated height |
| Avl.SingleLeftSound | tree/AVLTree/AVLTree.h:258-263 | RR on a node two too heavy on the right, whose right child leans right or is tied, gives an AVL tree of the stated height |
| Avl.DoubleRightSound | tree/AVLTree/AVLTree.h:244-250 | LR on a node two too heavy on the left, whose left child leans right, gives an AVL tree as high as that child |
| Avl.DoubleLeftSound | tree/AVLTree/AVLTree.h:271-277 | RL on a node two too heavy on the right, whose right child leans left, gives an AVL tree as high as that child |
| Avl.RebalanceSound | tree/AVLTree/AVLTree.h:331-363 | rebalance over two AVL subtrees whose heights differ by at most two gives an AVL tree, except where the code as written meets a tie |
| Avl.GrownChildUntied | tree/AVLTree/AVLTree.h:374-380 | a node whose child grew by one through put never meets the tie, and rebalancing it gives an AVL tree at most one higher |
| Avl.InsertSound | tree/AVLTree/AVLTree.h:365-387 | put as written keeps an AVL tree an AVL tree and raises its height by at most one |
| Avl.RebalanceUntied | tree/AVLTree/AVLTree.h:347-357 | away from a tie, both tie choices rebalance alike |
| Avl.InsertChildUntied | tree/AVLTree/AVLTree.h:374-380 | the node put rebalances after recursing never has a tie |
| Avl.InsertTieIrrelevant | tree/AVLTree/AVLTree.h:347-357 | on an AVL tree, put gives the same tree under either tie choice |
| Avl.ShrunkChildren | tree/AVLTree/AVLTree.h:331-363 | rebalancing, with the tie corrected, a node whose children each lost at most one level gives an AVL tree at most one lower |
| Avl.RemoveMinSound | tree/AVLTree/AVLTree.h:389-406 | deleteMin with the tie corrected keeps an AVL tree an AVL tree, at most one lower |
| Avl.RemoveMaxSound | tree/AVLTree/AVLTree.h:408-425 | deleteMax with the tie corrected keeps an AVL tree an AVL tree, at most one lower |
| Avl.RemoveSound | tree/AVLTree/AVLTree.h:427-464 | deleteKey with the tie corrected keeps an AVL tree an AVL tree, at most one lower |
| Avl.TieExampleIsAvl | tree/AVLTree/AVLTree.h:8-13 | the tree 10(5(2(1), 7(-, 8)), 12(-, 13)) is an AVL tree |
| Avl.RemoveMaxUnbalances | tree/AVLTree/AVLTree.h:347 | deleteMax as written on that AVL tree keeps every stored height right but leaves node 5 with balance factor 2 |
| Avl.RemoveMaxTieRotation | tree/AVLTree/AVLTree.h:346-351 | at the tie, rebalance as written takes LR where LL is needed |
| Avl.RemoveMaxTieCorrected | tree/AVLTree/AVLTree.h:346-351 | with the tie corrected, the same deleteMax gives an AVL tree |
| Avl.KeysSize | tree/AVLTree/AVLTree.h:40 | a search tree has as many distinct keys as nodes |
| Avl.ContentSize | tree/AVLTree/AVLTree.h:40 | a search tree stores as many pairs as it has nodes |
| Avl.AvlTree.constructor | tree/AVLTree/AVLTree.h:108-113 | a new tree is empty with count_ 0 |
| Avl.AvlTree.Size | tree/AVLTree/AVLTree.h:40 | size is the number of stored pairs |
| Avl.AvlTree.TreeHeight | tree/AVLTree/AVLTree.h:41 | height (root_ must exist) is the real height of the tree |
| Avl.AvlTree.IsEmpty | tree/AVLTree/AVLTree.h:42 | isEmpty holds exactly when nothing is stored |
| Avl.AvlTree.Get | tree/AVLTree/AVLTree.h:45 | get finds a value exactly for the stored keys, and it is the stored value |
| Avl.AvlTree.Contain | tree/AVLTree/AVLTree.h:43 | contain holds exactly for the stored keys |
| Avl.AvlTree.Put | tree/AVLTree/AVLTree.h:46 | put maps key to val, counts a new key once, keeps the AVL property, and raises the height by at most one |
| Avl.AvlTree.Minimum | tree/AVLTree/AVLTree.h:48-52 | on a non-empty tree, minimum is a stored key no larger than any other |
| Avl.AvlTree.Maximum | tree/AVLTree/AVLTree.h:53-57 | on a non-empty tree, maximum is a stored key no smaller than any other |
| Avl.AvlTree.DeleteMin | tree/AVLTree/AVLTree.h:59-62 | deleteMin does nothing to an empty tree; otherwise it drops the smallest key, decrements count_ and keeps the AVL property |
| Avl.AvlTree.DeleteMax | tree/AVLTree/AVLTree.h:63-66 | deleteMax does nothing to an empty tree; otherwise it drops the largest key, decrements count_ and keeps the AVL property |
| Avl.AvlTree.DeleteKey | tree/AVLTree/AVLTree.h:68 | deleteKey drops the key, decrements count_ exactly when it was present, and keeps the AVL property |
| AvlScenario.PutFirst | tree/AVLTree/test_AVLTree.cpp:8-10 | the first three puts build 1(0, 5) with no rotation |
| AvlScenario.PutThree | tree/AVLTree/test_AVLTree.cpp:11 | put(3, 1) hangs 3 under 5 |
| AvlScenario.PutTwo | tree/AVLTree/test_AVLTree.cpp:12 | put(2, 1) makes 5 left-heavy and LL lifts 3 |
| AvlScenario.PutSeven | tree/AVLTree/test_AVLTree.cpp:13 | put(7, 1) makes 1 right-heavy and RR lifts 3 |
| AvlScenario.BuiltIsAvl | tree/AVLTree/test_AVLTree.cpp:21-22 | the built tree is an AVL tree of height 3 |
| AvlScenario.DeleteSeven | tree/AVLTree/test_AVLTree.cpp:27 | deleteMax removes 7, under either choice on a tie |
| AvlScenario.DeleteThree | tree/AVLTree/test_AVLTree.cpp:31 | deleteKey(3), with the tie corrected, gives 1(0, 5(2, -)) |
| AvlScenario.Final | tree/AVLTree/test_AVLTree.cpp:34-35 | the final tree stores 0:1, 1:2, 2:1, 5:2, with maximum 5 and minimum 0 |
| AvlScenario.ScenarioAsWritten | tree/AVLTree/test_AVLTree.cpp:31-35 | deleteKey(3) as written meets the tie and double-rotates into 2(1(0, -), 5), with the same maximum and minimum |
| RedBlack.IsRed | tree/RBTree/RBTree.h:69 | nullptr counts as black, and a node counts as red only when it is red |
| RedBlack.LeftRotated | tree/RBTree/RBTree.h:160-180 | leftRotate relinks only x and its right child, exchanging them and their colours as stated, and touches no key or value |
| RedBlack.RightRotated | tree/RBTree/RBTree.h:182-202 | rightRotate relinks only x and its left child, as the mirror image, and touches no key or value |
| RedBlack.LeftRotatedWithParent | tree/RBTree/RBTree.h:204-221 | leftRotateWithParent does nothing for nullptr; otherwise it hangs the rotated subtree where x hung (root_ or the parent's slot), every other node being as leftRotate leaves it, keeping the arena well formed |
| RedBlack.RightRotatedWithParent | tree/RBTree/RBTree.h:223-240 | rightRotateWithParent is the mirror image: the rotated subtree goes where x hung, every other node as rightRotate leaves it |
| RedBlack.Flipped | tree/RBTree/RBTree.h:242-251 | flipColor turns both children black and x red and changes no link and no other node |
| RedBlack.Transplanted | tree/RBTree/RBTree.h:145-158 | transplant gives newNode oldNode's parent and slot, and changes no other node |
| RedBlack.Minimum | tree/RBTree/RBTree.h:111-126 | minimum is nullptr only for nullptr, otherwise a node with no left child |
| RedBlack.Maximum | tree/RBTree/RBTree.h:128-143 | maximum is nullptr only for nullptr, otherwise a node with no right child |
| RedBlack.MinimumAgrees | tree/RBTree/RBTree.h:111-126 | minimum finds the same pair as the search tree's minimum, with the smallest key when the keys are ordered |
| RedBlack.MaximumAgrees | tree/RBTree/RBTree.h:128-143 | maximum finds the same pair as the search tree's maximum, with the largest key when the keys are ordered |
| RedBlack.LeftRotatedListing | tree/RBTree/RBTree.h:160-180 | leftRotate turns x(a, y(b, c)) into y(x(a, b), c) over the same nodes, with the same in-order listing |
| RedBlack.RightRotatedListing | tree/RBTree/RBTree.h:182-202 | rightRotate turns x(y(a, b), c) into y(a, x(b, c)), with the same in-order listing |
| RedBlack.Descend | tree/RBTree/RBTree.h:290-303 | the descent of insert stops only at a node holding the key, or below a live parent |
| RedBlack.Attach | tree/RBTree/RBTree.h:305-316 | insert hangs a new red node as root_, as par's left child or as par's right child, and changes no other node |
| RedBlack.Overwritten | tree/RBTree/RBTree.h:299-301 | a present key gets the new value and nothing else changes |
| RedBlack.DescendEnds | tree/RBTree/RBTree.h:293-303 | on a tree, the descent ends within one step per node |
| RedBlack.OverwriteAgrees | tree/RBTree/RBTree.h:293-302 | a found key is updated in place exactly as the search-tree put does it, with no node added |
| RedBlack.DescendParent | tree/RBTree/RBTree.h:290-303 | the descent ends at par for an empty subtree, and otherwise at a node of the subtree |
| RedBlack.GrownDistinct | tree/RBTree/RBTree.h:305-316 | hanging a fresh node keeps every node of the tree distinct |
| RedBlack.HungAgrees | tree/RBTree/RBTree.h:290-316 | the arena with the new node hung where the descent ended reads as the search-tree put |
| RedBlack.AbsentAdds | tree/RBTree/RBTree.h:305-306 | a key the descent does not find makes put add a node |
| RedBlack.AttachAgrees | tree/RBTree/RBTree.h:288-316 | the descent and attachment give the search-tree put of the key, as a tree with one more node |
| RedBlack.GrandparentRotated | tree/RBTree/RBTree.h:263-279 | rotating the grandparent changes no key or value, goes on from the same x, or stops with a failure |
| RedBlack.FixBody | tree/RBTree/RBTree.h:257-281 | one pass of the loop changes no key or value and goes on from a live node, or stops with a failure |
| RedBlack.Finish | tree/RBTree/RBTree.h:284 | the root turns black; it fails exactly when root_ is nullptr |
| RedBlack.FixUp | tree/RBTree/RBTree.h:253-285 | insertFixUp changes only links and colours, and a run that finishes leaves a black root |
| RedBlack.FixUpAfterPass | tree/RBTree/RBTree.h:256-282 | one pass followed by the rest of the loop changes only links and colours |
| RedBlack.FixUpPassed | tree/RBTree/RBTree.h:256-282 | the loop goes on from where one pass leaves x, or stops with that pass's outcome |
| RedBlack.LeftBranchContinues | tree/RBTree/RBTree.h:257-268 | with consistent links around x, the left branch never fails and goes on from x, its parent or its grandparent |
| RedBlack.MirrorBranchContinues | tree/RBTree/RBTree.h:269-280 | with consistent links, the corrected mirror branch never fails and goes on from x, its parent or its grandparent |
| RedBlack.TextbookPassContinues | tree/RBTree/RBTree.h:256-281 | with consistent links, a pass of the corrected loop never fails an assert or follows nullptr |
| RedBlack.AsWrittenMirrorFlips | tree/RBTree/RBTree.h:269-273 | the mirror branch as written always flips colours, and fails flipColor's assert exactly when the grandparent has no left child |
| RedBlack.AsWrittenPassContinues | tree/RBTree/RBTree.h:256-281 | a pass as written goes on exactly when x's parent is a left child or the grandparent has a left child |
| RedBlack.Put | tree/RBTree/RBTree.h:287-324 | insert, in either reading of the mirror branch, keeps every pointer in range, adds at most one node, keeps every old node's key and every other key's value, and leaves a black root when it adds a node and finishes; PutPlaces and PutPayload relate it to the search-tree put |
| RedBlack.PutAbsent | tree/RBTree/RBTree.h:305-317 | inserting an absent key runs the corrected fix-up from the new node |
| RedBlack.PutPlaces | tree/RBTree/RBTree.h:287-318 | on a tree, insert overwrites a present key in place and hangs an absent one where the search-tree put does, still a tree |
| RedBlack.PutPresentPayload | tree/RBTree/RBTree.h:299-301 | inserting a present key changes that node's value and nothing else |
| RedBlack.PutAbsentPayload | tree/RBTree/RBTree.h:305-317 | inserting an absent key keeps every old key and value, and adds the new pair in a new node |
| RedBlack.PutPayload | tree/RBTree/RBTree.h:287-324 | however the fix-up ends, insert keeps every other pair, stores key with val, and adds a node exactly when put does |
| RedBlack.RbTree.constructor | tree/RBTree/RBTree.h:76-81 | a new tree has no nodes, root_ nullptr and count_ 0 |
| RedBlack.RbTree.Transplant | tree/RBTree/RBTree.h:145-158 | transplant leaves exactly the transplanted arena |
| RedBlack.RbTree.LeftRotate | tree/RBTree/RBTree.h:160-180 | leftRotate leaves exactly the rotated arena and returns the old right child |
| RedBlack.RbTree.RightRotate | tree/RBTree/RBTree.h:182-202 | rightRotate leaves exactly the rotated arena and returns the old left child |
| RedBlack.RbTree.LeftRotateWithParent | tree/RBTree/RBTree.h:204-221 | leftRotateWithParent leaves exactly the arena its function computes |
| RedBlack.RbTree.RightRotateWithParent | tree/RBTree/RBTree.h:223-240 | rightRotateWithParent leaves exactly the arena its function computes |
| RedBlack.RbTree.FlipColor | tree/RBTree/RBTree.h:242-251 | flipColor leaves exactly the recoloured arena |
| RedBlack.RbTree.RotateGrandparent | tree/RBTree/RBTree.h:263-279 | the grandparent rotation leaves exactly the arena and move its function computes |
| RedBlack.RbTree.FixUpPass | tree/RBTree/RBTree.h:257-281 | one pass of the corrected loop leaves exactly what its function computes |
| RedBlack.RbTree.BlackenRoot | tree/RBTree/RBTree.h:284 | blackening the root leaves exactly what its function computes |
| RedBlack.RbTree.InsertFixUp | tree/RBTree/RBTree.h:253-285 | insertFixUp leaves exactly the corrected fix-up run, with one loop pass per node at most |
| RedBlack.RbTree.FixUpRound | tree/RBTree/RBTree.h:256-282 | one loop pass keeps the run's final state unchanged |
| RedBlack.RbTree.LeaveFixUp | tree/RBTree/RBTree.h:282-284 | leaving the loop ends the run as its function says |
| RedBlack.RbTree.Insert | tree/RBTree/RBTree.h:287-324 | insert leaves exactly the arena and outcome of the corrected put |
| RbScenario.PutOneTwo | tree/RBTree/RBTree.h:287-324 | inserting 1 and then 2 needs no pass of the loop in either reading |
| RbScenario.PutThreeHangs | tree/RBTree/RBTree.h:305-317 | inserting 3 into 1(-, 2) hangs 3 right of 2 and runs the loop from it |
| RbScenario.OneTwoThreeAsWritten | tree/RBTree/RBTree.h:270 | inserting 1, 2, 3 as written fails flipColor's assert |
| RbScenario.CorrectedPass | tree/RBTree/RBTree.h:269-280 | the corrected pass from 3 rotates 1 left into 2(1, 3) |
| RbScenario.OneTwoThreeCorrected | tree/RBTree/RBTree.h:253-324 | inserting 1, 2, 3 with the mirror branch corrected ends with a black 2 over red 1 and red 3 |
| RbScenario.TestFirstThree | tree/RBTree/test_RBTree.cpp:8-10 | the first three inserts need no pass of the loop |
| RbScenario.TestHangsThree | tree/RBTree/test_RBTree.cpp:11 | insert(3, 1) hangs 3 left of 5 |
| RbScenario.TestHangsTwo | tree/RBTree/test_RBTree.cpp:12 | insert(2, 1) hangs 2 left of 3 |
| RbScenario.TestHangsSeven | tree/RBTree/test_RBTree.cpp:13 | insert(7, 1) hangs 7 right of 5 |
| RbScenario.TestPassFromThree | tree/RBTree/test_RBTree.cpp:11 | from 3, both readings flip the colours at 1 |
| RbScenario.TestPassFromTwo | tree/RBTree/test_RBTree.cpp:12 | from 2, the left branch rotates 5 right |
| RbScenario.TestPassFromSeven | tree/RBTree/test_RBTree.cpp:13 | from 7, both readings flip the colours at 3 |
| RbScenario.TestPutThree | tree/RBTree/test_RBTree.cpp:11 | insert(3, 1) gives 1(0, 5(3, -)) with only 3 red |
| RbScenario.TestPutTwo | tree/RBTree/test_RBTree.cpp:12 | insert(2, 1) gives 1(0, 3(2, 5)) with 2 and 5 red |
| RbScenario.TestPutSeven | tree/RBTree/test_RBTree.cpp:13 | insert(7, 1) gives the final tree 1(0, 3(2, 5(-, 7))) with 3 and 7 red, in both readings |

## Left out

- `preOrder`, `inOrder` and `postOrder` only print. The model states the in-order listing as the function `InOrder` instead.
- The destructors and `destroy` free memory. This model has no deallocation.
- The red-black deletion (`erase`, `eraseFixUp`, `eraseFixUpLeftNode`, `eraseFixUpRightNode`, RBTree.h:327-484) is not part of this model.
- `tree/TreeAdapter.h` and `tree/tree_comm_api.h` are not part of this model.
- The colour `COLER_BOTTOM` is never used, so it is not modelled.
- `get` in BinaryTree.h and AVLTree.h returns `x->value` where a `Value*` is declared. The model reads it as a pointer to the stored value: `Some(value)`, or `None` for `nullptr`.
- The successor that deleteKey builds from `minimum(x->right)` is a copy in the C++ code. Its node identity is not modelled, only its key, value and links.
- `Avl.AvlTree.TreeHeight` requires a non-empty tree, because `height()` dereferences `root_`.
- `RedBlack.Descend`, `RedBlack.FixUp` and `RedBlack.Put` carry fuel: the descent visits at most one node per node, and the loop makes at most one pass per node.
  - `Lost` and `OutOfFuel` stand for running past that bound.
  - `RedBlack.DescendEnds` shows the descent never runs past it on a tree.
  - That the loop never runs past it is not proved.
- `RedBlack.FixUp` does not claim the red-black invariants, nor that the nodes stay a tree after the fix-up. The rotations leave the moved middle subtree's parent link pointing at its old parent, so the C++ code does not keep them either.
- `RedBlack.RbTree.Insert`, `RedBlack.RbTree.InsertFixUp`, `RedBlack.RbTree.FixUpPass` and `RedBlack.RbTree.FixUpRound` run the corrected mirror branch. The branch as written is modelled by `RedBlack.FixUp` with `AsWritten`.
- `Avl.AvlTree.DeleteMin`, `Avl.AvlTree.DeleteMax` and `Avl.AvlTree.DeleteKey` rebalance with the tie corrected. The code as written is modelled by `Avl.RemoveMin`, `Avl.RemoveMax` and `Avl.Remove` with `DoubleRotation`.
- Key comparison is on `int` rather than on a generic `Key` with `operator<`.

## Findings

| source | as written | input that shows it | evidently intended | confidence | as-written member | corrected member |
|---|---|---|---|---|---|---|
| tree/AVLTree/AVLTree.h:347,353 | rebalance takes the double rotation when the heavy child's two subtrees have equal heights (strict `>`) | deleteMax on the AVL tree 10(5(2(1), 7(-, 8)), 12(-, 13)) leaves node 5 with balance factor 2 | take the single rotation on a tie (`>=`), so that deletions keep the AVL property | not executed | Avl.RemoveMaxUnbalances | Avl.RemoveMaxSound |
| tree/RBTree/RBTree.h:270,277 | the mirror branch of insertFixUp reads the uncle from the grandparent's right link, which is the parent itself; after its inner rotation it steps x to x's parent | insert 1, 2, 3 into an empty tree: the uncle read is red node 2, so flipColor(1) fails its assert because 1 has no left child | read the uncle from the grandparent's left link, and step x to its right child, the old parent | not executed | RbScenario.OneTwoThreeAsWritten | RedBlack.TextbookPassContinues |
