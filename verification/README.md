# Ordered tree maps: an unbalanced BST and an AVL tree

This project models the two ordered maps of `search_trees.py`, a course-schedule project's search trees. Each map maps a string key to a value, and both offer the same interface: `insert` (insert or overwrite), `search`, `inorder_items` and `height`.

- `BSTMap` is a plain binary search tree. Insertion descends by key comparison and overwrites the value of a key that is already present.
- `AVLTreeMap` caches a height in every node. After each recursive insertion it recomputes that height and the balance factor. When the balance leaves [-1, 1] it applies one of the four rotation cases (LL, RR, LR, RL), chosen by comparing the inserted key with the child's key.
- `height()` in both maps ignores the cached field. It counts the edges on the longest downward path: -1 for an empty tree, 0 for a single node.

The Dafny modules follow the program's structure:

- `KeyOrder` is Python's `<` on `str`: lexicographic by code point, with a proper prefix first. It is proved to be a strict total order.
- `Entries` is the abstract map the trees implement: a list of (key, value) pairs in ascending key order, with `Lookup` and `Put` (sorted insert or overwrite).
- `Bst` and `Avl` hold the node datatypes, the recursive operations of the source, and the two map classes. Each class has a `root` field that `Insert` reassigns, as `insert` reassigns `self._root`.
- `Scenarios` holds insertion sequences and the trees they build.

The central results are proved for both maps:

- The in-order traversal after an insert is `Put` of the traversal before it.
- `search` is `Lookup` in the traversal.
- The search-tree order holds exactly when the traversal strictly ascends.

For the AVL map, insertion also keeps every cached height equal to the structural height and keeps the balance bound at every node.

The nodes are immutable datatypes. The source changes nodes in place (`node.left = ...`, `node.value = value`, the rotations' rewiring and height writes), and the model rebuilds the node on the path instead. The source never shares a node between two places, so the two agree.

## Model

| member | source | states |
|---|---|---|
| KeyOrder.Less | search_trees.py:42-44 | Python's `<` on `str`. No key is below itself. Its meaning is fixed by `LessIsLexicographic`. |
| KeyOrder.LessIsLexicographic | search_trees.py:42-44 | `Less` holds exactly when a is a proper prefix of b, or a has the smaller code point at the first position where they differ. |
| KeyOrder.LessTrichotomous | search_trees.py:42-47 | For any two keys, one is less or they are equal. The `else` branch after `<` and `>` therefore means "same key". |
| KeyOrder.LessTransitive | search_trees.py:42-45 | Key comparison is transitive, so descending by comparison keeps the order. |
| KeyOrder.LessAsymmetric | search_trees.py:42-45 | No two keys are each less than the other, so at most one descent branch applies. |
| Entries.PutKeys | search_trees.py:35-48 | Inserting or overwriting key k gives exactly the old key set plus k. |
| Entries.PutAscending | search_trees.py:35-48 | Inserting or overwriting a key keeps an ascending list ascending. |
| Entries.LookupPut | search_trees.py:51-63 | A lookup after a put finds the new value at k and the old answer at every other key. |
| Entries.PutExisting | search_trees.py:46-47 | Putting a key that is already present keeps the length and replaces only that entry's value. |
| Entries.PutSame | search_trees.py:46-47 | Putting the value a key already maps to leaves an ascending list unchanged. |
| Bst.InsertRecursive | search_trees.py:39-48 | The key set becomes old keys plus k. The search-tree order is preserved. |
| Bst.InsertIsPut | search_trees.py:39-48 | On an ordered tree, the in-order list after insert is the sorted insert/overwrite of the old list. |
| Bst.SearchIsLookup | search_trees.py:55-63 | On an ordered tree, search returns the value paired with the key in the in-order list, or None. |
| Bst.SearchAfterInsert | search_trees.py:39-63 | After insert(k, v), search(k) is v and search(j) for j != k is unchanged. This holds on every tree. |
| Bst.OrderedIffAscending | search_trees.py:66-74 | Every left key is less and every right key greater, at every node, if and only if the in-order keys strictly ascend. |
| Bst.SearchRecursive | search_trees.py:55-63 | Search finds a value only under a stored key. On ordered trees its full contract is `SearchIsLookup`. |
| Bst.InorderRecursive | search_trees.py:70-74 | The traversal yields exactly the keys stored in the tree. Its order is `OrderedIffAscending`. |
| Bst.HeightOf | search_trees.py:88-94 | The structural height is at least -1, and it is -1 exactly for the empty tree. |
| Bst.LongestPath | search_trees.py:78-96 | A nonempty tree has a root-to-leaf path whose edge count equals its height. |
| Bst.HeightIsLongestPath | search_trees.py:78-96 | The height is the edge count of the longest root-to-leaf path. No downward path is longer, and some root-to-leaf path is that long. |
| Bst.ReinsertKeepsShape | search_trees.py:46-47 | Re-inserting a present key leaves shape, keys and height unchanged. |
| Bst.ReinsertSameValue | search_trees.py:46-47 | Re-inserting a present key with the value it already has leaves the traversal and the height unchanged. |
| Bst.BstMap.constructor | search_trees.py:31-32 | A new map is empty and satisfies the order invariant. |
| Bst.BstMap.Insert | search_trees.py:35-37 | The root becomes the recursive insert's result. The contents become `Put` of the old contents. The order invariant is kept. |
| Bst.BstMap.Search | search_trees.py:51-53 | Returns the contents' lookup of the key. |
| Bst.BstMap.InorderItems | search_trees.py:66-68 | The yielded pairs strictly ascend by key and hold exactly the tree's keys. |
| Bst.BstMap.Height | search_trees.py:78-96 | The height is at least -1, and it is -1 exactly when the map holds no key. |
| Avl.HeightOf | search_trees.py:244-249 | The structural height ignores the cache. It is at least -1, and it is -1 exactly for the empty tree. |
| Avl.EraseAgrees | search_trees.py:170-188 | On the same shape, AVL search, traversal and height are those of the unbalanced tree. |
| Avl.SearchRecursive | search_trees.py:170-178 | Search finds a value only under a stored key. On ordered trees its full contract is `SearchIsLookup`. |
| Avl.InorderRecursive | search_trees.py:184-188 | The traversal yields exactly the keys stored in the tree. Its order is `OrderedIffAscending`. |
| Avl.GetHeight | search_trees.py:191-192 | When every cached height is correct, `_get_height` returns the structural height, -1 for None. |
| Avl.GetBalance | search_trees.py:194-195 | With correct caches, `_get_balance` is the difference of the subtrees' structural heights. On a balanced tree it lies in [-1, 1]. |
| Avl.RotateLeft | search_trees.py:197-211 | Requires the right child to exist. The rotation keeps the in-order sequence of pairs. If the three moved subtrees have correct cached heights, recomputing z then y makes every cached height correct. |
| Avl.RotateRight | search_trees.py:213-227 | Mirror image of RotateLeft. Requires the left child to exist and keeps the in-order sequence. Heights recomputed from correct subtree caches are correct. |
| Avl.Rebalance | search_trees.py:137-164 | Recomputing the height and applying whichever of the four cases fires keeps the in-order sequence. |
| Avl.RotateRightRestores | search_trees.py:146-148 | Case LL (left child two levels taller, leaning left): one right rotation gives correct heights and the balance bound. The result is one level lower than the node before the rotation. |
| Avl.RotateLeftRestores | search_trees.py:150-152 | Case RR: the mirror image of LL. |
| Avl.RotateLeftRightRestores | search_trees.py:154-157 | Case LR (left child two levels taller, leaning right): a left then a right rotation gives correct heights and the balance bound. The result is one level lower. |
| Avl.RotateRightLeftRestores | search_trees.py:159-162 | Case RL: the mirror image of LR. |
| Avl.RebalanceRestores | search_trees.py:141-164 | Rebalancing a node whose children are valid AVL trees and at most two levels apart gives a valid AVL tree. This assumes the taller child grew toward the inserted key. Every node the selected case dereferences exists. Within the bound, only the height is recomputed. When a rotation fires, the height drops by one. |
| Avl.RebalanceOrdered | search_trees.py:141-164 | Rebalancing keeps the search-tree order. |
| Avl.ReplaceValue | search_trees.py:133-135 | Overwriting the value of a present key without touching heights keeps a valid AVL tree. The traversal becomes `Put`. |
| Avl.InsertStep | search_trees.py:129-164 | After the recursive insert into one child, the rebalanced node is a valid AVL tree with `Put` as its traversal. If the child's height did not change, no rotation fires and the node is returned as is. |
| Avl.InsertRecursive | search_trees.py:125-164 | On a valid AVL tree, the result is a valid AVL tree: ordered, cached heights correct, balanced. Its traversal is `Put` of the old one, and its height grows by at most one. |
| Avl.OrderedIffAscending | search_trees.py:184-188 | The tree is ordered if and only if the in-order keys strictly ascend. |
| Avl.SearchIsLookup | search_trees.py:170-178 | On an ordered tree, search is lookup in the in-order list. |
| Avl.InsertKeys | search_trees.py:125-164 | Insert gives key set = old keys plus k, and the traversal still strictly ascends. |
| Avl.SearchAfterInsert | search_trees.py:125-178 | After insert(k, v) on a valid tree, search(k) is v and every other key's search is unchanged. |
| Avl.ReinsertKeepsShape | search_trees.py:133-135 | Re-inserting a present key changes no node's height and fires no rotation. Shape, keys, cached heights and height stay. |
| Avl.ReinsertSameValue | search_trees.py:133-135 | Re-inserting a present key with the value it already has leaves the traversal and the height unchanged. |
| Avl.SizeBounds | search_trees.py:244-249 | A tree of height h has at most `MaxSize(h)` nodes. A balanced one has at least `MinSize(h)`, the Fibonacci-like minimum. |
| Avl.MinSizeExp | search_trees.py:137-164 | `MinSize(h) + 1` is at least 2^((h+1)/2), so the minimum grows exponentially with the height. |
| Avl.AvlHeightLogarithmic | search_trees.py:137-164 | A valid AVL tree of height h with n nodes has 2^((h+1)/2) <= n + 1 <= 2^(h+1), so its height is logarithmic in the entry count. |
| Avl.AvlTreeMap.constructor | search_trees.py:118-119 | A new map is empty and valid. |
| Avl.AvlTreeMap.Insert | search_trees.py:122-123 | The root becomes the recursive insert's result. The contents become `Put` of the old contents. The AVL invariant is kept. |
| Avl.AvlTreeMap.Search | search_trees.py:167-168 | Returns the contents' lookup of the key. |
| Avl.AvlTreeMap.InorderItems | search_trees.py:181-182 | The yielded pairs strictly ascend by key and hold exactly the tree's keys. |
| Avl.AvlTreeMap.Height | search_trees.py:231-251 | The height is at least -1 and is -1 exactly for an empty map. On a valid map it equals the root's cached height. |
| Scenarios.BoundaryHeights | search_trees.py:84-85 | An empty map has height -1. After one insert, either map has height 0. |
| Scenarios.ThreeEntryTree | search_trees.py:141-164 | Every valid AVL tree with three entries is the middle entry over the other two, with cached heights 0, 0 and 1. |
| Scenarios.ThreeInserts | search_trees.py:122-164 | Three insertions into an empty AVL map whose contents end as a three-entry list build the middle entry over the other two, with height 1. |
| Scenarios.LeftLeftCase | search_trees.py:146-148 | Inserting c, b, a (a < b < c) gives root b over a and c, with height 1. |
| Scenarios.RightLeftCase | search_trees.py:159-162 | Inserting a, c, b gives the same tree. |
| Scenarios.LeftLeftExample | search_trees.py:146-148 | Inserting "C", "B", "A" gives root "B", left "A", right "C", height 1. |
| Scenarios.RightLeftExample | search_trees.py:159-162 | Inserting "A", "C", "B" gives the same three-node tree of height 1. |
| Scenarios.BstBalancedOrder | search_trees.py:39-48 | In the unbalanced map, inserting b, a, c gives height 1 and traversal a, b, c. |
| Scenarios.BalancedOrder | search_trees.py:39-48 | Inserting b, a, c gives height 1 and traversal a, b, c in both maps. |
| Scenarios.BalancedOrderExample | search_trees.py:39-48 | Inserting "B", "A", "C" gives height 1 and traversal "A", "B", "C" in both maps. |
| Scenarios.BstInsertAll | search_trees.py:35-48 | From an ordered tree, inserting a sequence of entries keeps the search-tree order. The contents are the puts applied in order. |
| Scenarios.AvlInsertAll | search_trees.py:122-123 | Inserting a sequence of entries keeps the AVL invariant. The contents are the puts applied in order. |
| Scenarios.ChainGrows | search_trees.py:44-45 | In the unbalanced map, inserting a key above every key of a right chain extends the chain by one level. |
| Scenarios.AscendingChain | search_trees.py:39-48 | Loading entries in ascending key order into the unbalanced map builds a chain of height one less than the entry count. |
| Scenarios.AscendingKeys | search_trees.py:125-164 | Loading five ascending entries gives the unbalanced map height 4 and the AVL map height 2, and the AVL traversal is the input. |
| Scenarios.AscendingKeysExample | search_trees.py:125-164 | Loading "A" to "E" in ascending order gives the unbalanced map height 4 and the AVL map height 2. |

## Left out

- Avl.InsertRecursive requires the AVL invariant. On a tree that breaks it, some rotation cases of the source dereference a missing child, e.g. `node.right.left` in the RL case, and raise an error. The model does not describe that error. `AVLTreeMap` never builds such a tree, because the constructor and `Insert` keep the invariant.
- In-place mutation of nodes is modelled as rebuilding immutable nodes. Node identity and aliasing are not captured, and the source has no aliasing.
- The laziness and restartability of the `inorder_items` generators are not captured. Traversal is the whole list of pairs.
- Keys are strings compared by code point, as Python compares `str`. The source would accept any comparable key type, and other key types are not modelled. Values are an opaque type parameter.
- Python's recursion limit is not modelled. A long chain in the unbalanced map can exceed it.
- `schedule.py` (CSV loading and the subject and instructor filters), `schedule_item.py` (the key string) and `main.py` (loading and printing heights) are not part of this model. They are file I/O, Unicode case mapping and script plumbing around the maps.
- BST and AVL heights are compared only in the scenarios. The source makes no general promise relating them.
- Python's `search` returns `None` both for a missing key and for a key stored with the value `None`. The model's `Option` keeps those two cases apart. The maps in this program store records and never `None`, so nothing here depends on the difference.
