# Joining two range-separated AVL dictionaries

`progettoDemo.py` joins a *lesser* AVL dictionary and a *greater* one. Every key of the lesser is below every key of the greater. It does this in two ways:

- `concatenation_dummy` re-inserts the in-order contents of the lower tree into the other one.
- `concatenation` dispatches on the two root heights to `less_more_height`, `equal_height` or `more_less_height`. Each of these:
  - removes a pivot (the maximum of the lesser, or the minimum of the greater);
  - walks down one spine of the taller tree to a node `rad` at most one taller than the other tree;
  - splices the pivot and the two trees together by rewriting child links;
  - walks back to the root, calling `updateHeight` and then `rotate` at each node.

The main block builds the two key lists with `seqList`, builds the dictionaries with `randAVL`, and uses the guard on the root heights to choose which joins run.

The project models these routines and the AVL dictionary they call. The dictionary module is not part of this model, so its operations are given here as a standard AVL tree:

- nodes carry `(key, value, height)`, with height -1 for the empty tree and 0 for a leaf;
- `rotate` is the four-case rebalancing of a node whose balance exceeds 1 in magnitude;
- `insert` overwrites the value of a key already present.

Modules:

- `EntryLists`: in-order entry sequences, key order (`Sorted`), range separation (`Separated`), the dictionary a sequence denotes (`ToMap`), and sorted insertion as a reference for `insert`.
- `AvlTree`: the tree datatype, the BST and shape invariants, the rotations, insertion, extraction of the extreme node, and the cut/graft primitives.
- `Dictionary`: the class `DictAVL`. It owns one tree and is the object the routines mutate.
- `Spine`: the cursor `rad` and its `father` chain as a zipper (the subtree under the cursor plus the list of its ancestors). It also holds the upward rebalancing walk (`Walk`, `RebalanceUp`) and the shape lemmas for it.
- `ProgettoDemo`: the key lists, both joins, the three structural routines, their descents, the main block, and the as-written splice of line 158.

The central results:

- Each structural routine yields a valid AVL tree whose in-order sequence is the lesser sequence, then the greater sequence. Its height is that of the taller input or one more.
- The re-insertion join holds the union of the two dictionaries, and the same sequence when the key ranges are separated.
- In the main block, with line 158 corrected, both joins produce the keys `0 .. dim1 + dim2 - 1`, each mapped to itself, and they agree. The guard at line 196 is evaluated as Python's short-circuit `or`: when the lesser tree is a single node, the greater root is never read, even if it is missing.

Two places where the model departs from the code:

- `equal_height` builds the joined tree under a temporary dictionary (progettoDemo.py:125-137) and stores it in neither argument. `EqualHeight` returns that dictionary.
- `more_less_height` at line 158 is modelled as the mirror of line 107. The code as written is modelled separately (see Findings).

## Model

| member | source | states |
|---|---|---|
| ProgettoDemo.SeqList | progettoDemo.py:21-30 | exactly `max(dim, 0)` entries, the i-th being `(i + dim_prevAVL, i + dim_prevAVL)`, so keys strictly increase |
| ProgettoDemo.SeqListsJoin | progettoDemo.py:180-181 | the lists `seqList(dim1, 0)` and `seqList(dim2, dim1)` are range-separated, and together they are the keys `0 .. dim1 + dim2 - 1`, each mapped to itself |
| ProgettoDemo.RandAvl | progettoDemo.py:45-53 | a new valid AVL dictionary holding the dictionary the list denotes (a later entry for a key wins); for a sorted list its in-order sequence is the list |
| ProgettoDemo.ConcatenationDummy | progettoDemo.py:56-70 | the receiver is `avl_2` exactly when its height is at least `avl_1`'s; it stays a valid AVL and holds the union of both dictionaries; the other dictionary is unchanged; for separated key ranges the receiver's in-order sequence is the lesser's then the greater's |
| ProgettoDemo.Concatenation | progettoDemo.py:76-84 | exactly one routine runs, chosen by the height comparison; the joined dictionary is a valid AVL whose in-order sequence is the lesser's then the greater's, and whose height is the taller input's height or one more |
| ProgettoDemo.LessMoreHeight | progettoDemo.py:87-115 | the lesser loses its maximum and stays a valid AVL; the greater becomes a valid AVL holding the lesser's remaining entries, the pivot, then its old entries, of its old height or one more |
| ProgettoDemo.DescendLeft | progettoDemo.py:99-103 | the walk down the left spine stops at a node of height `h` or `h + 1`; every node left behind is taller than `h + 1`; no more steps are taken than the root's height allows, so the number of steps `s` satisfies `2^(s / 2) <= size`, logarithmic in the size as line 13 states; the path leads back to the root |
| ProgettoDemo.LeftJoin | progettoDemo.py:104-115 | the splice of `less_more_height` and the walk up give a valid AVL holding the lesser tree, the pivot, then the greater tree, of the greater's height or one more |
| ProgettoDemo.LeftJoinShape | progettoDemo.py:104-115 | the same, for balance, height cache and height alone |
| ProgettoDemo.LeftJoinOrder | progettoDemo.py:104-115 | the same, for the in-order sequence alone, whatever the heights |
| ProgettoDemo.LeftSpliceShape | progettoDemo.py:104-114 | a pivot joining the lesser tree and `rad`'s old left subtree, found at height `height(lesser)` or one more, gives a well-shaped tree after the walk |
| ProgettoDemo.LeftSpliceOrder | progettoDemo.py:104-115 | whatever the pivot subtree holds before `rad`'s old left subtree comes first in the result, followed by the whole greater tree |
| ProgettoDemo.LeftWalkOrder | progettoDemo.py:111-115 | a walk up a left spine appends the ancestors' keys and right subtrees to the cursor's entries |
| ProgettoDemo.LeftPlugAllOrder | progettoDemo.py:99-102 | the tree above a left-spine descent holds the cursor's entries followed by the ancestors' keys and right subtrees |
| ProgettoDemo.EqualHeight | progettoDemo.py:120-137 | the pivot (the lesser's maximum) becomes the root of a new valid AVL dictionary, with the lesser on its left and the greater on its right; its in-order sequence is the lesser's then the greater's, and its height is one more than theirs |
| ProgettoDemo.MoreLessHeight | progettoDemo.py:142-166 | the mirror of LessMoreHeight: the greater loses its minimum; the lesser becomes a valid AVL holding its old entries, the pivot, then the greater's remaining entries, of its old height or one more |
| ProgettoDemo.DescendRight | progettoDemo.py:150-154 | the mirror of DescendLeft on the right spine, with the same logarithmic step bound |
| ProgettoDemo.RightJoin | progettoDemo.py:155-166 | the corrected splice of `more_less_height` and the walk up give a valid AVL holding the lesser tree, the pivot, then the greater tree, of the lesser's height or one more |
| ProgettoDemo.RightJoinShape | progettoDemo.py:155-166 | the same, for balance, height cache and height alone |
| ProgettoDemo.RightJoinOrder | progettoDemo.py:155-166 | the same, for the in-order sequence alone |
| ProgettoDemo.RightSpliceShape | progettoDemo.py:155-165 | mirror of LeftSpliceShape |
| ProgettoDemo.RightSpliceOrder | progettoDemo.py:155-166 | mirror of LeftSpliceOrder |
| ProgettoDemo.RightWalkOrder | progettoDemo.py:162-166 | a walk up a right spine prepends the ancestors' left subtrees and keys |
| ProgettoDemo.RightPlugAllOrder | progettoDemo.py:150-153 | mirror of LeftPlugAllOrder |
| ProgettoDemo.SpliceAsWritten | progettoDemo.py:155-158 | as written: the cut subtree replaces the left child of `rad.leftSon`, the pivot keeps no left child, and the access fails when `rad` has no left child |
| ProgettoDemo.SpliceAsWrittenUnordered | progettoDemo.py:155-158 | whenever `rad` has two children, the as-written splice is not a search tree |
| ProgettoDemo.DisorderSurvivesWalk | progettoDemo.py:162-166 | the upward walk never restores the order of a disordered subtree |
| ProgettoDemo.SpliceAsWrittenExample | progettoDemo.py:155-166 | with lesser keys 0 to 6 and greater keys 7 and 8, the as-written join is out of order, whatever lies above `rad` |
| ProgettoDemo.LesserInstance | progettoDemo.py:45-53 | inserting the keys 0 to 6 in order, as `randAVL(seqList(7, 0))` does, builds the perfect tree of height 2 rooted at key 3 |
| ProgettoDemo.GreaterInstance | progettoDemo.py:45-53 | inserting the keys 7 and 8 in order, as `randAVL(seqList(2, 7))` does, builds the node 7 with right child 8; its minimum is 7, and removing it leaves the single node 8 |
| ProgettoDemo.RightDescentOneStep | progettoDemo.py:150-153 | a right-spine descent to height `h` in a tree of height `h + 2` whose right child is at most `h + 1` high stops after one step, at that child |
| ProgettoDemo.AsWrittenRun | progettoDemo.py:196-221 | from dictionaries shaped as those of LesserInstance and GreaterInstance, the guard at line 196 is false and the lesser root is taller, so the main block takes the `more_less_height` path; with line 158 as written it ends in a tree that is not a search tree |
| ProgettoDemo.RootHeightBySize | progettoDemo.py:196 | a valid dictionary of `n >= 1` entries has a root, whose height is 0 exactly when `n` is 1 |
| ProgettoDemo.BothJoins | progettoDemo.py:204-221 | with both trees at least two nodes, the re-insertion join and the structural join on rebuilt copies both yield the lesser list followed by the greater list |
| ProgettoDemo.RootGuard | progettoDemo.py:196 | the guard fails exactly when it reads the height of a missing root: the lesser root is absent, or it is not a leaf and the greater root is absent; when it holds, a root it reached has height 0 |
| ProgettoDemo.RootGuardBySize | progettoDemo.py:196 | for trees built from lists of `n1` and `n2` entries, the guard fails exactly when `n1 < 1`, or `n1 >= 2` and `n2 < 1`; it holds exactly when `n1 == 1`, or `n1 >= 2` and `n2 == 1`; both joins run exactly when both are at least 2 |
| ProgettoDemo.BuildTrees | progettoDemo.py:180-188 | the two lists have `max(dim, 0)` entries, are sorted and range-separated, and for `dim1 >= 0` together they are the keys `0 .. |lis1| + |lis2| - 1`; the two new dictionaries are distinct, valid, and hold exactly their lists in order |
| ProgettoDemo.DummyJoin | progettoDemo.py:196-202 | `concatenation_dummy` alone on range-separated dictionaries, either possibly empty, yields the lesser list followed by the greater list |
| ProgettoDemo.RunJoins | progettoDemo.py:180-221 | the run fails on reading a missing root exactly when `dim1 < 1`, or `dim1 >= 2` and `dim2 < 1`; it runs only the re-insertion join exactly when `dim1 == 1`, or `dim1 >= 2` and `dim2 == 1`, so a single-node lesser tree with an empty greater list ends holding `{0: 0}`; otherwise both joins run; with line 158 corrected every join yields the keys `0 .. dim1 + max(dim2, 0) - 1`, each mapped to itself, and the two joins agree |
| Dictionary.DictAVL.constructor | progettoDemo.py:94 | a new dictionary is empty and valid |
| Dictionary.DictAVL.Insert | progettoDemo.py:95 | insertion keeps the AVL invariants, updates the dictionary at the key, places the entry where sorted insertion would, and grows the height by at most one |
| Dictionary.DictAVL.DeleteNode | progettoDemo.py:91 | removing the node found by `maxKeySon` (`minKeySon`) drops exactly the last (first) in-order entry, keeps the AVL invariants and lowers the height by at most one |
| AvlTree.InsertCorrect | progettoDemo.py:51 | insertion keeps BST order, balance and a correct cache; its in-order sequence is sorted insertion into the old one; its dictionary is the old one updated at the key |
| AvlTree.InsertShape | progettoDemo.py:51 | insertion keeps balance and the height cache, growing the height by at most one |
| AvlTree.InsertOrder | progettoDemo.py:51 | insertion into a search tree yields sorted insertion into its in-order sequence |
| AvlTree.InsertHereOrder | progettoDemo.py:51 | the key at the root only has its value replaced |
| AvlTree.InsertLeftOrder | progettoDemo.py:51 | a smaller key goes into the left subtree and nothing after it moves |
| AvlTree.InsertRightOrder | progettoDemo.py:51 | a larger key goes into the right subtree and nothing before it moves |
| AvlTree.Insert | progettoDemo.py:70 | the result is a node that holds the inserted entry |
| AvlTree.MaxKeySon | progettoDemo.py:90 | `maxKeySon` finds the last in-order entry |
| AvlTree.MinKeySon | progettoDemo.py:145 | `minKeySon` finds the first in-order entry |
| AvlTree.DeleteMax | progettoDemo.py:91 | removing the maximum leaves the in-order sequence without its last entry |
| AvlTree.DeleteMaxCorrect | progettoDemo.py:91 | removing the maximum keeps the AVL invariants and lowers the height by at most one |
| AvlTree.DeleteMin | progettoDemo.py:146 | removing the minimum leaves the in-order sequence without its first entry |
| AvlTree.DeleteMinCorrect | progettoDemo.py:146 | removing the minimum keeps the AVL invariants and lowers the height by at most one |
| AvlTree.Height | progettoDemo.py:101 | `height` reads the cached `info[2]`, or -1 for an absent node; it has no contract of its own, and CachedHeightCorrect states that on a well-shaped tree it is the real height |
| AvlTree.InOrder | progettoDemo.py:68 | `DFS` yields nothing exactly for the empty tree; InOrderSize shows it yields one entry per node |
| AvlTree.UpdateHeight | progettoDemo.py:113 | `updateHeight` sets a node's cached height to one more than the taller child's; UpdateHeightInOrder shows it changes no entry |
| AvlTree.RotateRight | progettoDemo.py:114 | the left child becomes the subtree root, the old root becomes its right child, and the left child's right subtree moves under the old root; RotateRightInOrder shows the in-order sequence is kept |
| AvlTree.RotateLeft | progettoDemo.py:114 | the mirror of RotateRight; RotateLeftInOrder shows the in-order sequence is kept |
| AvlTree.Rotate | progettoDemo.py:114 | `rotate` keeps a node a node and does nothing when the balance is within one; RebalanceInOrder and RebalanceShape show it keeps the order and restores balance after `updateHeight` |
| AvlTree.Rebalance | progettoDemo.py:113-114 | `updateHeight` then `rotate` keeps a node a node; RebalanceInOrder, RebalanceShape and RebalanceIdle give order, balance and the idle case |
| AvlTree.UpdateHeightInOrder | progettoDemo.py:113 | `updateHeight` changes no entry |
| AvlTree.RotateRightInOrder | progettoDemo.py:114 | a right rotation keeps the in-order sequence |
| AvlTree.RotateLeftInOrder | progettoDemo.py:114 | a left rotation keeps the in-order sequence |
| AvlTree.RebalanceInOrder | progettoDemo.py:113-114 | `updateHeight` then `rotate` keeps the in-order sequence |
| AvlTree.RebalanceIdle | progettoDemo.py:133-137 | on a balanced node with a correct cache, `updateHeight` then `rotate` changes nothing |
| AvlTree.RebalanceEven | progettoDemo.py:113-114 | a node within one of balance only has its cache recomputed |
| AvlTree.RebalanceLeftHeavy | progettoDemo.py:114 | a node two out of balance to the left becomes well shaped, of the left subtree's height or one more |
| AvlTree.LeftHeavySingle | progettoDemo.py:114 | the single right rotation case of RebalanceLeftHeavy |
| AvlTree.LeftHeavyDouble | progettoDemo.py:114 | the left-right double rotation case, which restores the left subtree's height |
| AvlTree.RebalanceRightHeavy | progettoDemo.py:165 | mirror of RebalanceLeftHeavy |
| AvlTree.RightHeavySingle | progettoDemo.py:165 | mirror of LeftHeavySingle |
| AvlTree.RightHeavyDouble | progettoDemo.py:165 | mirror of LeftHeavyDouble |
| AvlTree.RebalanceShape | progettoDemo.py:113-114 | subtrees within two in height give a well-shaped node of the taller height or one more |
| AvlTree.CutLeft | progettoDemo.py:104 | `cutLeft` splits off the left subtree, which is empty exactly when the node has no left child; the two pieces hold the node's entries in order |
| AvlTree.CutRight | progettoDemo.py:155 | `cutRight` splits off the right subtree, which is empty exactly when the node has no right child; the two pieces hold the node's entries in order |
| AvlTree.GraftLeft | progettoDemo.py:105-106 | grafting onto an empty left slot puts the subtree's entries first |
| AvlTree.GraftRight | progettoDemo.py:107 | grafting onto an empty right slot puts the subtree's entries last |
| AvlTree.CutGraftRoundTrip | progettoDemo.py:104-107 | grafting back what was cut restores the node |
| AvlTree.CachedHeightCorrect | progettoDemo.py:101 | on a well-shaped tree the cached height `info[2]` is the real height |
| AvlTree.SizeBound | progettoDemo.py:13 | a well-shaped tree of height `h` has at least the minimal AVL node count for `h` |
| AvlTree.MinNodesExp | progettoDemo.py:13 | the minimal AVL node count for height `h` is at least `2^(h / 2)` |
| AvlTree.HeightLogarithmic | progettoDemo.py:13 | a well-shaped tree of height `h` holds at least `2^(h / 2)` nodes, so `h <= 2 log2(size) + 1` |
| AvlTree.SingleNodeIffLeaf | progettoDemo.py:196 | a root has cached height 0 exactly when the tree is one node |
| AvlTree.InOrderSize | progettoDemo.py:68 | `DFS` yields one entry per node |
| Spine.RebalanceUp | progettoDemo.py:111-115 | the loop `updateHeight; rotate; rad = rad.father` computes the upward walk |
| Spine.Walk | progettoDemo.py:111-115 | the upward walk ends at a node whenever there is a cursor node or an ancestor; RebalanceUp computes it, and WalkInOrder and WalkShape give its order and shape |
| Spine.WalkInOrder | progettoDemo.py:112-115 | the upward walk keeps the whole tree's in-order sequence |
| Spine.WalkShape | progettoDemo.py:112-115 | once the cursor's subtree is well shaped and at most one taller, the walk leaves a well-shaped tree of the old root height or one more |
| Spine.GrowStep | progettoDemo.py:113-115 | one step of that walk |
| Spine.PlugAllInOrder | progettoDemo.py:115 | the whole tree's entries are the ancestors' entries before the cursor, the cursor's, then those after |
| Spine.PlugAllHeight | progettoDemo.py:115 | the root's height depends on the cursor's subtree only through its height |
| Spine.LeftSpineBefore | progettoDemo.py:102 | a descent along left children has nothing before the cursor |
| Spine.RightSpineAfter | progettoDemo.py:153 | a descent along right children has nothing after the cursor |
| Spine.SpliceLeftShape | progettoDemo.py:104-114 | after the left splice, rebalancing the pivot and then `rad` gives a well-shaped subtree at most one taller than `rad` was, even when `rad` is three out of balance |
| Spine.SpliceRightShape | progettoDemo.py:155-165 | mirror of SpliceLeftShape |
| EntryLists.SortedInsertCorrect | progettoDemo.py:51 | sorted insertion keeps the sequence sorted and denotes the dictionary updated at the key |
| EntryLists.SortedInsertSorted | progettoDemo.py:51 | sorted insertion keeps the sequence sorted |
| EntryLists.SortedInsertToMap | progettoDemo.py:51 | sorted insertion denotes the dictionary updated at the key |
| EntryLists.SortedUnique | progettoDemo.py:45-53 | two sorted sequences denoting the same dictionary are equal |
| EntryLists.SeparatedJoin | progettoDemo.py:69-70 | a sorted sequence denoting the union of two separated sorted sequences is their concatenation |

## Left out

- The `dictionaryAVL` module is not part of this model. Its operations are reconstructed from how the routines use them, as a standard AVL tree, and cited at their call sites.
- CutLeft: on a node with no left child it returns the empty subtree, which lines 104-107 then graft as an empty right child of the pivot. `cutLeft` lives in the dictionary module, which is not part of this model, and a version that fails on an absent child would make the structural join fail there. The main block reaches this case: with `dim1 = 2, dim2 = 4`, the lesser tree is the leaf 0 once its maximum is removed, and the descent in the greater tree stops at the leaf 2.
- CutRight: on a node with no right child it returns the empty subtree, which lines 155-158 then graft. A `cutRight` that failed on an absent child would make `more_less_height` fail whenever its descent stops at a node with no right child.
- `deleteNode` is modelled only for the node `maxKeySon(root)` or `minKeySon(root)`, the only nodes these routines pass. General deletion and its error for a foreign node are not modelled.
- Parent links (`father`) are not stored in nodes. The cursor's ancestors are an explicit list, so the consistency of back-references is not stated, and neither is the sharing of nodes between dictionaries. In the source, the lesser tree's nodes end up inside the greater tree and later rotations change them. In the model, the consumed dictionary keeps the tree it had after the pivot was removed.
- `rotate` lives in the dictionary module, which is not part of this model; the rotation here is a reconstruction on tree values. It rotates whenever the balance exceeds 1 in magnitude. The structural joins depend on that choice at one place: after a splice, `rad` can be three out of balance (SpliceLeftShape, SpliceRightShape), and a `rotate` that tested for a balance of exactly 2 would leave that node unbalanced. A rotation that relinks nodes would make the next `rad.father` the new subtree root, a visit that changes nothing (RebalanceIdle). A rotation that swaps node contents has no such visit. `Walk` moves straight to the ancestor, which is the same result in both cases.
- `insert` overwrites the value of a key already present, which is a reconstruction. The commented-out line 27 hints that the real `insert` may keep nodes with equal keys apart. That choice matters only for overlapping keys, which `seqList` never produces, and for `concatenation_dummy` on dictionaries with keys in common.
- `randList` (random keys), argument parsing, `time()` measurements and all printing are left out. The argument count check at line 174 is also left out.
- `DFS` is a finite in-order sequence, not a lazy generator.
- Python integers are unbounded, as `int` is here, so no width is modelled.
- `concatenation_dummy` returns nothing in the source. The model returns the receiving dictionary so that its contract can name it.

## Findings

| source | as written | input that shows it | evidently intended | confidence | as-written member | corrected member |
|---|---|---|---|---|---|---|
| progettoDemo.py:158 | the cut right subtree of `rad` becomes the left child of `rad.leftSon`, replacing what hung there; the pivot keeps an empty left child | lesser keys 0 to 6, greater keys 7 and 8: the descent stops at key 5, and key 6 ends up before keys 4 and 5 | the cut subtree becomes the left child of the pivot `rad.rightSon`, the mirror of line 107 | not executed | ProgettoDemo.SpliceAsWrittenExample | ProgettoDemo.MoreLessHeight |
