# AVL tree and its enumerator, modelled in Dafny

This project models a generic AVL tree: a height-balanced binary search tree.
Items are ordered by a three-way comparator. Every occupied node owns two
subtrees and records `diff`, the height of its right subtree minus the height
of its left. The tree offers `insert`, `remove`, `replace`, `find`,
`contains` and `getSize`, and it can hand out an enumerator. The enumerator
walks the tree in preorder, inorder or postorder with an explicit stack,
producing one item per `next` call.

Modules:

- `AvlDefs` (`avl_defs.dfy`): the data model and the specification functions.
  - Items are `Item(key, value)`; the comparator looks at `key` only.
  - Nodes are `Tree = Empty | Node(left, data, diff, right)`.
  - Spec functions: heights, counts, key and item sets, and the three
    traversals.
  - Predicates: search order (`Ordered`), exact balance factors (`DiffOk`),
    the AVL invariant (`Avl`), and `Valid = Ordered && Avl`.
  - A Fibonacci lower bound on the size of an AVL tree of a given height.
- `AvlRotations` (`avl_rotations.dfy`): the four rotations and `Rebalance`.
  - Each rotation recomputes the balance factors of the nodes it rebuilds
    from the old factors alone. The C++ rotations assign no factors at all
    (see "Left out").
  - The lemmas show the recomputed factors are exact.
- `AvlInsert` (`avl_insert.dfy`): insertion, and the "did the child grow" test
  that the parent's balance factor relies on.
- `AvlRemove` (`avl_remove.dfy`): removal.
  - Covers the three cases of deleting a matched node.
  - The successor walk is a loop.
  - Includes the "did the child shrink" test.
- `AvlLookup` (`avl_lookup.dfy`): `find`, `contains` and `replace`.
- `AvlEnumerator` (`avl_enumerator.dfy`): the traversal order, and the
  enumerator as a class over a stack of frames. `EnumerateAll` drains it.
- `AvlTreeApi` (`avl_tree.dfy`): the tree object. It holds the root and the
  size, and its methods keep `Valid()`.
- `AvlFindings` (`avl_findings.dfy`): code paths whose bookkeeping disagrees
  with the documented contracts, written as the code does it, each with an
  input that shows the disagreement.

The C++ rotations rewire pointers in place. The model rebuilds the affected
nodes as values and returns the new subtree. Likewise, `insert`, `remove` and
`replace` become functions that return the rebuilt subtree together with the
boolean result. The `AVLTree` class reassigns its `root` and `size` fields
from those results. The enumerator keeps its stack in a field and updates it
step by step, as the source intends.

## Model

| member | source | states |
|---|---|---|
| AvlDefs.Compare | Project4/Project4/AVLTree.h:12 | the comparator is negative, zero or positive exactly when the first key is smaller, equal or larger |
| AvlDefs.KeysCount | Project4/Project4/AVLTree.h:13 | in an ordered tree the number of nodes equals the number of distinct keys, so `size` counts the items |
| AvlDefs.UniqueKeys | Project4/Project4/AVLTree.h:34-35 | an ordered tree never holds two different equivalent items |
| AvlDefs.KeysOfElems | Project4/Project4/AVLTree.h:14 | the key of every stored item is among the tree's keys |
| AvlDefs.ElemsOfKeys | Project4/Project4/AVLTree.h:14 | every key of the tree belongs to some stored item |
| AvlDefs.AvlHeightBound | Project4/Project4/AVLTree.h:16 | an AVL tree of height h holds at least Fib(h+2)-1 items, so its height is logarithmic in its size |
| AvlRotations.Zig | Project4/Project4/AVLTree.h:276-292 | a right rotation keeps the keys, items and count, and keeps search order |
| AvlRotations.Zag | Project4/Project4/AVLTree.h:258-274 | a left rotation keeps the keys, items and count, and keeps search order |
| AvlRotations.ZigZag | Project4/Project4/AVLTree.h:240-247 | the double rotation keeps the keys, items and count, and keeps search order |
| AvlRotations.ZagZig | Project4/Project4/AVLTree.h:249-256 | the double rotation keeps the keys, items and count, and keeps search order |
| AvlRotations.Rebalance | Project4/Project4/AVLTree.h:214-238 | rebalancing keeps the keys, items and count, and keeps search order |
| AvlRotations.ZigInorder | Project4/Project4/AVLTree.h:276-292 | a right rotation leaves the inorder sequence of items unchanged |
| AvlRotations.ZagInorder | Project4/Project4/AVLTree.h:258-274 | a left rotation leaves the inorder sequence of items unchanged |
| AvlRotations.RebalanceInorder | Project4/Project4/AVLTree.h:214-238 | whichever rotation rebalancing picks, the inorder sequence is unchanged |
| AvlRotations.RightRotationOrdered | Project4/Project4/AVLTree.h:284-289 | search order survives the pointer moves of a right rotation |
| AvlRotations.LeftRotationOrdered | Project4/Project4/AVLTree.h:266-271 | search order survives the pointer moves of a left rotation |
| AvlRotations.ZigDiffs | Project4/Project4/AVLTree.h:276-292 | the balance factors a right rotation computes from the old ones equal the new height differences |
| AvlRotations.ZagDiffs | Project4/Project4/AVLTree.h:258-274 | the balance factors a left rotation computes from the old ones equal the new height differences |
| AvlRotations.RebalanceCorrect | Project4/Project4/AVLTree.h:214-238 | at a nearly balanced node, rebalancing does nothing when diff is in [-1, 1]; otherwise it yields an AVL tree, and the resulting factor and height drop follow from the heavy child's factor |
| AvlRotations.ZigCase | Project4/Project4/AVLTree.h:221-224 | left-heavy node with a non-right-leaning left child: a right rotation balances it; height drops unless the child was level |
| AvlRotations.ZigZagCase | Project4/Project4/AVLTree.h:225-228 | left-heavy node with a right-leaning left child: the double rotation balances it, with factor 0 and height one less |
| AvlRotations.ZigZagInner | Project4/Project4/AVLTree.h:240-247 | the left rotation of the left child keeps its height and yields the shape the following right rotation needs |
| AvlRotations.ZagCase | Project4/Project4/AVLTree.h:233-236 | mirror of ZigCase for a right-heavy node |
| AvlRotations.ZagZigCase | Project4/Project4/AVLTree.h:229-232 | mirror of ZigZagCase for a right-heavy node |
| AvlRotations.ZagZigInner | Project4/Project4/AVLTree.h:249-256 | mirror of ZigZagInner |
| AvlInsert.InsertBalanced | Project4/Project4/AVLTree.h:153-209 | insertion keeps a valid tree valid; an empty node becomes a leaf holding the item with two empty children; the height grows by one exactly when the parent's growth test says so |
| AvlInsert.InsertContents | Project4/Project4/AVLTree.h:153-209 | insertion succeeds exactly when no equivalent item is present; then the items gain exactly the new item and the count grows by one; otherwise the tree is unchanged |
| AvlInsert.InsertedLeft | Project4/Project4/AVLTree.h:168-186 | descending left rebalances the node rebuilt over the new left subtree, and that node is ordered |
| AvlInsert.InsertedRight | Project4/Project4/AVLTree.h:187-205 | descending right rebalances the node rebuilt over the new right subtree, and that node is ordered |
| AvlInsert.InsertLeftStep | Project4/Project4/AVLTree.h:168-186 | an item ordered before the node goes into the left subtree, and the node's factor drops by one when that subtree grew |
| AvlInsert.InsertRightStep | Project4/Project4/AVLTree.h:187-205 | an item ordered after the node goes into the right subtree, and the node's factor rises by one when that subtree grew |
| AvlInsert.LeftInserted | Project4/Project4/AVLTree.h:168-186 | the left subtree's result (inserted or not, items added) carries over to the whole node |
| AvlInsert.RightInserted | Project4/Project4/AVLTree.h:187-205 | the right subtree's result carries over to the whole node |
| AvlInsert.LeftGrowth | Project4/Project4/AVLTree.h:179-184 | when the left child grows as the test reports, the adjusted node is nearly balanced, rebalancing restores AVL, and the node's own growth is reported correctly to its parent |
| AvlInsert.RightGrowth | Project4/Project4/AVLTree.h:198-203 | mirror of LeftGrowth for the right child |
| AvlLookup.FindCorrect | Project4/Project4/AVLTree.h:82-93 | find returns the stored equivalent item exactly when one is present, and otherwise fails with NotFound |
| AvlLookup.ContainsCorrect | Project4/Project4/AVLTree.h:46-48 | contains is true exactly when an equivalent item is present |
| AvlLookup.ReplaceCorrect | Project4/Project4/AVLTree.h:131-149 | replace succeeds exactly when an equivalent item is present; it swaps that one item for the new one; keys, count, height and validity are kept; afterwards find returns the new item; otherwise nothing changes |
| AvlLookup.ReplacedHere | Project4/Project4/AVLTree.h:136 | overwriting the matched node's item keeps keys, count, height and validity, and makes find return the new item |
| AvlLookup.ReplacedLeft | Project4/Project4/AVLTree.h:139-143 | the left subtree's replacement result carries over to the node |
| AvlLookup.ReplacedRight | Project4/Project4/AVLTree.h:144-148 | the right subtree's replacement result carries over to the node |
| AvlRemove.InorderSuccessor | Project4/Project4/AVLTree.h:345-349 | the leftmost walk returns the first item of the subtree's inorder sequence; in an ordered subtree that item is stored there and has the smallest key |
| AvlRemove.LeftmostFirst | Project4/Project4/AVLTree.h:345-349 | the leftmost item is the first item in order |
| AvlRemove.LeftmostMinimal | Project4/Project4/AVLTree.h:345-349 | in an ordered subtree the leftmost item is stored there and has the smallest key |
| AvlRemove.RemoveContents | Project4/Project4/AVLTree.h:97-128 | removal succeeds exactly when an equivalent item is present; exactly the items with that key disappear and the count drops by one; the result stays ordered; otherwise the tree is unchanged |
| AvlRemove.RemoveBalanced | Project4/Project4/AVLTree.h:97-128 | removal keeps a valid tree an AVL tree, and its height drops by one exactly when the parent's shrink test says so |
| AvlRemove.LeftRemoved | Project4/Project4/AVLTree.h:107-113 | the left subtree's removal result carries over to the rebalanced node |
| AvlRemove.RightRemoved | Project4/Project4/AVLTree.h:114-119 | the right subtree's removal result carries over to the rebalanced node |
| AvlRemove.LeftReplaced | Project4/Project4/AVLTree.h:107-113 | a node whose left subtree lost the key loses exactly that key and its items |
| AvlRemove.RightReplaced | Project4/Project4/AVLTree.h:114-119 | a node whose right subtree lost the key loses exactly that key and its items |
| AvlRemove.RemovedLeft | Project4/Project4/AVLTree.h:107-113 | descending left rebalances the node rebuilt over the new left subtree, and that node is ordered |
| AvlRemove.RemovedRight | Project4/Project4/AVLTree.h:114-119 | descending right rebalances the node rebuilt over the new right subtree, and that node is ordered |
| AvlRemove.FoundContents | Project4/Project4/AVLTree.h:120-125 | at the matched node, removal deletes the node's item and reports success; the item is the only one with that key |
| AvlRemove.DeleteContents | Project4/Project4/AVLTree.h:318-359 | deleting a matched node removes exactly its item and keeps search order, in each of the three cases |
| AvlRemove.DeleteBalanced | Project4/Project4/AVLTree.h:318-359 | deleting a matched node and rebalancing gives an AVL tree whose height drops exactly when the shrink test says so |
| AvlRemove.SuccessorMoved | Project4/Project4/AVLTree.h:344-357 | with two children, the node takes the successor's item and the right subtree loses it: keys, items and count shrink by exactly the deleted item and order is kept |
| AvlRemove.SuccessorKeys | Project4/Project4/AVLTree.h:350-355 | moving the successor up removes exactly the deleted key |
| AvlRemove.SuccessorElems | Project4/Project4/AVLTree.h:350-355 | moving the successor up removes exactly the deleted item |
| AvlRemove.SuccessorOrdered | Project4/Project4/AVLTree.h:350-355 | the successor is a valid separator between the left subtree and the rest of the right subtree |
| AvlRemove.LeftShrink | Project4/Project4/AVLTree.h:112 | when the left child shrinks as the test reports, the adjusted node rebalances to an AVL tree whose own shrinking is reported correctly |
| AvlRemove.RightShrink | Project4/Project4/AVLTree.h:118 | mirror of LeftShrink for the right child, also used for the successor removal |
| AvlEnumerator.AVLTreeEnumerator.constructor | Project4/Project4/AVLTreeEnumerator.h:27-32 | the new enumerator keeps the order and tree given, has produced nothing, and still owes the whole traversal |
| AvlEnumerator.AVLTreeEnumerator.BuildTraversalStack | Project4/Project4/AVLTreeEnumerator.h:67-71 | priming the stack with the tree leaves the enumerator valid, owing exactly the traversal in the chosen order |
| AvlEnumerator.AVLTreeEnumerator.Descend | Project4/Project4/AVLTreeEnumerator.h:67-71 | pushing children until the top frame is ready leaves the owed items unchanged |
| AvlEnumerator.AVLTreeEnumerator.HasNext | Project4/Project4/AVLTreeEnumerator.h:40-45 | hasNext is true exactly when an item remains to be produced |
| AvlEnumerator.AVLTreeEnumerator.Peek | Project4/Project4/AVLTreeEnumerator.h:54-59 | peek returns the first owed item (the one next would produce) without changing state, and fails with EnumerationBeyondEnd when nothing remains |
| AvlEnumerator.AVLTreeEnumerator.Next | Project4/Project4/AVLTreeEnumerator.h:47-52 | next produces the first owed item and owes the rest; it fails with EnumerationBeyondEnd, changing nothing, exactly when nothing remains |
| AvlEnumerator.AVLTreeEnumerator.GetOrder | Project4/Project4/AVLTreeEnumerator.h:61-65 | getOrder returns the order the enumerator was built with |
| AvlEnumerator.EnumerateAll | Project4/Project4/AVLTreeEnumerator.h:19-22 | calling next until hasNext is false yields exactly the traversal of the tree in the chosen order |
| AvlEnumerator.PushSubtreePending | Project4/Project4/AVLTreeEnumerator.h:14 | pushing a subtree owes its traversal ahead of what was owed |
| AvlEnumerator.ExpandPending | Project4/Project4/AVLTreeEnumerator.h:14 | expanding the top frame owes the same items and leaves less to descend |
| AvlEnumerator.AdvancePending | Project4/Project4/AVLTreeEnumerator.h:14 | popping the ready top frame and pushing its remaining children owes exactly the items after the top item |
| AvlEnumerator.PendingNonEmpty | Project4/Project4/AVLTreeEnumerator.h:14 | a stack of occupied subtrees owes nothing exactly when it is empty |
| AvlEnumerator.PopFront | Project4/Project4/AVLTreeEnumerator.h:47-52 | moving the first owed item to the produced ones keeps the whole traversal |
| AvlEnumerator.InorderContents | Project4/Project4/AVLTree.h:56 | the inorder traversal has one entry per node and lists exactly the tree's items |
| AvlEnumerator.PreorderPermutation | Project4/Project4/AVLTree.h:56 | preorder lists the same items as inorder, with the same multiplicities |
| AvlEnumerator.PostorderPermutation | Project4/Project4/AVLTree.h:56 | postorder lists the same items as inorder, with the same multiplicities |
| AvlEnumerator.TraversalPermutation | Project4/Project4/AVLTree.h:56 | every order lists each item of the tree exactly as often as it is stored, and one entry per node |
| AvlEnumerator.InorderIncreasing | Project4/Project4/AVLTree.h:56 | in an ordered tree the inorder traversal is strictly increasing by key |
| AvlEnumerator.IncreasingJoin | Project4/Project4/AVLTree.h:56 | two increasing sequences joined around a separating item stay increasing |
| AvlTreeApi.AVLTree.constructor | Project4/Project4/AVLTree.h:60-64 | a new tree is empty, valid and has size 0 |
| AvlTreeApi.AVLTree.Insert | Project4/Project4/AVLTree.h:153-209 | insert returns true exactly when no equivalent item was present; then the items gain exactly the new item and size grows by one; otherwise tree and size are unchanged; the tree stays valid |
| AvlTreeApi.AVLTree.Remove | Project4/Project4/AVLTree.h:97-128 | remove returns true exactly when an equivalent item was present; exactly the items with that key disappear and size drops by one; otherwise tree and size are unchanged; the tree stays valid |
| AvlTreeApi.AVLTree.Replace | Project4/Project4/AVLTree.h:131-149 | replace returns true exactly when an equivalent item was present; that item, and only it, becomes the new one; keys and size never change; otherwise the tree is unchanged |
| AvlTreeApi.AVLTree.Find | Project4/Project4/AVLTree.h:82-93 | find returns a stored item with the same key exactly when one is present, else fails with NotFound |
| AvlTreeApi.AVLTree.Contains | Project4/Project4/AVLTree.h:46-48 | contains is true exactly when an equivalent item is present |
| AvlTreeApi.AVLTree.GetSize | Project4/Project4/AVLTree.h:74-79 | getSize returns the number of distinct keys stored |
| AvlTreeApi.AVLTree.Enumerator | Project4/Project4/AVLTree.h:56 | the new enumerator is valid, starts with nothing produced, and owes the traversal of the current tree in the chosen order |
| AvlTreeApi.InsertRemoveRoundTrip | Project4/Project4/AVLTree.h:34-44 | inserting an absent item and then removing it succeeds and gives back a valid tree with the same items, keys and count |
| AvlTreeApi.RoundTripContents | Project4/Project4/AVLTree.h:34-44 | adding an item under a fresh key and then removing that key restores the items and keys |
| AvlFindings.InsertReportAsWritten | Project4/Project4/AVLTree.h:153-209 | as written, insert into an empty node reports true without counting it; anywhere else it reports true exactly when the item differs from the node's own, whatever the child found |
| AvlFindings.InsertIntoEmptyKeepsSizeZero | Project4/Project4/AVLTree.h:156-162 | as written, the first insertion reports success but the size stays 0 though the tree holds one item |
| AvlFindings.InsertDuplicateBelowRootReportsTrue | Project4/Project4/AVLTree.h:168-208 | as written, inserting a key already stored below the root reports success and counts one more item |
| AvlFindings.DeleteNodeAsWritten | Project4/Project4/AVLTree.h:342-358 | the two-children deletion with the shrink test as written takes out the same key as the corrected one |
| AvlFindings.RemoveSuccessorStep | Project4/Project4/AVLTree.h:355 | removing 3 from the subtree 3-4-5 leaves the right-leaning subtree 4-5 of the same height |
| AvlFindings.ShrinkExampleValid | Project4/Project4/AVLTree.h:16 | the example tree used for the shrink finding is a valid AVL tree |
| AvlFindings.DeleteShrinkMisjudged | Project4/Project4/AVLTree.h:357 | on that valid tree, deleting the root with the test as written leaves a wrong balance factor, while the corrected test keeps it exact |
| AvlFindings.RemoveReportAsWritten | Project4/Project4/AVLTree.h:97-128 | as written, remove reports the corrected result, but only the node holding the item decrements its own size; a node that passes the call to a child keeps its size |
| AvlFindings.RemoveBelowRootKeepsSize | Project4/Project4/AVLTree.h:107-119 | as written, removing a key stored below the root reports success and removes one item, but the root's size does not change |
| AvlFindings.ShrankOnRemoveAsWritten | Project4/Project4/AVLTree.h:112 | the shrink test as written: the child is empty afterwards, or its factor changed to zero, counting a child that was already empty |
| AvlFindings.RemoveAsWritten | Project4/Project4/AVLTree.h:97-128 | removal with the shrink test as written reports the same result as the corrected removal |
| AvlFindings.AbsentRemoveRestructures | Project4/Project4/AVLTree.h:112 | on the valid tree 5-(8), removing the absent key 3 as written reports failure but rotates into a tree that is not AVL; the corrected removal leaves the tree unchanged |
| AvlFindings.AbsentExampleValid | Project4/Project4/AVLTree.h:16 | the example tree 5-(8) is a valid AVL tree |
| AvlFindings.AbsentRemoveAsWritten | Project4/Project4/AVLTree.h:107-113 | as written, removing 3 from 5-(8) bumps the root factor to 2 and rotates into 5-8 with a wrong factor at 5 |
| AvlFindings.AbsentRemoveCorrected | Project4/Project4/AVLTree.h:42-44 | with the corrected test, removing 3 from 5-(8) reports false and leaves the tree unchanged |
| AvlFindings.ZigAsWritten | Project4/Project4/AVLTree.h:276-292 | the right rotation as written leaves a node without a right child as it is, and otherwise rotates as the corrected one does |
| AvlFindings.ZigGuardSkipsLeftLeft | Project4/Project4/AVLTree.h:282 | after inserting 3, 2, 1 the root is nearly balanced with factor -2; the rotation as written leaves it so, not AVL, while the corrected rotation gives an AVL tree |

## Left out

- The comparator: `Comparator.h` is not part of this model. Items carry an integer `key` and any payload. The comparator is the three-way comparison of keys, so "equivalent" means "same key".
- Memory management is not modelled: `new`/`delete`, the empty destructors, `createSubTree`, and pointer ownership. An empty subtree is the `Empty` value.
- The in-place pointer rewiring of the rotations, `swap`, and the `this = ...` assignments in `deleteSubTree` are modelled on values, so aliasing between nodes is not captured. The rotations are modelled as their comments describe. `swap` does nothing in the source, and the value model needs no counterpart.
- `size` is kept only at the root (the `AVLTree` class field). Per-node sizes are not modelled. The source's root count itself goes wrong on insertion into an empty tree, on duplicates below the root, and on removal below the root; see "Findings".
- AvlRotations.Zig: the source's `zig` and `zag` (lines 258-292) assign no balance factor, so as written every rotation leaves stale factors; the model recomputes the factors of the rebuilt nodes. `zig`'s early return on an empty right child (line 282) is not followed (see "Findings").
- AvlRotations.Zag: assigns the recomputed factors of the rebuilt nodes, where the source's `zag` (lines 258-274) assigns none.
- AvlRemove.Shrank: requires the child to be occupied before the call, where the source's tests at lines 112 and 118 also fire for a child that was already empty (see "Findings").
- `AvlTreeApi.AVLTree.Insert`: `size` is an unbounded `nat`; `unsigned long` wrap-around is not modelled, since it would need more than 2^64 items.
- The exceptions `ExceptionAVLTreeAccess` and `ExceptionEnumerationBeyondEnd` are modelled as the `Err(NotFound)` and `Err(EnumerationBeyondEnd)` results.
- The `Enumerator<T>` base class and the `AVLTreeOrder` header are not part of this model. The order is a local three-value datatype.
- The enumerator's source is unfinished: `buildTraversalStack` is empty, and `hasNext`/`next`/`peek` call members that `std::stack` does not have. Its behaviour is therefore modelled from its declared state (an order and a stack of subtrees) and its comments.
  - The stack holds frames (a subtree, plus whether its children were already pushed).
  - `next` pops the top frame, pushes what remains to be visited, and descends.
  - The enumerator reads the tree value it was created over. The rule that the tree must not change during enumeration holds by construction.
- `AvlTreeApi.AVLTree.Enumerator` takes no default order: Dafny methods have no default arguments. The source's default is inorder.
- The source contradicts its own documented contracts in several places and does not compile as written (`this = ...`, `left->dif`, `right->isEmpty()()`). The model follows the documented behaviour instead of these lines:
  - `isEmpty` answers the opposite of its name.
  - The `rebalance` guard returns whenever `|diff| >= 1`; the model rotates exactly when `diff` is ±2.
  - `find` descends right when the stored item is larger, opposite to `insert` and `remove`; the model descends toward the item.
  - `remove` recurses left with the node's own item, and `insert` recurses right with it; the model passes the item being inserted or removed.
  - `replace` rejects the equal case and calls `insert` on a child; the model overwrites the equivalent item, as its declaration's comment states.
  - `zigzag` rotates the right child instead of the left; the model rotates the left child, as the declaration's comment states.
- `look` is folded into `Find`. `contains` and `enumerator` are declared but not defined in the source; they are modelled from their declarations.

## Findings

| source | as written | input that shows it | evidently intended | confidence | as-written member | corrected member |
|---|---|---|---|---|---|---|
| Project4/Project4/AVLTree.h:156-162 | inserting into an empty node returns true before `size++` at line 206 is reached | insert any item into a new, empty tree: the tree holds one item but `getSize` returns 0 | the size grows by one on every successful insertion | not executed | AvlFindings.InsertIntoEmptyKeepsSizeZero | AvlTreeApi.AVLTree.Insert |
| Project4/Project4/AVLTree.h:168-208 | the result of the recursive `insert` into the child is discarded; the node always returns true and increments `size` | tree with root key 5 and left leaf key 3; insert key 3: it returns true and the size grows, though nothing was inserted | return false and leave the size unchanged when an equivalent item sits below the root | not executed | AvlFindings.InsertDuplicateBelowRootReportsTrue | AvlInsert.InsertContents |
| Project4/Project4/AVLTree.h:357 | after removing the successor, the node's `diff` is lowered whenever the right child's `diff` changed at all | valid tree 1-2-(3-4-5), root key 2; remove 2: the right subtree's factor goes from 0 to 1 at the same height, yet the root's factor is lowered to 0, where the heights give 1 | lower `diff` only when the right child, occupied before the call, became empty or its factor changed to 0 (the test of line 118 for a child that was occupied) | not executed | AvlFindings.DeleteShrinkMisjudged | AvlRemove.DeleteBalanced |
| Project4/Project4/AVLTree.h:107-119 | neither descent branch of `remove` decrements `size`; only the matched node does (line 124), and `getSize` (line 78) reads the root's field | tree with root key 5 and left leaf key 3; remove key 3: it returns true and the tree holds one item, but `getSize` still returns 2 | every node on the path decrements its size when the child reports a removal | not executed | AvlFindings.RemoveBelowRootKeepsSize | AvlTreeApi.AVLTree.Remove |
| Project4/Project4/AVLTree.h:112 | the shrink test counts a child that was already empty before the call, which is where the search for an absent item ends (line 118 likewise) | valid tree 5 with right leaf 8; remove key 3: it returns false, yet the root's factor becomes 2 and the rotation leaves 5-8 with factor 1 at the leaf 5, not an AVL tree | a child that was empty before the call did not shrink, so a failed removal changes nothing | not executed | AvlFindings.AbsentRemoveRestructures | AvlRemove.RemoveContents |
| Project4/Project4/AVLTree.h:282 | `zig` returns early when the right child is empty | insert 3, 2, 1: the root 3 has factor -2 and no right child, so `zig` leaves it unbalanced | rotate whenever the left child is occupied, as `zag` guards only its right child (line 264) | not executed | AvlFindings.ZigGuardSkipsLeftLeft | AvlRotations.ZigCase |
