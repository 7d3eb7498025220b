# AVL tree snapshot (exx8/mavnat) in Dafny

This project models an early snapshot of a Java AVL tree. In this version
`insert` is a plain binary-search-tree insertion:

- It descends by key comparison to a virtual (sentinel) child slot.
- It refuses a key it meets on the way with -1.
- Otherwise it hangs a new real node there, with two fresh sentinels of height -1.
- `updateHeightsToRoot` then raises ancestor heights, stopping at the first
  ancestor that is already tall enough.
- It performs no rotations and always reports 0.

The project also models the test helpers that give the tree its meaning:

- `TestUtils`: the order, height, AVL-rank, parent and sentinel-leaf
  checkers; the preorder scan; the rebuild of a tree from a preorder list; the
  height recomputation; the search by key.
- The two `AVLSanitizer` classes: they recompute heights, subtree sizes and
  key sums and compare them with stored fields.

Modules, one per file:

- `Int32` (`int32.dfy`): Java `int` range and the wrap-around of `+`.
- `Wrappers` (`wrappers.dfy`): `Option`.
- `Nodes` (`nodes.dfy`): the node datatype, the `AVLNode` constructor, key
  views (key set, in-order sequence), and the invariants stated
  declaratively: BST order, sentinel leaves, parent links, height recurrence,
  AVL ranks, size and sum recurrences.
- `AVLTree` (`avl_tree.dfy`): `getRoot`, `insert` and `updateHeightsToRoot`.
- `TestUtils` (`test_utils.dfy`): the checkers and builders of `TestUtils.java`.
- `Sanitizer` (`sanitizer.dfy`): `test/AVLSanitizer.java`.
- `ExternalSanitizer` (`external_sanitizer.dfy`): `test/ExternalTests/AVLSanitizer.java`.
- `Scenarios` (`scenarios.dfy`): concrete insertion sequences from the
  repository's tests, proved about the model.

Modelling choices:

- A slot is `Null` (Java `null`), `Virtual` (a sentinel) or `Real`.
- Trees are immutable values. Child links are structural.
- A parent reference is stored as the key of the parent (`None` for `null`).
  In a BST the keys are distinct, so this names the parent uniquely.
- The upward walk of `updateHeightsToRoot` becomes the return path of a
  recursive descent (`AVLTree.InsertRec`). Each level receives a flag saying
  whether the walk reached it (`AVLTree.RaiseParent`).
- A checker that fails a JUnit assertion or dereferences `null` returns
  `None` or `false`.
- `calcSum` adds in Java 32-bit `int` arithmetic, written out with `Int32.Wrap`.

Where the interface comment and the code disagree, the code is followed.
`src/AVLTree.java:192` says a virtual node's key is -1. The code creates
sentinels with key 0 and value `""` (`src/AVLTree.java:57-58`), and so does
the model.

## Model

| member | source | states |
|---|---|---|
| Nodes.MakeNode | src/AVLTree.java:233-245 | the constructor stores key, value and parent; it makes a real node exactly when `realNode` is set, with height 0, null children and size and sum 0 (Java defaults); a virtual node gets height -1 |
| Nodes.WithHeight | src/AVLTree.java:284-286 | `setHeight` sets the height to the given value and changes no other field |
| Nodes.SentinelLeaves | test/TestUtils.java:142-148 | definition of what `testUnrealLeavesRec` asserts; its meaning for the checkers is stated by `TestUtils.TestBSTMeaning` and `TestUtils.TestAVLMeaning` |
| Nodes.ParentsLinked | test/TestUtils.java:58-64 | definition of what `testParentsRec` asserts; its meaning for the checkers is stated by `TestUtils.TestBSTMeaning` and `TestUtils.TestAVLMeaning` |
| AVLTree.NewLeaf | src/AVLTree.java:56-58 | the node `insert` creates is real, with the given key, value and parent, height 0, size and sum 0, and two sentinel children |
| AVLTree.NewLeafInvariants | src/AVLTree.java:56-58 | on its own the new node is a BST holding only its key, with correct heights, sentinel leaves and parent links pointing to it |
| AVLTree.GetRoot | src/AVLTree.java:159-161 | `getRoot` is null exactly when the tree holds no key; a non-null root of a linked tree has no parent |
| AVLTree.RaiseParent | src/AVLTree.java:18-24 | one step of `updateHeightsToRoot`: the parent's height only rises, and only to child height + 1; the walk continues exactly when it rose; a parent the walk did not reach is untouched |
| AVLTree.InsertRec | src/AVLTree.java:63-79 | the descent meets `k` only if it is present; otherwise the subtree's keys grow by exactly `{k}`; a sentinel slot becomes the new leaf with the sentinel's parent; a real node keeps its key, value, parent, size and sum; its height never falls and changed exactly when the walk continues above it; the subtree off the descent path is unchanged |
| AVLTree.Insert | src/AVLTree.java:55-82 | returns -1 or 0; -1 leaves the tree unchanged and means `k` was present; 0 means the keys grew by exactly `{k}`; an empty tree gets the new node as root; a non-empty tree keeps its root node |
| AVLTree.SlotOwner | src/AVLTree.java:63-77 | the last real node of the descent for an absent key has a sentinel on the side the key goes to |
| AVLTree.InsertRecDuplicateIffPresent | src/AVLTree.java:64-71 | in a BST the descent returns -1 exactly when the key is in the tree |
| AVLTree.InsertRecKeepsOrder | src/AVLTree.java:64-78 | splicing a fresh key into a BST keeps BST order |
| AVLTree.InsertRecKeepsHeights | src/AVLTree.java:18-24 | with the height recurrence before, it holds after; the spliced subtree is exactly one level taller when the walk continues and the same height when it stopped |
| AVLTree.InsertRecKeepsParents | src/AVLTree.java:56-78 | parent fields stay correct: the new leaf takes the replaced sentinel's parent, and its sentinels point to it |
| AVLTree.InsertRecPlacesLeaf | src/AVLTree.java:73-78 | the new key sits in a leaf whose parent is the node whose sentinel slot it took |
| AVLTree.InsertIntoEmpty | src/AVLTree.java:56-61 | inserting into an empty tree returns 0 and makes a root of height 0 with no parent and two sentinels of height -1, key 0 and value "" |
| AVLTree.InsertDuplicate | src/AVLTree.java:69-71 | in a BST, -1 is returned exactly for a present key, and then the tree is unchanged |
| AVLTree.InsertKeepsInvariants | src/AVLTree.java:55-82 | insert keeps sentinel leaves, parent links, BST order and the height recurrence |
| AVLTree.InsertPlacesLeaf | src/AVLTree.java:73-79 | a fresh key returns 0 and lands as a leaf below the last real node of its descent |
| TestUtils.HeightCheck | test/TestUtils.java:36-52 | definition; meaning stated by `TestUtils.HeightCheckMeaning` |
| TestUtils.TestHeights | test/TestUtils.java:30-34 | definition; meaning stated by `TestUtils.TestBSTMeaning` (without rank test) and `TestUtils.TestAVLMeaning` (with it) |
| TestUtils.HeightCheckMeaning | test/TestUtils.java:36-52 | `testHeightRec` passes exactly when stored heights follow the recurrence with -1 at sentinels, and, with `testAVLdif`, every rank pair is (1,1), (1,2) or (2,1); it then returns the stored height |
| TestUtils.OrderCheck | test/TestUtils.java:70-79 | definition; meaning stated by `TestUtils.OrderCheckMeaning` |
| TestUtils.TestOrder | test/TestUtils.java:66-68 | definition; meaning stated by `TestUtils.TestOrderIffOrdered` |
| TestUtils.OrderCheckMeaning | test/TestUtils.java:70-79 | from an increasing list, `testOrderRec` passes exactly when the list followed by the in-order keys is increasing, and returns that list |
| TestUtils.TestOrderIffOrdered | test/TestUtils.java:66-79 | `testOrder` passes exactly on BST-ordered trees, collecting the in-order keys |
| TestUtils.TestParents | test/TestUtils.java:54-56 | `testParents` checks `Nodes.ParentsLinked` from the root with no parent; meaning stated by `TestUtils.TestBSTMeaning` |
| TestUtils.TestUnrealLeaves | test/TestUtils.java:138-140 | `testUnrealLeaves` checks `Nodes.SentinelLeaves` from the root; meaning stated by `TestUtils.TestBSTMeaning` |
| TestUtils.TestBST | test/TestUtils.java:21-28 | definition; meaning stated by `TestUtils.TestBSTMeaning` |
| TestUtils.TestBSTMeaning | test/TestUtils.java:21-28 | `testBST` passes exactly on BST-ordered trees with sentinel leaves and correct parent links, whose heights, when asked for, follow the recurrence (an empty tree passes) |
| TestUtils.TestAVL | test/TestUtils.java:11-16 | definition; meaning stated by `TestUtils.TestAVLMeaning` |
| TestUtils.TestAVLMeaning | test/TestUtils.java:11-16 | `testAVL` passes exactly on BST-ordered trees with sentinel leaves and correct parent links that are empty or follow the height recurrence and the AVL rank rule |
| TestUtils.Preorder | test/TestUtils.java:87-93 | definition; meaning stated by `TestUtils.PreorderHasKeys` and, for rebuilt trees, `TestUtils.BuildNodePreorder` |
| TestUtils.PreorderHasKeys | test/TestUtils.java:87-93 | the preorder scan lists exactly the keys of the tree |
| TestUtils.PreOrderScan | test/TestUtils.java:81-85 | definition; meaning stated by `TestUtils.GenerateTreeRoundTrip` |
| TestUtils.FirstGreater | test/TestUtils.java:115-121 | the split index: every earlier key is at most the node's key, and the key at the index, if any, is greater |
| TestUtils.BuildNode | test/TestUtils.java:114-136 | `generateTreeNode` yields a real node with the range's first key, the given parent, sentinel leaves, correct parent links and sentinel heights -1 |
| TestUtils.BuildSide | test/TestUtils.java:122-135 | a child slot is a real subtree exactly when its index range is non-empty, otherwise a sentinel |
| TestUtils.BuildNodePreorder | test/TestUtils.java:114-136 | the node built from `p[i..end]` reads back as `p[i..end]` in preorder |
| TestUtils.BuildNodeInOrder | test/TestUtils.java:114-136 | built from a BST's preorder, the node has that BST's in-order keys |
| TestUtils.GenerateTree | test/TestUtils.java:95-102 | `generateTree` fails exactly on the empty list |
| TestUtils.GenerateTreeRoundTrip | test/TestUtils.java:81-102 | for every non-empty list, `preOrderScan(generateTree(p)) == p`, and the tree has consistent heights and links |
| TestUtils.GenerateTreeOrdered | test/TestUtils.java:95-136 | the rebuilt tree is a BST exactly when the list is the preorder of one, and then has that BST's in-order keys |
| TestUtils.UpdateHeights | test/TestUtils.java:104-112 | `updateHeightRec` changes only real heights, returns the top height, makes the height recurrence hold, and leaves a tree that already satisfies it unchanged |
| TestUtils.GetNodeByKey | test/TestUtils.java:150-162 | `getNodeByKey` returns null or a real node of the tree holding `k`; in a BST it finds a node exactly when `k` is present |
| Sanitizer.CalcHeight | test/AVLSanitizer.java:2-7 | the recomputed height is never below -1; its agreement with stored heights is stated by `Sanitizer.CalcHeightMatchesStored` |
| Sanitizer.CalcSum | test/AVLSanitizer.java:11-16 | definition; meaning stated by `Sanitizer.CalcSumIsWrappedKeySum` |
| Sanitizer.Sanitize | test/AVLSanitizer.java:18-34 | definition; meaning stated by `Sanitizer.SanitizeMeaning` |
| Sanitizer.CalcHeightMatchesStored | test/AVLSanitizer.java:2-7 | on a tree with consistent heights the recomputed height is the stored one |
| Sanitizer.CalcSumIsWrappedKeySum | test/AVLSanitizer.java:11-16 | `calcSum` is the exact key sum wrapped to a Java `int`, and is the key sum itself when that fits |
| Sanitizer.SanitizeMeaning | test/AVLSanitizer.java:18-34 | on a tree with sentinel leaves of height -1, `sanitizeTree` passes exactly when heights follow the recurrence; balance is not checked |
| ExternalSanitizer.CalcSize | test/ExternalTests/AVLSanitizer.java:9-21 | definition; meaning stated by `ExternalSanitizer.CalcSizeCountsNodes` |
| ExternalSanitizer.SizeMismatchRejected | test/ExternalTests/AVLSanitizer.java:9-64 | a real node anywhere in the tree whose stored size differs from the recomputed one, the condition of `calcSize`'s `assert false`, makes `sanitizeTree` return false |
| ExternalSanitizer.Sanitize | test/ExternalTests/AVLSanitizer.java:30-65 | definition; meaning stated by `ExternalSanitizer.SanitizeMeaning` |
| ExternalSanitizer.CalcSizeCountsNodes | test/ExternalTests/AVLSanitizer.java:9-21 | `calcSize` counts the real nodes, which in a BST is the number of distinct keys |
| ExternalSanitizer.HeightSizeBounds | test/ExternalTests/AVLSanitizer.java:2-21 | a subtree of recomputed height h holds between h + 1 and 2^(h+1) - 1 real nodes |
| ExternalSanitizer.CalcSizeMatchesStored | test/ExternalTests/AVLSanitizer.java:9-21 | with correct size fields the recomputed size is the stored one |
| ExternalSanitizer.CalcSumMatchesStored | test/ExternalTests/AVLSanitizer.java:23-28 | with correct sum fields the recomputed sum is the stored one |
| ExternalSanitizer.RankPairIffBalanced | test/ExternalTests/AVLSanitizer.java:57-62 | the balance-factor test accepts exactly the children heights whose rank pair is AVL-valid |
| ExternalSanitizer.SanitizeMeaning | test/ExternalTests/AVLSanitizer.java:30-65 | on a tree with sentinel leaves of height -1, `sanitizeTree` passes exactly when heights follow the recurrence, the AVL rank rule holds, and the size and sum fields follow their recurrences |
| Scenarios.FirstInsert | test/ExternalTests/AVLTreeTest.java:68 | the first insert returns 0 and makes a single root |
| Scenarios.RepeatedInsert | test/ExternalTests/AVLTreeTest.java:69 | inserting the same key again returns -1 |
| Scenarios.SecondInsert | test/ExternalTests/AVLTreeTest.java:71 | a larger key goes right of the root, whose height rises to 1, and returns 0 |
| Scenarios.ThirdInsert | test/ExternalTests/AVLTreeTest.java:71-73 | the third increasing key makes a chain and returns 0, where the test expects the 1 of a later version |
| Scenarios.GetRootScenario | test/ExternalTests/AVLTreeTest.java:226-234 | the root is null while the tree is empty, then stays the first key, with no parent |
| Scenarios.Insert15 | test/InsertionTest.java:17 | the first key becomes the root, and insert returns 0 |
| Scenarios.Insert11 | test/InsertionTest.java:20 | 11 goes left of 15, which rises to height 1, and insert returns 0 |
| Scenarios.Insert17 | test/InsertionTest.java:23 | 17 goes right of 15, whose height stays 1, and insert returns 0 |
| Scenarios.Insert18 | test/InsertionTest.java:26 | 18 goes right of 17; 17 and the root rise one level, and insert returns 0 |
| Scenarios.Insert12 | test/InsertionTest.java:29 | 12 goes right of 11, which rises to 1; the walk stops at the root, already at 2, and insert returns 0 |
| Scenarios.Insert13 | test/InsertionTest.java:32 | 13 goes right of 12; 12, 11 and the root each rise one level, and insert returns 0 |
| Scenarios.CreateTreeTest1Unbalanced | test/InsertionTest.java:13-36 | after 15, 11, 17, 18, 12, 13 the tree passes the BST test with heights but fails the AVL test at node 11 |
| Scenarios.ChainSanitizers | test/AVLSanitizer.java:18-34 | after 1, 2, 3 the test sanitizer accepts the chain and the external one rejects it |

## Left out

- Placeholder methods of `src/AVLTree.java` are not modelled. These are `empty`, `search`, `delete`,
  `min`, `max`, `keysToArray`, `infoToArray`, `size`, `split` and `join`. They return constants and
  hold no algorithm.
- Tests that expect rotations, join/split, successor deletion, `min`/`max`
  fields or nonzero rebalance counts target a later version of the tree and
  are not modelled. In this version `insert` does not rebalance, and the model
  claims no AVL balance after an insertion.
  `Scenarios.ThirdInsert` records the difference at the first such expectation.
- `src/TreePrinter.java`, `test/Experiments.java`, `test/AVLTreeMock.java` and
  the randomized JUnit drivers are not modelled. They hold console output,
  randomness and floating-point statistics.
- JUnit failure messages and `System.out` output of the sanitizers are not modelled.
- Parent references are modelled by the parent's key, not by object identity.
  Two different nodes with the same key cannot be told apart as parents.
  In a BST, which `insert` keeps BST-ordered, keys are distinct and the key
  names the parent uniquely. Neither `Linked` nor the rebuild from a preorder
  list demands distinct keys, so on other trees the key is only an approximation.
- AVLTree.Insert: requires a linked tree, meaning a real or null root, no null child
  under a real node, and correct parent fields. The Java code relies on these
  links to find and relink the sentinel's parent. With broken links it would
  throw or splice into another node, which the model does not follow.
- `AVLNode` in this version has no size or sum field, yet the external
  sanitizer reads them through `getSubtreeSize` and `getSubtreeSum`. They are
  modelled as stored fields that `insert` never writes, so they keep Java's
  default 0.
- This version's `AVLNode` declares no `setFakeLeft` or `setFakeRight`, which
  `generateTreeNode` calls. They are taken to hang a sentinel below the node,
  as `insert` does.
- The `assert false` inside `calcSize` is not modelled. With Java assertions
  enabled it throws when some real node's stored size differs from the
  recomputed one. `ExternalSanitizer.SizeMismatchRejected` proves that
  `sanitizeTree` returns `false` on every such tree, so the calling test
  fails either way.
- Heights, sizes and the recursion depth are unbounded integers. A Java `int`
  overflow of a height or a size would need more than 2^31 nodes.
  Only the key sum's wrap-around is modelled.
