/**
 * The test helpers that give the tree its meaning: the height, order,
 * parent and sentinel-leaf checkers, the preorder scan, the rebuild of a BST
 * from a preorder list, the height recomputation and the search by key.
 *
 * A checker that fails an assertion (or dereferences `null`) is modelled as
 * returning `None` or `false`; a passing checker returns what the Java helper
 * returns.
 */
module TestUtils {
  import opened Wrappers
  import opened Int32
  import opened Nodes

  // ---------------------------------------------------------------- heights

  /** `testHeightRec`: the recomputed height of `n` if every real node's stored
      height equals one more than its children's recomputed heights (and, with
      `testAVLdif`, its rank differences are (1,1), (1,2) or (2,1)) and every
      virtual node's height is -1; `None` where an assertion fails or a null
      child is dereferenced. */
  function HeightCheck(n: Node, testAVLdif: bool): Option<int>
  {
    match n
    case Null => None
    case Virtual(_, _, h, _) => if h == -1 then Some(h) else None
    case Real(_, _, stored, _, _, l, r, _) =>
      match HeightCheck(l, testAVLdif)
      case None => None
      case Some(heightLeft) =>
        match HeightCheck(r, testAVLdif)
        case None => None
        case Some(heightRight) =>
          var height := Max(heightLeft, heightRight) + 1;
          if testAVLdif && !RankPair(height - heightLeft, height - heightRight) then None
          else if height != stored then None
          else Some(height)
  }

  /** `testHeights`: an empty tree passes; otherwise the root is checked. */
  predicate TestHeights(t: Tree, testAVLdif: bool)
  {
    t.root == Null || HeightCheck(t.root, testAVLdif).Some?
  }

  /** The height checker accepts exactly the trees whose stored heights satisfy
      the recurrence with -1 at sentinels (and the AVL rank rule when asked),
      and then returns the stored height of the top node. */
  lemma {:induction false} HeightCheckMeaning(n: Node, testAVLdif: bool)
    ensures HeightCheck(n, testAVLdif) ==
      if HeightsOk(n) && (testAVLdif ==> AvlRanks(n)) then Some(n.height) else None
  {
    match n
    case Null =>
    case Virtual(_, _, _, _) =>
    case Real(_, _, _, _, _, l, r, _) =>
      HeightCheckMeaning(l, testAVLdif);
      HeightCheckMeaning(r, testAVLdif);
  }

  // ------------------------------------------------------------------ order

  /** `testOrderRec`: walks the real nodes in order, appending each key to
      `inOrder` after asserting it exceeds the last key appended; `None` when
      that assertion fails. */
  function OrderCheck(n: Node, inOrder: seq<i32>): Option<seq<i32>>
  {
    match n
    case Real(k, _, _, _, _, l, r, _) =>
      (match OrderCheck(l, inOrder)
       case None => None
       case Some(acc) =>
         if |acc| > 0 && !(k > acc[|acc| - 1]) then None
         else OrderCheck(r, acc + [k]))
    case _ => Some(inOrder)
  }

  /** `testOrder`: the order check from the root with an empty list. */
  predicate TestOrder(t: Tree)
  {
    OrderCheck(t.root, []).Some?
  }

  /** Started from an increasing list, the order check succeeds exactly when
      the list followed by the in-order keys is still increasing, and then
      returns that list. */
  lemma {:induction false} OrderCheckMeaning(n: Node, inOrder: seq<i32>)
    requires Increasing(inOrder)
    ensures OrderCheck(n, inOrder) ==
      if Increasing(inOrder + InOrder(n)) then Some(inOrder + InOrder(n)) else None
  {
    match n
    case Real(k, _, _, _, _, l, r, _) =>
      OrderCheckMeaning(l, inOrder);
      var a := inOrder + InOrder(l);
      assert inOrder + InOrder(n) == a + [k] + InOrder(r);
      if !Increasing(a) {
        UnlessPrefixIncreasing(a, k, InOrder(r));
      } else if |a| > 0 && !(k > a[|a| - 1]) {
        UnlessStepIncreasing(a, k, InOrder(r));
      } else {
        IncreasingSnoc(a, k);
        OrderCheckMeaning(r, a + [k]);
        assert a + [k] + InOrder(r) == (a + [k]) + InOrder(r);
      }
    case _ =>
      assert inOrder + InOrder(n) == inOrder;
  }

  lemma IncreasingSnoc(a: seq<i32>, k: i32)
    requires Increasing(a) && (|a| > 0 ==> a[|a| - 1] < k)
    ensures Increasing(a + [k])
  {
    forall i, j | 0 <= i < j < |a + [k]| ensures (a + [k])[i] < (a + [k])[j] {
      if j == |a| && i < |a| - 1 {
        assert a[i] < a[|a| - 1];
      }
    }
  }

  lemma UnlessPrefixIncreasing(a: seq<i32>, k: i32, b: seq<i32>)
    requires !Increasing(a)
    ensures !Increasing(a + [k] + b)
  {
    if Increasing(a + [k] + b) {
      IncreasingSplit(a, k, b);
    }
  }

  lemma UnlessStepIncreasing(a: seq<i32>, k: i32, b: seq<i32>)
    requires |a| > 0 && a[|a| - 1] >= k
    ensures !Increasing(a + [k] + b)
  {
    assert (a + [k] + b)[|a| - 1] == a[|a| - 1];
    assert (a + [k] + b)[|a|] == k;
  }

  /** The order test passes exactly on BST-ordered trees. */
  lemma TestOrderIffOrdered(t: Tree)
    ensures TestOrder(t) <==> Ordered(t.root)
    ensures TestOrder(t) ==> OrderCheck(t.root, []) == Some(InOrder(t.root))
  {
    OrderCheckMeaning(t.root, []);
    assert [] + InOrder(t.root) == InOrder(t.root);
    OrderedIffIncreasing(t.root);
  }

  // ---------------------------------------------- parents and unreal leaves

  /** `testParents`: the parent-link check from the root, expecting `null`. */
  predicate TestParents(t: Tree)
  {
    ParentsLinked(t.root, None)
  }

  /** `testUnrealLeaves`: every real node has two non-null children. */
  predicate TestUnrealLeaves(t: Tree)
  {
    SentinelLeaves(t.root)
  }

  /** `testBST(tree, testHeights)`. */
  predicate TestBST(t: Tree, testHeights: bool)
  {
    TestOrder(t) && TestUnrealLeaves(t) && (testHeights ==> TestHeights(t, false)) && TestParents(t)
  }

  /** `testAVL(tree)`. */
  predicate TestAVL(t: Tree)
  {
    TestOrder(t) && TestUnrealLeaves(t) && TestHeights(t, true) && TestParents(t)
  }

  /** `testBST` passes exactly on linked BSTs whose heights, when asked for,
      follow the recurrence. */
  lemma TestBSTMeaning(t: Tree, testHeights: bool)
    ensures TestBST(t, testHeights) <==>
      && Ordered(t.root) && SentinelLeaves(t.root) && ParentsLinked(t.root, None)
      && (testHeights && t.root != Null ==> HeightsOk(t.root))
  {
    TestOrderIffOrdered(t);
    HeightCheckMeaning(t.root, false);
  }

  /** `testAVL` passes exactly on linked BSTs that are empty or whose heights
      follow the recurrence and the AVL rank rule. */
  lemma TestAVLMeaning(t: Tree)
    ensures TestAVL(t) <==>
      && Ordered(t.root) && SentinelLeaves(t.root) && ParentsLinked(t.root, None)
      && (t.root != Null ==> HeightsOk(t.root) && AvlRanks(t.root))
  {
    TestOrderIffOrdered(t);
    HeightCheckMeaning(t.root, true);
  }

  // -------------------------------------------------------------- preorder

  /** `recPreOrder`: the keys of real nodes, node first, then left, then right. */
  function Preorder(n: Node): seq<i32>
  {
    match n
    case Real(k, _, _, _, _, l, r, _) => [k] + Preorder(l) + Preorder(r)
    case _ => []
  }

  /** `preOrderScan`. */
  function PreOrderScan(t: Tree): seq<i32>
  {
    Preorder(t.root)
  }

  lemma {:induction false} PreorderHasKeys(n: Node)
    ensures forall x :: x in Preorder(n) <==> x in Keys(n)
  {
    match n
    case Real(k, _, _, _, _, l, r, _) =>
      PreorderHasKeys(l);
      PreorderHasKeys(r);
    case _ =>
  }

  // -------------------------------------------------- rebuild from preorder

  /** The index loop of `generateTreeNode`: the first index in
      `[start, end)` whose key exceeds `key`, or `end` if there is none. */
  function FirstGreater(p: seq<i32>, key: i32, start: int, end: int): (r: int)
    requires 0 <= start <= end <= |p|
    ensures start <= r <= end
    ensures forall i :: start <= i < r ==> p[i] <= key
    ensures r < end ==> key < p[r]
    decreases end - start
  {
    if start == end then end
    else if p[start] > key then start
    else FirstGreater(p, key, start + 1, end)
  }

  /** `generateTreeNode` applied to a fresh real node for `p[i]` (value "a",
      height 0): the left child is built from the keys before the first key
      greater than `p[i]`, the right child from the rest of `p[i+1..end]`; an
      empty side gets a sentinel.  This version's `AVLNode` declares no
      `setFakeLeft` or `setFakeRight`: they are taken to hang the same
      sentinel below the node as `insert` does. */
  function BuildNode(p: seq<i32>, i: int, end: int, parent: Option<i32>): (r: Node)
    requires 0 <= i < end <= |p|
    ensures r.Real? && r.key == p[i] && r.parent == parent
    ensures SentinelLeaves(r) && ParentsLinked(r, parent) && SentinelHeights(r)
    decreases end - i, 0
  {
    var node := MakeNode(p[i], "a", parent, true);
    var firstRight := FirstGreater(p, p[i], i + 1, end);
    Real(node.key, node.value, node.height, node.size, node.sum,
         BuildSide(p, i + 1, firstRight, Some(p[i])), BuildSide(p, firstRight, end, Some(p[i])), node.parent)
  }

  /** One child slot of `generateTreeNode`: a node built from `p[lo..hi]`
      when that range is non-empty, otherwise a sentinel. */
  function BuildSide(p: seq<i32>, lo: int, hi: int, parent: Option<i32>): (r: Node)
    requires 0 <= lo <= hi <= |p|
    ensures r.Real? <==> lo < hi
    ensures SentinelLeaves(r) && ParentsLinked(r, parent) && SentinelHeights(r)
    decreases hi - lo, 1
  {
    if lo < hi then BuildNode(p, lo, hi, parent) else Sentinel(parent)
  }

  /** `generateTree`: builds from the whole list and recomputes heights;
      `None` for an empty list, where `preorder.get(0)` throws. */
  function GenerateTree(p: seq<i32>): (r: Option<Tree>)
    ensures r.None? <==> |p| == 0
  {
    if |p| == 0 then None
    else Some(Tree(UpdateHeights(BuildNode(p, 0, |p|, None)).0))
  }

  /** The preorder of a built node is the slice it was built from. */
  lemma {:induction false} BuildNodePreorder(p: seq<i32>, i: int, end: int, parent: Option<i32>)
    requires 0 <= i < end <= |p|
    ensures Preorder(BuildNode(p, i, end, parent)) == p[i..end]
    decreases end - i, 0
  {
    var f := FirstGreater(p, p[i], i + 1, end);
    var n := BuildNode(p, i, end, parent);
    BuildSidePreorder(p, i + 1, f, Some(p[i]));
    BuildSidePreorder(p, f, end, Some(p[i]));
    assert Preorder(n) == [p[i]] + p[i + 1..f] + p[f..end];
    SliceConcat(p, i, f, end);
  }

  lemma {:induction false} BuildSidePreorder(p: seq<i32>, lo: int, hi: int, parent: Option<i32>)
    requires 0 <= lo <= hi <= |p|
    ensures Preorder(BuildSide(p, lo, hi, parent)) == p[lo..hi]
    decreases hi - lo, 1
  {
    if lo < hi {
      BuildNodePreorder(p, lo, hi, parent);
    }
  }

  lemma SliceConcat(p: seq<i32>, i: int, f: int, end: int)
    requires 0 <= i < f <= end <= |p|
    ensures p[i..end] == [p[i]] + p[i + 1..f] + p[f..end]
  {
  }

  /** The index loop stops exactly at `f` when every key before `f` is at
      most `key` and the key at `f` (if any) exceeds it. */
  lemma FirstGreaterAt(p: seq<i32>, key: i32, start: int, end: int, f: int)
    requires 0 <= start <= f <= end <= |p|
    requires forall j :: start <= j < f ==> p[j] <= key
    requires f < end ==> key < p[f]
    ensures FirstGreater(p, key, start, end) == f
  {
  }

  /** In the preorder of a BST the left subtree's keys come right after the
      root and end just before the first key greater than the root. */
  lemma PreorderSplit(p: seq<i32>, i: int, end: int, m: Node)
    requires 0 <= i < end <= |p|
    requires m.Real? && Ordered(m) && p[i..end] == Preorder(m)
    ensures FirstGreater(p, m.key, i + 1, end) == i + 1 + |Preorder(m.left)|
    ensures p[i + 1..i + 1 + |Preorder(m.left)|] == Preorder(m.left)
    ensures p[i + 1 + |Preorder(m.left)|..end] == Preorder(m.right)
  {
    var key := m.key;
    var pl := Preorder(m.left);
    var pr := Preorder(m.right);
    var split := i + 1 + |pl|;
    SliceParts(p, i, end, key, pl, pr);
    PreorderHasKeys(m.left);
    PreorderHasKeys(m.right);
    forall j | i + 1 <= j < split ensures p[j] <= key {
      assert p[j] == pl[j - i - 1];
      assert pl[j - i - 1] in pl;
    }
    if split < end {
      assert p[split] == pr[0] && pr[0] in pr;
    }
    FirstGreaterAt(p, key, i + 1, end, split);
  }

  lemma SliceParts(p: seq<i32>, i: int, end: int, key: i32, pl: seq<i32>, pr: seq<i32>)
    requires 0 <= i < end <= |p| && p[i..end] == [key] + pl + pr
    ensures p[i + 1..i + 1 + |pl|] == pl
    ensures p[i + 1 + |pl|..end] == pr
    ensures forall j :: i + 1 <= j < i + 1 + |pl| ==> p[j] == pl[j - i - 1]
    ensures i + 1 + |pl| < end ==> p[i + 1 + |pl|] == pr[0]
  {
    var q := p[i..end];
    assert |q| == 1 + |pl| + |pr|;
    forall j | i + 1 <= j < i + 1 + |pl| ensures p[j] == pl[j - i - 1] {
      assert p[j] == q[j - i];
    }
    forall j | i + 1 + |pl| <= j < end ensures p[j] == pr[j - i - 1 - |pl|] {
      assert p[j] == q[j - i];
    }
    assert p[i + 1..i + 1 + |pl|] == pl;
    assert p[i + 1 + |pl|..end] == pr;
  }

  /** Rebuilding from the preorder of a BST gives back its in-order keys. */
  lemma {:induction false} BuildNodeInOrder(p: seq<i32>, i: int, end: int, parent: Option<i32>, m: Node)
    requires 0 <= i < end <= |p|
    requires m.Real? && Ordered(m) && p[i..end] == Preorder(m)
    ensures InOrder(BuildNode(p, i, end, parent)) == InOrder(m)
    decreases end - i, 0
  {
    var key := m.key;
    assert p[i] == p[i..end][0] == key;
    PreorderSplit(p, i, end, m);
    var f := i + 1 + |Preorder(m.left)|;
    var n := BuildNode(p, i, end, parent);
    assert n.left == BuildSide(p, i + 1, f, Some(key));
    assert n.right == BuildSide(p, f, end, Some(key));
    BuildSideInOrder(p, i + 1, f, Some(key), m.left);
    BuildSideInOrder(p, f, end, Some(key), m.right);
    assert InOrder(n) == InOrder(n.left) + [key] + InOrder(n.right);
  }

  lemma {:induction false} BuildSideInOrder(p: seq<i32>, lo: int, hi: int, parent: Option<i32>, side: Node)
    requires 0 <= lo <= hi <= |p|
    requires Ordered(side) && p[lo..hi] == Preorder(side)
    ensures InOrder(BuildSide(p, lo, hi, parent)) == InOrder(side)
    decreases hi - lo, 1
  {
    if lo < hi {
      assert side.Real?;
      BuildNodeInOrder(p, lo, hi, parent, side);
    } else {
      assert !side.Real?;
    }
  }

  // --------------------------------------------------------- height update

  /** `a` and `b` differ at most in the stored heights of real nodes. */
  predicate SameButHeights(a: Node, b: Node)
  {
    match a
    case Real(k, v, _, s, sum, l, r, p) =>
      && b.Real? && b.key == k && b.value == v && b.size == s && b.sum == sum && b.parent == p
      && SameButHeights(l, b.left) && SameButHeights(r, b.right)
    case _ => b == a
  }

  /** Nodes that differ only in real heights hold the same keys in the same
      places, and the same links. */
  lemma {:induction false} SameButHeightsViews(a: Node, b: Node)
    requires SameButHeights(a, b)
    ensures InOrder(a) == InOrder(b) && Preorder(a) == Preorder(b) && Keys(a) == Keys(b)
    ensures SentinelLeaves(a) ==> SentinelLeaves(b)
    ensures SentinelHeights(a) ==> SentinelHeights(b)
    ensures forall p :: ParentsLinked(a, p) ==> ParentsLinked(b, p)
  {
    if a.Real? {
      SameButHeightsViews(a.left, b.left);
      SameButHeightsViews(a.right, b.right);
    }
  }

  /** `updateHeightRec`: sets every real node's height to one more than the
      larger height returned for its children and returns the top height; a
      virtual node's stored height is returned unchanged.  The recursion
      dereferences every child, so no real node may have a null child. */
  function UpdateHeights(n: Node): (r: (Node, int))
    requires n != Null && SentinelLeaves(n)
    ensures r.0 != Null && r.1 == r.0.height
    ensures SameButHeights(n, r.0)
    ensures Recurrence(r.0)
    ensures SentinelHeights(n) ==> HeightsOk(r.0)
    ensures Recurrence(n) ==> r.0 == n
  {
    match n
    case Virtual(_, _, h, _) => (n, h)
    case Real(_, _, _, _, _, l, r, _) =>
      var left := UpdateHeights(l);
      var right := UpdateHeights(r);
      var height := Max(left.1, right.1) + 1;
      var m := Real(n.key, n.value, height, n.size, n.sum, left.0, right.0, n.parent);
      SameButHeightsViews(l, left.0);
      SameButHeightsViews(r, right.0);
      (m, height)
  }

  /** For any non-empty list, reading the rebuilt tree in preorder gives the
      list back; the rebuilt tree has consistent heights and links. */
  lemma GenerateTreeRoundTrip(p: seq<i32>)
    requires |p| > 0
    ensures GenerateTree(p).Some?
    ensures PreOrderScan(GenerateTree(p).value) == p
    ensures HeightsOk(GenerateTree(p).value.root) && Linked(GenerateTree(p).value)
  {
    var b := BuildNode(p, 0, |p|, None);
    BuildNodePreorder(p, 0, |p|, None);
    SameButHeightsViews(b, UpdateHeights(b).0);
    assert p[0..|p|] == p;
  }

  /** The list is the preorder of some BST. */
  ghost predicate IsBstPreorder(p: seq<i32>)
  {
    exists m: Node :: m.Real? && Ordered(m) && Preorder(m) == p
  }

  /** `generateTree` yields a BST exactly when its input is the preorder of
      one, and then the rebuilt tree has that BST's keys in the same order. */
  lemma GenerateTreeOrdered(p: seq<i32>)
    requires |p| > 0
    ensures Ordered(GenerateTree(p).value.root) <==> IsBstPreorder(p)
    ensures forall m: Node :: m.Real? && Ordered(m) && Preorder(m) == p ==>
      InOrder(GenerateTree(p).value.root) == InOrder(m)
  {
    var b := BuildNode(p, 0, |p|, None);
    var t := GenerateTree(p).value;
    SameButHeightsViews(b, t.root);
    GenerateTreeRoundTrip(p);
    assert p[0..|p|] == p;
    forall m: Node | m.Real? && Ordered(m) && Preorder(m) == p
      ensures InOrder(t.root) == InOrder(m)
    {
      BuildNodeInOrder(p, 0, |p|, None, m);
    }
    if IsBstPreorder(p) {
      var m: Node :| m.Real? && Ordered(m) && Preorder(m) == p;
      OrderedIffIncreasing(m);
      OrderedIffIncreasing(t.root);
    }
    if Ordered(t.root) {
      assert t.root.Real? && Preorder(t.root) == p;
    }
  }

  // ---------------------------------------------------------- search by key

  /** `getNodeByKey`: descends from the root by key comparison and returns the
      real node holding `k`, or `Null` once a sentinel or null is reached. */
  method GetNodeByKey(t: Tree, k: i32) returns (r: Node)
    ensures r == Null || (r.Real? && r.key == k && Contains(t.root, r))
    ensures r != Null ==> k in Keys(t.root)
    ensures Ordered(t.root) ==> (r != Null <==> k in Keys(t.root))
  {
    var node := t.root;
    while node != Null && node.Real?
      invariant Contains(t.root, node)
      invariant Ordered(t.root) ==> (k in Keys(t.root) <==> k in Keys(node))
      decreases node
    {
      ContainsInherits(t.root, node);
      ContainsChildren(t.root, node);
      if k == node.key {
        return node;
      } else if k < node.key {
        node := node.left;
      } else {
        node := node.right;
      }
    }
    ContainsInherits(t.root, node);
    return Null;
  }
}
