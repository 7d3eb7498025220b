/**
 * The node model of `AVLTree`: a slot is a Java `null`, a virtual (sentinel)
 * node, or a real node.  Child links are owned structurally; the parent
 * back-reference is kept as the key of the parent node (`None` for `null`),
 * which names the parent uniquely in a tree with distinct keys.
 *
 * This module also holds the structural invariants the test helpers check,
 * stated declaratively, and the key views (key set, in-order sequence) that
 * the checkers and the insertion are specified against.
 */
module Nodes {
  import opened Wrappers
  import opened Int32

  datatype Node =
    | Null
      /** A virtual node: the code gives it key 0 and value "" and never children. */
    | Virtual(key: i32, value: string, height: int, parent: Option<i32>)
      /** `size` and `sum` are the subtree size and key sum fields the external
          sanitizer reads; `AVLNode` in this version has no such fields,
          so nothing writes them and they keep Java's default 0. */
    | Real(key: i32, value: string, height: int, size: int, sum: int,
           left: Node, right: Node, parent: Option<i32>)

  /** `AVLTree`: only the root reference (null iff empty). */
  datatype Tree = Tree(root: Node)

  /** The four-argument `AVLNode` constructor: a virtual node gets height -1; a
      real node keeps Java's zero defaults and null children until they are set. */
  function MakeNode(key: i32, value: string, parent: Option<i32>, realNode: bool): (n: Node)
    ensures n.Real? <==> realNode
    ensures n != Null && n.key == key && n.value == value && n.parent == parent
    ensures n.height == if realNode then 0 else -1
    ensures realNode ==> n.left == Null && n.right == Null && n.size == 0 && n.sum == 0
  {
    if realNode then Real(key, value, 0, 0, 0, Null, Null, parent)
    else Virtual(key, value, -1, parent)
  }

  /** The sentinel the code hangs below a real node: `new AVLNode(0, "", node, false)`. */
  function Sentinel(parent: Option<i32>): Node
  {
    MakeNode(0, "", parent, false)
  }

  /** `setHeight` on a real node. */
  function WithHeight(n: Node, h: int): (r: Node)
    requires n.Real?
    ensures r.Real? && r.height == h
    ensures r.key == n.key && r.value == n.value && r.parent == n.parent
    ensures r.left == n.left && r.right == n.right && r.size == n.size && r.sum == n.sum
  {
    Real(n.key, n.value, h, n.size, n.sum, n.left, n.right, n.parent)
  }

  function Max(a: int, b: int): int
  {
    if a < b then b else a
  }

  /** The keys held by real nodes. */
  function Keys(n: Node): set<i32>
  {
    match n
    case Real(k, _, _, _, _, l, r, _) => Keys(l) + {k} + Keys(r)
    case _ => {}
  }

  /** The keys of real nodes, left subtree first. */
  function InOrder(n: Node): seq<i32>
  {
    match n
    case Real(k, _, _, _, _, l, r, _) => InOrder(l) + [k] + InOrder(r)
    case _ => []
  }

  /** `s` is the node `n` or one of its descendants. */
  predicate Contains(n: Node, s: Node)
  {
    n == s || (n.Real? && (Contains(n.left, s) || Contains(n.right, s)))
  }

  predicate Increasing(s: seq<i32>)
  {
    forall i, j :: 0 <= i < j < |s| ==> s[i] < s[j]
  }

  /** BST order: every key of the left subtree is smaller, every key of the
      right subtree larger, at every real node. */
  predicate Ordered(n: Node)
  {
    match n
    case Real(k, _, _, _, _, l, r, _) =>
      && Ordered(l) && Ordered(r)
      && (forall x :: x in Keys(l) ==> x < k)
      && (forall x :: x in Keys(r) ==> k < x)
    case _ => true
  }

  /** Every real node has two non-null children (what `testUnrealLeavesRec` asserts). */
  predicate SentinelLeaves(n: Node)
  {
    match n
    case Real(_, _, _, _, _, l, r, _) =>
      l != Null && r != Null && SentinelLeaves(l) && SentinelLeaves(r)
    case _ => true
  }

  /** Every non-null node's parent field names the node it hangs from, and the
      top node's parent is `parent` (what `testParentsRec` asserts). */
  predicate ParentsLinked(n: Node, parent: Option<i32>)
  {
    match n
    case Null => true
    case Virtual(_, _, _, p) => p == parent
    case Real(k, _, _, _, _, l, r, p) =>
      p == parent && ParentsLinked(l, Some(k)) && ParentsLinked(r, Some(k))
  }

  /** The links a tree needs before `insert` can run: a real or null root, no
      null child under a real node, and correct parent fields. */
  predicate Linked(t: Tree)
  {
    !t.root.Virtual? && SentinelLeaves(t.root) && ParentsLinked(t.root, None)
  }

  /** Every real node's stored height is one more than the larger stored
      height of its (non-null) children. */
  predicate Recurrence(n: Node)
  {
    match n
    case Null => false
    case Virtual(_, _, _, _) => true
    case Real(_, _, h, _, _, l, r, _) =>
      && l != Null && r != Null
      && Recurrence(l) && Recurrence(r)
      && h == Max(l.height, r.height) + 1
  }

  /** Every virtual node has height -1. */
  predicate SentinelHeights(n: Node)
  {
    match n
    case Null => true
    case Virtual(_, _, h, _) => h == -1
    case Real(_, _, _, _, _, l, r, _) => SentinelHeights(l) && SentinelHeights(r)
  }

  /** The height invariant: recurrence at real nodes, -1 at sentinels. */
  predicate HeightsOk(n: Node)
  {
    Recurrence(n) && SentinelHeights(n)
  }

  /** The rank differences an AVL node may have to its two children. */
  predicate RankPair(difLeft: int, difRight: int)
  {
    (difLeft == 1 && difRight == 1) || (difLeft == 1 && difRight == 2) || (difLeft == 2 && difRight == 1)
  }

  /** The AVL rank rule on stored heights, at every real node. */
  predicate AvlRanks(n: Node)
  {
    match n
    case Null => false
    case Virtual(_, _, _, _) => true
    case Real(_, _, h, _, _, l, r, _) =>
      && l != Null && r != Null
      && AvlRanks(l) && AvlRanks(r)
      && RankPair(h - l.height, h - r.height)
  }

  function StoredSize(n: Node): int
  {
    if n.Real? then n.size else 0
  }

  function StoredSum(n: Node): int
  {
    if n.Real? then n.sum else 0
  }

  /** Subtree sizes: each real node's size is one more than its children's. */
  predicate SizesOk(n: Node)
  {
    match n
    case Real(_, _, _, s, _, l, r, _) =>
      SizesOk(l) && SizesOk(r) && s == StoredSize(l) + StoredSize(r) + 1
    case _ => true
  }

  /** Subtree sums: each real node's sum is its key plus its children's sums,
      added in Java `int` arithmetic. */
  predicate SumsOk(n: Node)
  {
    match n
    case Real(k, _, _, _, s, l, r, _) =>
      SumsOk(l) && SumsOk(r) && s == Wrap(Wrap(StoredSum(l) + StoredSum(r)) + k)
    case _ => true
  }

  /** The exact (unbounded) sum of the keys of the real nodes. */
  function KeySum(n: Node): int
  {
    match n
    case Real(k, _, _, _, _, l, r, _) => KeySum(l) + KeySum(r) + k
    case _ => 0
  }

  /** The key set is exactly the set of elements of the in-order sequence. */
  lemma {:induction false} InOrderHasKeys(n: Node)
    ensures forall x :: x in InOrder(n) <==> x in Keys(n)
    ensures |InOrder(n)| >= |Keys(n)|
  {
    match n
    case Real(k, _, _, _, _, l, r, _) =>
      InOrderHasKeys(l);
      InOrderHasKeys(r);
      assert InOrder(n) == InOrder(l) + [k] + InOrder(r);
      assert |Keys(n)| <= |Keys(l)| + 1 + |Keys(r)| by {
        assert |Keys(l) + {k}| <= |Keys(l)| + 1;
      }
    case _ =>
  }

  lemma IncreasingJoin(a: seq<i32>, k: i32, b: seq<i32>)
    ensures Increasing(a + [k] + b) <==>
      && Increasing(a) && Increasing(b)
      && (forall x :: x in a ==> x < k)
      && (forall x :: x in b ==> k < x)
  {
    if Increasing(a + [k] + b) {
      IncreasingSplit(a, k, b);
    }
    if && Increasing(a) && Increasing(b)
       && (forall x :: x in a ==> x < k)
       && (forall x :: x in b ==> k < x)
    {
      IncreasingGlue(a, k, b);
    }
  }

  lemma IncreasingSplit(a: seq<i32>, k: i32, b: seq<i32>)
    requires Increasing(a + [k] + b)
    ensures Increasing(a) && Increasing(b)
    ensures forall x :: x in a ==> x < k
    ensures forall x :: x in b ==> k < x
  {
    var s := a + [k] + b;
    assert forall i :: 0 <= i < |a| ==> s[i] == a[i];
    assert s[|a|] == k;
    assert forall i :: 0 <= i < |b| ==> s[|a| + 1 + i] == b[i];
    forall x | x in a ensures x < k {
      var i :| 0 <= i < |a| && a[i] == x;
      assert s[i] < s[|a|];
    }
    forall x | x in b ensures k < x {
      var i :| 0 <= i < |b| && b[i] == x;
      assert s[|a|] < s[|a| + 1 + i];
    }
    forall i, j | 0 <= i < j < |b| ensures b[i] < b[j] {
      assert s[|a| + 1 + i] < s[|a| + 1 + j];
    }
    forall i, j | 0 <= i < j < |a| ensures a[i] < a[j] {
      assert s[i] < s[j];
    }
  }

  lemma IncreasingGlue(a: seq<i32>, k: i32, b: seq<i32>)
    requires Increasing(a) && Increasing(b)
    requires forall x :: x in a ==> x < k
    requires forall x :: x in b ==> k < x
    ensures Increasing(a + [k] + b)
  {
    var s := a + [k] + b;
    forall i, j | 0 <= i < j < |s| ensures s[i] < s[j] {
      if j < |a| {
        assert s[i] == a[i] && s[j] == a[j];
      } else if i < |a| {
        assert s[i] == a[i] && a[i] in a;
        if j > |a| {
          assert s[j] == b[j - |a| - 1] && b[j - |a| - 1] in b;
        }
      } else if i == |a| {
        assert s[j] == b[j - |a| - 1] && b[j - |a| - 1] in b;
      } else {
        assert s[i] == b[i - |a| - 1] && s[j] == b[j - |a| - 1];
      }
    }
  }

  /** BST order holds exactly when the in-order key sequence strictly increases. */
  lemma {:induction false} OrderedIffIncreasing(n: Node)
    ensures Ordered(n) <==> Increasing(InOrder(n))
  {
    match n
    case Real(k, _, _, _, _, l, r, _) =>
      OrderedIffIncreasing(l);
      OrderedIffIncreasing(r);
      InOrderHasKeys(l);
      InOrderHasKeys(r);
      IncreasingJoin(InOrder(l), k, InOrder(r));
    case _ =>
  }

  /** The children of a descendant are descendants. */
  lemma {:induction false} ContainsChildren(n: Node, s: Node)
    requires Contains(n, s) && s.Real?
    ensures Contains(n, s.left) && Contains(n, s.right)
  {
    if n != s {
      if Contains(n.left, s) {
        ContainsChildren(n.left, s);
      } else {
        ContainsChildren(n.right, s);
      }
    }
  }

  /** A descendant of an ordered tree is ordered, and its keys are keys of the tree. */
  lemma {:induction false} ContainsInherits(n: Node, s: Node)
    requires Contains(n, s)
    ensures Keys(s) <= Keys(n)
    ensures Ordered(n) ==> Ordered(s)
  {
    if n != s {
      if Contains(n.left, s) {
        ContainsInherits(n.left, s);
      } else {
        ContainsInherits(n.right, s);
      }
    }
  }
}
