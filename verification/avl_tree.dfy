/**
 * `AVLTree.insert` as this version implements it: an unbalanced BST
 * insertion that descends by key comparison to a sentinel slot, refuses a
 * key it meets on the way with -1, splices a new leaf into the slot, and then
 * raises ancestor heights (`updateHeightsToRoot`) until the first ancestor
 * that is already tall enough.  It never rotates and always reports 0.
 *
 * The upward walk over parent references becomes the return path of a
 * recursive descent: each level receives the rebuilt child and a flag
 * `raised` that says whether `updateHeightsToRoot` was called on that child.
 */
module AVLTree {
  import opened Wrappers
  import opened Int32
  import opened Nodes

  /** What the descent below one node produced. */
  datatype Descent =
    | Duplicate
      /** The rebuilt subtree, and whether the height walk continues above it. */
    | Spliced(node: Node, raised: bool)

  /** `getRoot`: the root reference, `Null` for an empty tree. */
  function GetRoot(t: Tree): (r: Node)
    ensures !t.root.Virtual? ==> (r == Null <==> Keys(t.root) == {})
    ensures Linked(t) && r != Null ==> r.Real? && r.parent == None
  {
    t.root
  }

  /** The node `insert` creates: a real node with height 0 and two fresh
      sentinels whose parent is the new node, hung below `parent`. */
  function NewLeaf(k: i32, v: string, parent: Option<i32>): (r: Node)
    ensures r.Real? && r.key == k && r.value == v && r.parent == parent
    ensures r.height == 0 && r.size == 0 && r.sum == 0
    ensures r.left.Virtual? && r.right.Virtual?
  {
    var node := MakeNode(k, v, parent, true);
    Real(node.key, node.value, node.height, node.size, node.sum, Sentinel(Some(k)), Sentinel(Some(k)), node.parent)
  }

  /** On its own the new node is a linked BST holding only `k`, with correct
      heights. */
  lemma NewLeafInvariants(k: i32, v: string, parent: Option<i32>)
    ensures Keys(NewLeaf(k, v, parent)) == {k} && Ordered(NewLeaf(k, v, parent))
    ensures HeightsOk(NewLeaf(k, v, parent))
    ensures SentinelLeaves(NewLeaf(k, v, parent)) && ParentsLinked(NewLeaf(k, v, parent), parent)
  {
    assert HeightsOk(Sentinel(Some(k))) && Sentinel(Some(k)).height == -1;
  }

  /** One step of `updateHeightsToRoot`: `m` is the parent of `child`, already
      relinked to it.  If the walk reached `child` and `m` is shorter than
      `child.height + 1`, `m` is raised to that height and the walk continues;
      otherwise the walk stops here. */
  function RaiseParent(m: Node, child: Node, raised: bool): (r: (Node, bool))
    requires m.Real? && child != Null
    ensures r.0.Real? && r.0 == WithHeight(m, r.0.height)
    ensures r.0.height >= m.height
    ensures r.1 <==> r.0.height != m.height
    ensures r.1 ==> r.0.height == child.height + 1
    ensures raised ==> r.0.height >= child.height + 1
    ensures !raised ==> r.0 == m
  {
    if raised && m.height < child.height + 1 then (WithHeight(m, child.height + 1), true)
    else (m, false)
  }

  /** The key-comparison descent from `n` to a sentinel slot, the splice, and
      the height walk back up to `n`. */
  function InsertRec(n: Node, k: i32, v: string): (r: Descent)
    requires n != Null && SentinelLeaves(n)
    ensures r.Duplicate? ==> k in Keys(n)
    ensures r.Spliced? ==> r.node.Real? && Keys(r.node) == Keys(n) + {k}
    ensures r.Spliced? ==> SentinelLeaves(r.node)
    ensures r.Spliced? && n.Virtual? ==> r.node == NewLeaf(k, v, n.parent) && r.raised
    ensures r.Spliced? && n.Real? ==>
      && r.node.key == n.key && r.node.value == n.value && r.node.parent == n.parent
      && r.node.size == n.size && r.node.sum == n.sum
      && r.node.height >= n.height
      && (r.raised <==> r.node.height != n.height)
    ensures r.Spliced? && n.Real? && k < n.key ==> r.node.right == n.right
    ensures r.Spliced? && n.Real? && n.key < k ==> r.node.left == n.left
  {
    match n
    case Virtual(_, _, _, p) => Spliced(NewLeaf(k, v, p), true)
    case Real(key, _, _, _, _, l, r, _) =>
      if k < key then
        match InsertRec(l, k, v)
        case Duplicate => Duplicate
        case Spliced(c, up) =>
          var step := RaiseParent(n.(left := c), c, up);
          Spliced(step.0, step.1)
      else if k > key then
        match InsertRec(r, k, v)
        case Duplicate => Duplicate
        case Spliced(c, up) =>
          var step := RaiseParent(n.(right := c), c, up);
          Spliced(step.0, step.1)
      else
        Duplicate
  }

  /** `insert(k, v)`: -1 and no change for a key met on the descent; otherwise
      the tree with the new leaf and 0 rebalancing operations. */
  function Insert(t: Tree, k: i32, v: string): (r: (Tree, int))
    requires Linked(t)
    ensures r.1 == -1 || r.1 == 0
    ensures r.1 == -1 ==> r.0 == t && k in Keys(t.root)
    ensures r.1 == 0 ==> Keys(r.0.root) == Keys(t.root) + {k} && r.0.root.Real?
    ensures t.root == Null ==> r == (Tree(NewLeaf(k, v, None)), 0)
    ensures t.root.Real? && r.1 == 0 ==>
      && r.0.root.key == t.root.key && r.0.root.value == t.root.value
      && r.0.root.parent == None
  {
    if t.root == Null then
      (Tree(NewLeaf(k, v, None)), 0)
    else
      match InsertRec(t.root, k, v)
      case Duplicate => (t, -1)
      case Spliced(root, _) => (Tree(root), 0)
  }

  /** The last real node the descent for `k` visits below `n`: the node whose
      sentinel slot receives a new key. */
  function SlotOwner(n: Node, k: i32): (o: Node)
    requires n.Real? && SentinelLeaves(n) && k !in Keys(n)
    ensures o.Real? && Contains(n, o)
    ensures k < o.key ==> o.left.Virtual?
    ensures o.key < k ==> o.right.Virtual?
  {
    if k < n.key then
      if n.left.Real? then SlotOwner(n.left, k) else n
    else
      if n.right.Real? then SlotOwner(n.right, k) else n
  }

  /** In a BST the descent meets `k` exactly when `k` is a key of the tree. */
  lemma {:induction false} InsertRecDuplicateIffPresent(n: Node, k: i32, v: string)
    requires n != Null && SentinelLeaves(n) && Ordered(n)
    ensures InsertRec(n, k, v).Duplicate? <==> k in Keys(n)
  {
    match n
    case Virtual(_, _, _, _) =>
    case Real(key, _, _, _, _, l, r, _) =>
      if k < key {
        InsertRecDuplicateIffPresent(l, k, v);
        assert k !in Keys(r);
      } else if k > key {
        InsertRecDuplicateIffPresent(r, k, v);
        assert k !in Keys(l);
      }
  }

  /** Inserting a fresh key keeps BST order. */
  lemma {:induction false} InsertRecKeepsOrder(n: Node, k: i32, v: string)
    requires n != Null && SentinelLeaves(n) && Ordered(n)
    requires InsertRec(n, k, v).Spliced?
    ensures Ordered(InsertRec(n, k, v).node)
  {
    match n
    case Virtual(_, _, _, _) =>
    case Real(key, _, _, _, _, l, r, _) =>
      if k < key {
        InsertRecKeepsOrder(l, k, v);
      } else if k > key {
        InsertRecKeepsOrder(r, k, v);
      }
  }

  /** With consistent heights before, heights are consistent after, and the
      subtree grows by exactly one level when the walk continues above it. */
  lemma {:induction false} InsertRecKeepsHeights(n: Node, k: i32, v: string)
    requires n != Null && SentinelLeaves(n) && HeightsOk(n)
    requires InsertRec(n, k, v).Spliced?
    ensures HeightsOk(InsertRec(n, k, v).node)
    ensures InsertRec(n, k, v).raised ==> InsertRec(n, k, v).node.height == n.height + 1
    ensures !InsertRec(n, k, v).raised ==> InsertRec(n, k, v).node.height == n.height
  {
    match n
    case Virtual(_, _, _, _) =>
    case Real(key, _, _, _, _, l, r, _) =>
      if k < key {
        InsertRecKeepsHeights(l, k, v);
      } else if k > key {
        InsertRecKeepsHeights(r, k, v);
      }
  }

  /** Parent fields stay correct: the new leaf takes the parent field of the
      sentinel it replaces, and its own sentinels point at it. */
  lemma {:induction false} InsertRecKeepsParents(n: Node, k: i32, v: string, parent: Option<i32>)
    requires n != Null && SentinelLeaves(n) && ParentsLinked(n, parent)
    requires InsertRec(n, k, v).Spliced?
    ensures ParentsLinked(InsertRec(n, k, v).node, parent)
  {
    match n
    case Virtual(_, _, _, _) =>
    case Real(key, _, _, _, _, l, r, _) =>
      if k < key {
        InsertRecKeepsParents(l, k, v, Some(key));
      } else if k > key {
        InsertRecKeepsParents(r, k, v, Some(key));
      }
  }

  /** The new key ends up in a leaf whose parent field names the node whose
      sentinel slot the descent reached. */
  lemma {:induction false} InsertRecPlacesLeaf(n: Node, k: i32, v: string)
    requires n.Real? && SentinelLeaves(n) && ParentsLinked(n, n.parent)
    requires InsertRec(n, k, v).Spliced? && k !in Keys(n)
    ensures Contains(InsertRec(n, k, v).node, NewLeaf(k, v, Some(SlotOwner(n, k).key)))
  {
    var key := n.key;
    if k < key {
      if n.left.Real? {
        InsertRecPlacesLeaf(n.left, k, v);
      }
    } else {
      if n.right.Real? {
        InsertRecPlacesLeaf(n.right, k, v);
      }
    }
  }

  /** Inserting into an empty tree makes the new node the root: height 0, no
      parent, two sentinel children of height -1; it reports 0. */
  lemma InsertIntoEmpty(k: i32, v: string)
    ensures var r := Insert(Tree(Null), k, v);
      && r.1 == 0
      && r.0.root.Real? && r.0.root.key == k && r.0.root.value == v
      && r.0.root.height == 0 && r.0.root.parent == None
      && r.0.root.left == Virtual(0, "", -1, Some(k))
      && r.0.root.right == Virtual(0, "", -1, Some(k))
      && HeightsOk(r.0.root) && Linked(r.0)
  {
  }

  /** A key already in a BST is refused with -1 and the tree is unchanged; a
      fresh key is accepted with 0. */
  lemma InsertDuplicate(t: Tree, k: i32, v: string)
    requires Linked(t) && Ordered(t.root)
    ensures Insert(t, k, v).1 == -1 <==> k in Keys(t.root)
    ensures k in Keys(t.root) ==> Insert(t, k, v).0 == t
  {
    if t.root != Null {
      InsertRecDuplicateIffPresent(t.root, k, v);
    }
  }

  /** Insert keeps every invariant the BST test checks: links, sentinel leaves,
      order and the height recurrence. */
  lemma InsertKeepsInvariants(t: Tree, k: i32, v: string)
    requires Linked(t)
    ensures Linked(Insert(t, k, v).0)
    ensures Ordered(t.root) ==> Ordered(Insert(t, k, v).0.root)
    ensures (t.root == Null || HeightsOk(t.root)) ==> HeightsOk(Insert(t, k, v).0.root)
  {
    if t.root != Null && InsertRec(t.root, k, v).Spliced? {
      InsertRecKeepsParents(t.root, k, v, None);
      if Ordered(t.root) {
        InsertRecKeepsOrder(t.root, k, v);
      }
      if HeightsOk(t.root) {
        InsertRecKeepsHeights(t.root, k, v);
      }
    }
  }

  /** A fresh key into a non-empty BST lands in a leaf below the last real
      node of its descent, in that node's former sentinel slot. */
  lemma InsertPlacesLeaf(t: Tree, k: i32, v: string)
    requires Linked(t) && Ordered(t.root) && t.root.Real? && k !in Keys(t.root)
    ensures Insert(t, k, v).1 == 0
    ensures Contains(Insert(t, k, v).0.root, NewLeaf(k, v, Some(SlotOwner(t.root, k).key)))
  {
    InsertRecDuplicateIffPresent(t.root, k, v);
    InsertRecPlacesLeaf(t.root, k, v);
  }
}
