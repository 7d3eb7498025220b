/**
 * `AVLSanitizer` (external tests): recomputes height, subtree size and key sum
 * and compares them with the node's stored fields, and rejects a node whose
 * children's recomputed heights differ by two or more.  Its `calcHeight` and
 * `calcSum` are the same code as the other sanitizer's and are reused here.
 */
module ExternalSanitizer {
  import opened Int32
  import opened Nodes
  import opened Sanitizer

  /** `calcSize`: 0 for null or a virtual node, otherwise left + right + 1.
      The `assert false` it runs on a mismatch with the stored size is left
      out: `SizeMismatchRejected` shows that `sanitizeTree` returns false
      whenever it could fire, so the calling test fails either way. */
  function CalcSize(n: Node): int
  {
    match n
    case Real(_, _, _, _, _, l, r, _) => CalcSize(l) + CalcSize(r) + 1
    case _ => 0
  }

  function Abs(x: int): int
  {
    if x < 0 then -x else x
  }

  function Pow2(e: nat): nat
  {
    if e == 0 then 1 else 2 * Pow2(e - 1)
  }

  /** `sanitizeTree`: true at null or a virtual node; at a real node, false
      when the stored height, size or sum differs from the recomputed one or
      the children's recomputed heights differ by two or more; otherwise both
      children must pass. */
  predicate Sanitize(n: Node)
  {
    match n
    case Real(_, _, h, size, sum, l, r, _) =>
      if CalcHeight(n) != h then false
      else if CalcSize(n) != size then false
      else if CalcSum(n) != sum then false
      else if Abs(CalcHeight(l) - CalcHeight(r)) >= 2 then false
      else Sanitize(l) && Sanitize(r)
    case _ => true
  }

  /** A real node anywhere below the root whose stored size differs from the
      recomputed one makes `sanitizeTree` fail: the outcome of `calcSize`'s
      `assert false` is the outcome the sanitizer reports anyway. */
  lemma {:induction false} SizeMismatchRejected(n: Node, s: Node)
    requires Contains(n, s) && s.Real? && CalcSize(s) != s.size
    ensures !Sanitize(n)
  {
    if n != s {
      if Contains(n.left, s) {
        SizeMismatchRejected(n.left, s);
      } else {
        SizeMismatchRejected(n.right, s);
      }
    }
  }

  /** The recomputed size is the number of real nodes, which in a BST is the
      number of distinct keys. */
  lemma {:induction false} CalcSizeCountsNodes(n: Node)
    ensures CalcSize(n) == |InOrder(n)|
    ensures Ordered(n) ==> CalcSize(n) == |Keys(n)|
  {
    match n
    case Real(k, _, _, _, _, l, r, _) =>
      CalcSizeCountsNodes(l);
      CalcSizeCountsNodes(r);
      if Ordered(n) {
        assert Keys(l) !! Keys(r) && k !in Keys(l) && k !in Keys(r) by {
          forall x | x in Keys(l) ensures x !in Keys(r) && x != k {
            assert x < k;
          }
        }
        assert |Keys(l) + {k}| == |Keys(l)| + 1;
        assert |Keys(l) + {k} + Keys(r)| == |Keys(l) + {k}| + |Keys(r)|;
      }
    case _ =>
  }

  /** A subtree of recomputed height h holds between h + 1 and 2^(h+1) - 1 real nodes. */
  lemma {:induction false} HeightSizeBounds(n: Node)
    ensures CalcHeight(n) + 1 <= CalcSize(n) < Pow2(CalcHeight(n) + 1)
  {
    match n
    case Real(_, _, _, _, _, l, r, _) =>
      HeightSizeBounds(l);
      HeightSizeBounds(r);
      var h := CalcHeight(n);
      PowMonotone(CalcHeight(l) + 1, h);
      PowMonotone(CalcHeight(r) + 1, h);
      assert Pow2(h + 1) == 2 * Pow2(h);
    case _ =>
  }

  lemma PowMonotone(a: nat, b: nat)
    requires a <= b
    ensures Pow2(a) <= Pow2(b)
  {
    if a < b {
      PowMonotone(a, b - 1);
    }
  }

  /** With correct size fields the recomputed size is the stored one. */
  lemma {:induction false} CalcSizeMatchesStored(n: Node)
    requires SizesOk(n)
    ensures CalcSize(n) == StoredSize(n)
  {
    match n
    case Real(_, _, _, _, _, l, r, _) =>
      CalcSizeMatchesStored(l);
      CalcSizeMatchesStored(r);
    case _ =>
  }

  /** With correct sum fields the recomputed sum is the stored one. */
  lemma {:induction false} CalcSumMatchesStored(n: Node)
    requires SumsOk(n)
    ensures CalcSum(n) == StoredSum(n)
  {
    match n
    case Real(_, _, _, _, _, l, r, _) =>
      CalcSumMatchesStored(l);
      CalcSumMatchesStored(r);
    case _ =>
  }

  /** With the parent one above its taller child, the rank differences are
      AVL-valid exactly when the children's heights differ by less than two. */
  lemma RankPairIffBalanced(hl: int, hr: int)
    ensures RankPair(Max(hl, hr) + 1 - hl, Max(hl, hr) + 1 - hr) <==> Abs(hl - hr) < 2
  {
  }

  /** On a tree with sentinel leaves of height -1, the sanitizer passes exactly
      when heights follow the recurrence, the AVL rank rule holds, and the
      size and sum fields follow their recurrences. */
  lemma SanitizeMeaning(n: Node)
    requires n != Null && SentinelLeaves(n) && SentinelHeights(n)
    ensures Sanitize(n) <==> HeightsOk(n) && AvlRanks(n) && SizesOk(n) && SumsOk(n)
  {
    if Sanitize(n) {
      SanitizeSound(n);
    }
    if HeightsOk(n) && AvlRanks(n) && SizesOk(n) && SumsOk(n) {
      SanitizeComplete(n);
    }
  }

  lemma {:induction false} SanitizeSound(n: Node)
    requires n != Null && SentinelLeaves(n) && SentinelHeights(n) && Sanitize(n)
    ensures HeightsOk(n) && AvlRanks(n) && SizesOk(n) && SumsOk(n)
  {
    match n
    case Virtual(_, _, _, _) =>
    case Real(k, _, h, size, sum, l, r, _) =>
      assert CalcHeight(n) == h && CalcSize(n) == size && CalcSum(n) == sum;
      assert Abs(CalcHeight(l) - CalcHeight(r)) < 2;
      assert Sanitize(l) && Sanitize(r);
      SanitizeSound(l);
      SanitizeSound(r);
      CalcHeightMatchesStored(l);
      CalcHeightMatchesStored(r);
      assert h == Max(l.height, r.height) + 1;
      assert Recurrence(n);
      RankPairIffBalanced(l.height, r.height);
      assert AvlRanks(n);
      CalcSizeMatchesStored(l);
      CalcSizeMatchesStored(r);
      assert SizesOk(n);
      SumsStep(n);
  }

  /** A node whose sum field is the recomputed sum, over children with
      correct sum fields, has a correct sum field. */
  lemma SumsStep(n: Node)
    requires n.Real? && SumsOk(n.left) && SumsOk(n.right) && CalcSum(n) == n.sum
    ensures SumsOk(n)
  {
    CalcSumMatchesStored(n.left);
    CalcSumMatchesStored(n.right);
    CalcSumUnfold(n);
    SumsIntro(n);
  }

  lemma CalcSumUnfold(n: Node)
    requires n.Real?
    ensures CalcSum(n) == Wrap(Wrap(CalcSum(n.left) + CalcSum(n.right)) + n.key)
  {
  }

  lemma SumsIntro(n: Node)
    requires n.Real? && SumsOk(n.left) && SumsOk(n.right)
    requires n.sum == Wrap(Wrap(StoredSum(n.left) + StoredSum(n.right)) + n.key)
    ensures SumsOk(n)
  {
  }

  lemma {:induction false} SanitizeComplete(n: Node)
    requires n != Null && SentinelLeaves(n) && SentinelHeights(n)
    requires HeightsOk(n) && AvlRanks(n) && SizesOk(n) && SumsOk(n)
    ensures Sanitize(n)
  {
    match n
    case Virtual(_, _, _, _) =>
    case Real(k, _, h, _, _, l, r, _) =>
      SanitizeComplete(l);
      SanitizeComplete(r);
      CalcHeightMatchesStored(l);
      CalcHeightMatchesStored(r);
      CalcSizeMatchesStored(l);
      CalcSizeMatchesStored(r);
      CalcSumMatchesStored(l);
      CalcSumMatchesStored(r);
      RankPairIffBalanced(l.height, r.height);
  }
}
