/**
 * `AVLSanitizer` (test directory): recomputes heights and key sums from the
 * structure and compares the recomputed height with the stored one at every
 * real node.  It has no balance check.
 */
module Sanitizer {
  import opened Int32
  import opened Nodes

  /** `calcHeight`: -1 for null or a virtual node, otherwise one more than the
      larger recomputed height of the two children. */
  function CalcHeight(n: Node): (h: int)
    ensures h >= -1
  {
    match n
    case Real(_, _, _, _, _, l, r, _) => Max(CalcHeight(l), CalcHeight(r)) + 1
    case _ => -1
  }

  /** `calcSum`: 0 for null or a virtual node, otherwise left sum plus right
      sum plus key, each addition in Java `int` arithmetic. */
  function CalcSum(n: Node): i32
  {
    match n
    case Real(k, _, _, _, _, l, r, _) => Wrap(Wrap(CalcSum(l) + CalcSum(r)) + k)
    case _ => 0
  }

  /** `sanitizeTree`: true at null or a virtual node; false at a real node
      whose stored height differs from the recomputed one; otherwise both
      children must pass. */
  predicate Sanitize(n: Node)
  {
    match n
    case Real(_, _, h, _, _, l, r, _) =>
      if CalcHeight(n) != h then false else Sanitize(l) && Sanitize(r)
    case _ => true
  }

  /** On a tree with consistent heights the recomputed height is the stored one. */
  lemma {:induction false} CalcHeightMatchesStored(n: Node)
    requires n != Null && HeightsOk(n)
    ensures CalcHeight(n) == n.height
  {
    match n
    case Virtual(_, _, _, _) =>
    case Real(_, _, _, _, _, l, r, _) =>
      CalcHeightMatchesStored(l);
      CalcHeightMatchesStored(r);
  }

  /** The recomputed sum is the exact key sum wrapped to a Java `int`. */
  lemma CalcSumIsWrappedKeySum(n: Node)
    ensures CalcSum(n) == Wrap(KeySum(n))
    ensures MIN <= KeySum(n) <= MAX ==> CalcSum(n) == KeySum(n)
  {
    CalcSumWraps(n);
    WrapMeaning(KeySum(n));
  }

  lemma {:induction false} CalcSumWraps(n: Node)
    ensures CalcSum(n) == Wrap(KeySum(n))
  {
    match n
    case Real(k, _, _, _, _, l, r, _) =>
      CalcSumWraps(l);
      CalcSumWraps(r);
      WrapSum3(KeySum(l), KeySum(r), k);
      assert KeySum(n) == KeySum(l) + KeySum(r) + k;
    case _ =>
  }

  /** On a tree with sentinel leaves of height -1, the sanitizer passes exactly
      when the stored heights satisfy the height recurrence; it says nothing
      about balance. */
  lemma {:induction false} SanitizeMeaning(n: Node)
    requires n != Null && SentinelLeaves(n) && SentinelHeights(n)
    ensures Sanitize(n) <==> HeightsOk(n)
  {
    match n
    case Virtual(_, _, _, _) =>
    case Real(_, _, h, _, _, l, r, _) =>
      SanitizeMeaning(l);
      SanitizeMeaning(r);
      if HeightsOk(l) && HeightsOk(r) {
        CalcHeightMatchesStored(l);
        CalcHeightMatchesStored(r);
      }
  }
}
