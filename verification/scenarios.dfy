/**
 * Concrete insertion sequences from the repository's own tests, and what
 * the checkers say about the resulting trees, proved about the model one
 * `insert` call per step.
 */
module Scenarios {
  import opened Wrappers
  import opened Int32
  import opened Nodes
  import opened AVLTree
  import opened TestUtils
  import Sanitizer
  import ExternalSanitizer

  /** A real node as `insert` leaves it: size and sum fields at 0. */
  function N(k: i32, v: string, h: int, l: Node, r: Node, parent: Option<i32>): Node
  {
    Real(k, v, h, 0, 0, l, r, parent)
  }

  function S(parent: i32): Node
  {
    Sentinel(Some(parent))
  }

  // ------------------------------------------------ external testInsert

  /** The first insertion into an empty tree makes a root and reports 0. */
  lemma FirstInsert()
    ensures Insert(Tree(Null), 1, "1") == (Tree(N(1, "1", 0, S(1), S(1), None)), 0)
  {
  }

  /** Inserting the root's key again reports -1 and changes nothing. */
  lemma RepeatedInsert()
    ensures Insert(Tree(N(1, "1", 0, S(1), S(1), None)), 1, "1").1 == -1
  {
  }

  /** A larger key goes right of the root, whose height rises to 1. */
  lemma SecondInsert()
    ensures Insert(Tree(N(1, "1", 0, S(1), S(1), None)), 2, "2")
      == (Tree(N(1, "1", 1, S(1), N(2, "2", 0, S(2), S(2), Some(1)), None)), 0)
  {
  }

  /** A third increasing key makes a chain and still reports 0; the test
      expects 1 here, the single rotation this version does not perform. */
  lemma ThirdInsert()
    ensures Insert(Tree(N(1, "1", 1, S(1), N(2, "2", 0, S(2), S(2), Some(1)), None)), 3, "3")
      == (Tree(N(1, "1", 2, S(1), N(2, "2", 1, S(2), N(3, "3", 0, S(3), S(3), Some(2)), Some(1)), None)), 0)
  {
  }

  /** `testGetRoot` up to its first `delete`: no root while empty, then the
      first key stays at the root, with no parent, while a larger key is added. */
  lemma GetRootScenario()
    ensures GetRoot(Tree(Null)) == Null
    ensures GetRoot(Insert(Tree(Null), 1, "1").0).key == 1
    ensures var t := Insert(Insert(Tree(Null), 1, "1").0, 2, "2").0;
      GetRoot(t).key == 1 && GetRoot(t).parent == None
  {
    FirstInsert();
    SecondInsert();
  }

  // ---------------------------------------------------- createTreeTest1

  /** The trees after inserting 15, 11, 17, 18, 12 and 13 with value "a". */
  function Leaf(k: i32, parent: i32): Node
  {
    N(k, "a", 0, S(k), S(k), Some(parent))
  }

  function After15(): Tree { Tree(N(15, "a", 0, S(15), S(15), None)) }
  function After11(): Tree { Tree(N(15, "a", 1, Leaf(11, 15), S(15), None)) }
  function After17(): Tree { Tree(N(15, "a", 1, Leaf(11, 15), Leaf(17, 15), None)) }
  function Right18(): Node { N(17, "a", 1, S(17), Leaf(18, 17), Some(15)) }
  function After18(): Tree { Tree(N(15, "a", 2, Leaf(11, 15), Right18(), None)) }
  function After12(): Tree
  {
    Tree(N(15, "a", 2, N(11, "a", 1, S(11), Leaf(12, 11), Some(15)), Right18(), None))
  }
  function Right13(): Node { N(12, "a", 1, S(12), Leaf(13, 12), Some(11)) }
  function Left11(): Node { N(11, "a", 2, S(11), Right13(), Some(15)) }
  function After13(): Tree { Tree(N(15, "a", 3, Left11(), Right18(), None)) }

  /** Each insertion of `createTreeTest1` produces the next tree and reports 0. */
  lemma Insert15()
    ensures Insert(Tree(Null), 15, "a") == (After15(), 0)
  {
  }

  lemma Insert11()
    ensures Insert(After15(), 11, "a") == (After11(), 0)
  {
  }

  lemma Insert17()
    ensures Insert(After11(), 17, "a") == (After17(), 0)
  {
  }

  lemma Insert18()
    ensures Insert(After17(), 18, "a") == (After18(), 0)
  {
  }

  lemma Insert12()
    ensures Insert(After18(), 12, "a") == (After12(), 0)
  {
  }

  /** The last insertion raises 12, 11 and the root, one level each. */
  lemma Insert13()
    ensures Insert(After12(), 13, "a") == (After13(), 0)
  {
  }

  /** Without rotations the final tree passes the BST test with heights, but
      node 11 has rank differences (3, 1), so the AVL test fails. */
  lemma CreateTreeTest1Unbalanced()
    ensures TestBST(After13(), true) && !TestAVL(After13())
  {
    Test1Order();
    Test1Links();
    Test1Heights();
  }

  lemma Test1Order()
    ensures TestOrder(After13())
  {
    TestOrderIffOrdered(After13());
    assert Ordered(After13().root.left);
    assert Ordered(After13().root.right);
  }

  lemma Test1Links()
    ensures TestUnrealLeaves(After13()) && TestParents(After13())
  {
  }

  lemma Test1Heights()
    ensures TestHeights(After13(), false) && !TestHeights(After13(), true)
  {
    assert After13() == Tree(N(15, "a", 3, Left11(), Right18(), None));
    Test1HeightsPass();
    Test1HeightsFail();
  }

  lemma Test1HeightsPass()
    ensures HeightCheck(N(15, "a", 3, Left11(), Right18(), None), false) == Some(3)
  {
    Node11Heights(false);
    ChainHeight(17, 18, false);
    TopHeight(Left11(), Right18());
  }

  lemma Test1HeightsFail()
    ensures HeightCheck(N(15, "a", 3, Left11(), Right18(), None), true) == None
  {
    Node11Heights(true);
  }

  /** The root of height 3 over subtrees that check with heights 2 and 1. */
  lemma TopHeight(l: Node, r: Node)
    requires HeightCheck(l, false) == Some(2) && HeightCheck(r, false) == Some(1)
    ensures HeightCheck(N(15, "a", 3, l, r, None), false) == Some(3)
  {
  }

  /** A fresh leaf checks with height 0. */
  lemma LeafHeight(k: i32, parent: i32, avl: bool)
    ensures HeightCheck(Leaf(k, parent), avl) == Some(0)
  {
  }

  /** A node with a sentinel on the left and a leaf on the right checks with
      height 1, a valid (2, 1) rank pair. */
  lemma ChainHeight(k: i32, child: i32, avl: bool)
    ensures HeightCheck(N(k, "a", 1, S(k), Leaf(child, k), Some(15)), avl) == Some(1)
  {
    LeafHeight(child, k, avl);
  }

  /** Node 11 checks with height 2 without the rank test, and fails with it. */
  lemma Node11Heights(avl: bool)
    ensures HeightCheck(Left11(), avl) == if avl then None else Some(2)
  {
    LeafHeight(13, 12, avl);
    assert HeightCheck(Right13(), avl) == Some(1);
  }

  // ---------------------------------------------------------- sanitizers

  /** After 1, 2, 3 the tree is a right-leaning chain with correct heights:
      the test sanitizer accepts it; the external one rejects it, since the
      size and sum fields stay 0 and the root's children differ by two levels. */
  lemma ChainSanitizers()
    ensures var t := N(1, "1", 2, S(1), N(2, "2", 1, S(2), N(3, "3", 0, S(3), S(3), Some(2)), Some(1)), None);
      Sanitizer.Sanitize(t) && !ExternalSanitizer.Sanitize(t)
  {
  }
}
