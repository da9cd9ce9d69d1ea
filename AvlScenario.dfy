/**
 * The run of tree/AVLTree/test_AVLTree.cpp, followed on the tree values that
 * the AvlTree methods produce (each method's root is the matching function
 * of the old root).
 */
module AvlScenario {
  import opened Avl

  function Leaf1(k: int, v: int): Tree<int>
  {
    Node(k, v, Leaf, Leaf, 1)
  }

  /** The tree initAVLTree (test_AVLTree.cpp:6-14) builds: 3(1(0, 2), 5(-, 7)). */
  function Built(): Tree<int>
  {
    Node(3, 1, Node(1, 2, Leaf1(0, 1), Leaf1(2, 1), 2), Node(5, 2, Leaf, Leaf1(7, 1), 2), 3)
  }

  /** put(1, 2), put(0, 1), put(5, 2): no rotation. */
  lemma PutFirst()
    ensures Insert(Insert(Insert(Leaf, 1, 2, DoubleRotation).root, 0, 1, DoubleRotation).root, 5, 2, DoubleRotation).root
      == Node(1, 2, Leaf1(0, 1), Leaf1(5, 2), 2)
  {
  }

  /** put(3, 1) hangs 3 under 5. */
  lemma PutThree()
    ensures Insert(Node(1, 2, Leaf1(0, 1), Leaf1(5, 2), 2), 3, 1, DoubleRotation).root
      == Node(1, 2, Leaf1(0, 1), Node(5, 2, Leaf1(3, 1), Leaf, 2), 3)
  {
  }

  /** put(2, 1) makes 5 left-heavy and LL lifts 3. */
  lemma PutTwo()
    ensures Insert(Node(1, 2, Leaf1(0, 1), Node(5, 2, Leaf1(3, 1), Leaf, 2), 3), 2, 1, DoubleRotation).root
      == Node(1, 2, Leaf1(0, 1), Node(3, 1, Leaf1(2, 1), Leaf1(5, 2), 2), 3)
  {
    assert Insert(Node(5, 2, Leaf1(3, 1), Leaf, 2), 2, 1, DoubleRotation).root
      == Node(3, 1, Leaf1(2, 1), Leaf1(5, 2), 2);
  }

  /** put(7, 1) makes 1 right-heavy and RR lifts 3. */
  lemma PutSeven()
    ensures Insert(Node(1, 2, Leaf1(0, 1), Node(3, 1, Leaf1(2, 1), Leaf1(5, 2), 2), 3), 7, 1, DoubleRotation).root
      == Built()
  {
    assert Insert(Node(3, 1, Leaf1(2, 1), Leaf1(5, 2), 2), 7, 1, DoubleRotation).root
      == Node(3, 1, Leaf1(2, 1), Node(5, 2, Leaf, Leaf1(7, 1), 2), 3);
  }

  /** The built tree is an AVL tree of height 3, the height test_AVLTree.cpp:22 asks for. */
  lemma BuiltIsAvl()
    ensures IsAvl(Built()) && Height(Built()) == 3
  {
  }

  /**
   * deleteMax (test_AVLTree.cpp:27) removes 7, leaving 3(1(0, 2), 5); no
   * node is out of balance on the way back, so the choice on a tie is moot.
   */
  lemma DeleteSeven(tie: OnTie)
    ensures RemoveMax(Built(), tie).root
      == Node(3, 1, Node(1, 2, Leaf1(0, 1), Leaf1(2, 1), 2), Leaf1(5, 2), 3)
  {
  }

  /**
   * deleteKey(3) (test_AVLTree.cpp:31) puts the successor 5 in 3's place,
   * finds it left-heavy with its left child tied, and rotates once into
   * 1(0, 5(2, -)).
   */
  lemma DeleteThree()
    ensures Remove(Node(3, 1, Node(1, 2, Leaf1(0, 1), Leaf1(2, 1), 2), Leaf1(5, 2), 3), 3, SingleRotation).root
      == Node(1, 2, Leaf1(0, 1), Node(5, 2, Leaf1(2, 1), Leaf, 2), 3)
  {
    assert RemoveMin(Leaf1(5, 2), SingleRotation).root == Leaf;
  }

  /** What the final tree stores; its maximum is 5 and its minimum 0 (test_AVLTree.cpp:34-35). */
  lemma Final()
    ensures Content(Node(1, 2, Leaf1(0, 1), Node(5, 2, Leaf1(2, 1), Leaf, 2), 3)) == map[0 := 1, 1 := 2, 2 := 1, 5 := 2]
    ensures MaxNode(Node(1, 2, Leaf1(0, 1), Node(5, 2, Leaf1(2, 1), Leaf, 2), 3)).key == 5
    ensures MinNode(Node(1, 2, Leaf1(0, 1), Node(5, 2, Leaf1(2, 1), Leaf, 2), 3)).key == 0
  {
  }

  /**
   * The source's own deleteKey(3) in that run meets the same tie and
   * double-rotates instead, into 2(1(0, -), 5), with the same maximum and
   * minimum.
   */
  lemma ScenarioAsWritten()
    ensures Remove(Node(3, 1, Node(1, 2, Leaf1(0, 1), Leaf1(2, 1), 2), Leaf1(5, 2), 3), 3, DoubleRotation).root
      == Node(2, 1, Node(1, 2, Leaf1(0, 1), Leaf, 2), Leaf1(5, 2), 3)
    ensures MaxNode(Node(2, 1, Node(1, 2, Leaf1(0, 1), Leaf, 2), Leaf1(5, 2), 3)).key == 5
    ensures MinNode(Node(2, 1, Node(1, 2, Leaf1(0, 1), Leaf, 2), Leaf1(5, 2), 3)).key == 0
  {
    var l := Node(1, 2, Leaf1(0, 1), Leaf1(2, 1), 2);
    assert RemoveMin(Leaf1(5, 2), DoubleRotation).root == Leaf;
    assert Successor(l, Leaf1(5, 2), DoubleRotation) == Node(5, 2, l, Leaf, 3);
    assert LeftRotate(l) == Node(2, 1, Node(1, 2, Leaf1(0, 1), Leaf, 2), Leaf, 3);
  }
}
