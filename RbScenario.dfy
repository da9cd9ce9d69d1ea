/**
 * Runs of RbTree::insert on small inputs, followed on the arenas that
 * RedBlack.Put produces (RbTree.Insert is proved to leave exactly Put's
 * arena).  Node i of an arena is the i-th node inserted.
 */
module RbScenario {
  import opened RedBlack

  function Red(key: int, val: int, left: int, right: int, parent: int): RbNode<int>
  {
    RbNode(key, val, left, right, parent, Color.Red)
  }

  function Black(key: int, val: int, left: int, right: int, parent: int): RbNode<int>
  {
    RbNode(key, val, left, right, parent, Color.Black)
  }

  /** The tree of one node, 1. */
  function One(): Arena<int>
  {
    Arena([Black(1, 1, NIL, NIL, NIL)], 0)
  }

  /** The tree 1(-, 2) with 2 red. */
  function OneTwo(): Arena<int>
  {
    Arena([Black(1, 1, NIL, 1, NIL), Red(2, 2, NIL, NIL, 0)], 0)
  }

  /** insert(1, 1) into the empty tree, then insert(2, 2): no pass of the loop in either reading. */
  lemma PutOneTwo(variant: Variant)
    ensures Put(Arena([], NIL), 1, 1, variant) == Finished(One(), Returned)
    ensures Put(One(), 2, 2, variant) == Finished(OneTwo(), Returned)
  {
  }

  /** 1(-, 2(-, 3)) with 2 and 3 red: insert(3, 3) before its loop. */
  function Hung(): Arena<int>
  {
    Arena([Black(1, 1, NIL, 1, NIL), Red(2, 2, NIL, 2, 0), Red(3, 3, NIL, NIL, 1)], 0)
  }

  /** insert(3, 3) into 1(-, 2) hangs 3 right of 2 and runs the loop from it, in either reading. */
  lemma PutThreeHangs(variant: Variant)
    ensures Put(OneTwo(), 3, 3, variant) == FixUp(Hung(), 2, 3, variant)
  {
  }

  /**
   * insert(3, 3) as written: 3 hangs right of 2, the mirror branch takes 2
   * itself for the uncle, finds it red and calls flipColor on 1, whose
   * missing left child fails the assert of RBTree.h:246.
   */
  lemma OneTwoThreeAsWritten()
    ensures Put(OneTwo(), 3, 3, AsWritten) == Finished(Hung(), AssertionFailed)
  {
    PutThreeHangs(AsWritten);
    assert FixBody(Hung(), 2, AsWritten) == Stepped(Hung(), Halt(AssertionFailed));
  }

  /** The tree 2(1, 3) with 1 and 3 red, before line 284 blackens the root. */
  function Rotated(): Arena<int>
  {
    Arena([Red(1, 1, NIL, NIL, 1), Black(2, 2, 0, 2, NIL), Red(3, 3, NIL, NIL, 1)], 1)
  }

  /** The corrected pass from 3: the uncle is 1's missing left child, so 1 is rotated left. */
  lemma CorrectedPass()
    ensures FixBody(Hung(), 2, Textbook) == Stepped(Rotated(), Continue(2))
  {
    assert LeftRotatedWithParent(Hung(), 0) == Rotated();
  }

  /**
   * insert(3, 3) with the mirror branch corrected ends with 2 black over
   * red 1 and red 3.
   */
  lemma OneTwoThreeCorrected()
    ensures Put(OneTwo(), 3, 3, Textbook) == Finished(Rotated(), Returned)
  {
    PutThreeHangs(Textbook);
    CorrectedPass();
    assert FixUp(Rotated(), 2, 2, Textbook) == Finish(Rotated());
  }

  // ----- The run of tree/RBTree/test_RBTree.cpp (lines 8-13) -----

  function T1(): Arena<int> { Arena([Black(1, 2, NIL, NIL, NIL)], 0) }

  function T2(): Arena<int> { Arena([Black(1, 2, 1, NIL, NIL), Red(0, 1, NIL, NIL, 0)], 0) }

  function T3(): Arena<int>
  {
    Arena([Black(1, 2, 1, 2, NIL), Red(0, 1, NIL, NIL, 0), Red(5, 2, NIL, NIL, 0)], 0)
  }

  function T4(): Arena<int>
  {
    Arena([Black(1, 2, 1, 2, NIL), Black(0, 1, NIL, NIL, 0), Black(5, 2, 3, NIL, 0), Red(3, 1, NIL, NIL, 2)], 0)
  }

  function T5(): Arena<int>
  {
    Arena([Black(1, 2, 1, 3, NIL), Black(0, 1, NIL, NIL, 0), Red(5, 2, NIL, NIL, 3), Black(3, 1, 4, 2, 0),
           Red(2, 1, NIL, NIL, 3)], 0)
  }

  /** The final tree 1(0, 3(2, 5(-, 7))) with 3 and 7 red. */
  function T6(): Arena<int>
  {
    Arena([Black(1, 2, 1, 3, NIL), Black(0, 1, NIL, NIL, 0), Black(5, 2, NIL, 5, 3), Red(3, 1, 4, 2, 0),
           Black(2, 1, NIL, NIL, 3), Red(7, 1, NIL, NIL, 2)], 0)
  }

  /** insert(1, 2), insert(0, 1) and insert(5, 2) need no pass of the loop. */
  lemma TestFirstThree(variant: Variant)
    ensures Put(Arena([], NIL), 1, 2, variant) == Finished(T1(), Returned)
    ensures Put(T1(), 0, 1, variant) == Finished(T2(), Returned)
    ensures Put(T2(), 5, 2, variant) == Finished(T3(), Returned)
  {
  }

  /** T3 with 3 hung left of 5. */
  function H4(): Arena<int>
  {
    Arena([Black(1, 2, 1, 2, NIL), Red(0, 1, NIL, NIL, 0), Red(5, 2, 3, NIL, 0), Red(3, 1, NIL, NIL, 2)], 0)
  }

  /** T4 with 2 hung left of 3. */
  function H5(): Arena<int>
  {
    Arena([Black(1, 2, 1, 2, NIL), Black(0, 1, NIL, NIL, 0), Black(5, 2, 3, NIL, 0), Red(3, 1, 4, NIL, 2),
           Red(2, 1, NIL, NIL, 3)], 0)
  }

  /** T5 with 7 hung right of 5. */
  function H6(): Arena<int>
  {
    Arena([Black(1, 2, 1, 3, NIL), Black(0, 1, NIL, NIL, 0), Red(5, 2, NIL, 5, 3), Black(3, 1, 4, 2, 0),
           Red(2, 1, NIL, NIL, 3), Red(7, 1, NIL, NIL, 2)], 0)
  }

  /** insert(3, 1) hangs 3 left of 5 and runs the loop from it. */
  lemma TestHangsThree(variant: Variant)
    ensures Put(T3(), 3, 1, variant) == FixUp(H4(), 3, 4, variant)
  {
    assert Descend(T3().nodes, 0, NIL, 3, |T3().nodes|) == Absent(2);
    assert Attach(T3(), 3, 1, 2) == H4();
  }

  /** insert(2, 1) hangs 2 left of 3 and runs the loop from it. */
  lemma TestHangsTwo(variant: Variant)
    ensures Put(T4(), 2, 1, variant) == FixUp(H5(), 4, 5, variant)
  {
    assert Descend(T4().nodes, 0, NIL, 2, |T4().nodes|) == Absent(3);
    assert Attach(T4(), 2, 1, 3) == H5();
  }

  /** insert(7, 1) hangs 7 right of 5 and runs the loop from it. */
  lemma TestHangsSeven(variant: Variant)
    ensures Put(T5(), 7, 1, variant) == FixUp(H6(), 5, 6, variant)
  {
    assert Descend(T5().nodes, 0, NIL, 7, |T5().nodes|) == Absent(2);
    assert Attach(T5(), 7, 1, 2) == H6();
  }

  /**
   * From 3, a left child of the right child 5 with the red sibling 0, both
   * readings of the mirror branch flip the colours of 1.
   */
  lemma TestPassFromThree(variant: Variant)
    ensures FixBody(H4(), 3, variant)
      == Stepped(Arena([Red(1, 2, 1, 2, NIL), Black(0, 1, NIL, NIL, 0), Black(5, 2, 3, NIL, 0), Red(3, 1, NIL, NIL, 2)], 0),
                 Continue(0))
  {
  }

  /** From 2, the outer grandchild of 5 through a left child, the left branch rotates 5 right. */
  lemma TestPassFromTwo(variant: Variant)
    ensures FixBody(H5(), 4, variant) == Stepped(T5(), Continue(4))
  {
    assert RightRotatedWithParent(H5(), 2) == T5();
  }

  /** From 7, under 5 whose parent 3 has the red left child 2, both readings flip the colours of 3. */
  lemma TestPassFromSeven(variant: Variant)
    ensures FixBody(H6(), 5, variant) == Stepped(T6(), Continue(3))
  {
  }

  /** insert(3, 1) flips the colours at 1, and line 284 blackens 1 again. */
  lemma TestPutThree(variant: Variant)
    ensures Put(T3(), 3, 1, variant) == Finished(T4(), Returned)
  {
    TestHangsThree(variant);
    TestPassFromThree(variant);
  }

  /** insert(2, 1) rotates 5 right, and the loop stops under the black 3. */
  lemma TestPutTwo(variant: Variant)
    ensures Put(T4(), 2, 1, variant) == Finished(T5(), Returned)
  {
    TestHangsTwo(variant);
    TestPassFromTwo(variant);
  }

  /**
   * insert(7, 1) flips the colours at 3, leaving the final tree
   * 1(0, 3(2, 5(-, 7))) with 3 and 7 red, in both readings.
   */
  lemma TestPutSeven(variant: Variant)
    ensures Put(T5(), 7, 1, variant) == Finished(T6(), Returned)
  {
    TestHangsSeven(variant);
    TestPassFromSeven(variant);
  }
}
