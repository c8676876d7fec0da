/**
 * Consequences of the right-left rotation as written (SearchTree.java:258-270):
 * it stores the heights of the two rotated nodes without the `+ 1`, so the
 * cached heights drift from the true ones. Each lemma follows a concrete
 * sequence of insertions from the empty tree, one insertion per step.
 */
module RotationFindings {
  import opened Outcomes
  import opened Addresses
  import opened Entries
  import opened AvlModel

  // One step of `Insert` and of `InsertAll`, for following a concrete run.

  lemma InsertGoesLeft(e: Entry, t: Tree, rl: RLRotation, l1: Tree)
    requires t.Node? && Key(e) < Key(t.data) && Insert(Leaf(e), t.left, rl) == Returns(l1)
    ensures l1.Node?
    ensures Insert(Leaf(e), t, rl) == BalanceLeft(e, Node(l1, t.data, t.height, t.right))
  {
  }

  lemma InsertGoesRight(e: Entry, t: Tree, rl: RLRotation, r1: Tree)
    requires t.Node? && Key(e) > Key(t.data) && Insert(Leaf(e), t.right, rl) == Returns(r1)
    ensures r1.Node?
    ensures Insert(Leaf(e), t, rl) == BalanceRight(e, Node(t.left, t.data, t.height, r1), rl)
  {
  }

  lemma InsertThrowsLeft(e: Entry, t: Tree, rl: RLRotation)
    requires t.Node? && Key(e) < Key(t.data) && Insert(Leaf(e), t.left, rl) == NullPointerException
    ensures Insert(Leaf(e), t, rl) == NullPointerException
  {
  }

  lemma InsertStops(e: Entry, t: Tree, rl: RLRotation)
    requires t.Node? && Key(e) == Key(t.data)
    ensures Insert(Leaf(e), t, rl) == Returns(Reheight(t))
  {
  }

  lemma InsertAllStep(t: Tree, es: seq<Entry>, rl: RLRotation, t1: Tree)
    requires es != [] && Insert(Leaf(es[0]), t, rl) == Returns(t1)
    ensures InsertAll(t, es, rl) == InsertAll(t1, es[1..], rl)
  {
  }

  lemma InsertAllThrows(t: Tree, es: seq<Entry>, rl: RLRotation)
    requires es != [] && Insert(Leaf(es[0]), t, rl) == NullPointerException
    ensures InsertAll(t, es, rl) == NullPointerException
  {
  }

  /**
   * Inserting the begins 0, 2, 1 takes the right-left rotation; as written it
   * leaves the root with cached height 2 over a tree of true height 1.
   */
  lemma AsWrittenStaleHeight(e0: Entry, e1: Entry, e2: Entry)
    requires Key(e0) == 0 && Key(e1) == 1 && Key(e2) == 2
    ensures var t := InsertAll(Nil, [e0, e2, e1], AsWritten);
      t.Returns? && !Exact(t.value) && H(t.value) == 2 && Depth(t.value) == 1
  {
    InsertAllStep(Nil, [e0, e2, e1], AsWritten, Leaf(e0));
    assert [e0, e2, e1][1..] == [e2, e1];
    AsWrittenStaleHeightStep2(e0, e2);
    InsertAllStep(Leaf(e0), [e2, e1], AsWritten, Node(Nil, e0, 1, Leaf(e2)));
    assert [e2, e1][1..] == [e1];
    AsWrittenStaleHeightStep3(e0, e1, e2);
    InsertAllStep(Node(Nil, e0, 1, Leaf(e2)), [e1], AsWritten, Node(Leaf(e0), e1, 2, Node(Nil, e2, 1, Nil)));
    assert [e1][1..] == [];
    assert Depth(Node(Nil, e2, 1, Nil)) == 0 && !Exact(Node(Nil, e2, 1, Nil));
  }

  /** Step 2 of `AsWrittenStaleHeight`: inserting begin 2. */
  lemma AsWrittenStaleHeightStep2(e0: Entry, e2: Entry)
    requires Key(e0) == 0 && Key(e2) == 2
    ensures Insert(Leaf(e2), Leaf(e0), AsWritten) == Returns(Node(Nil, e0, 1, Leaf(e2)))
  {
    InsertGoesRight(e2, Leaf(e0), AsWritten, Leaf(e2));
    assert BalanceRight(e2, Node(Nil, e0, 0, Leaf(e2)), AsWritten) == Returns(Node(Nil, e0, 1, Leaf(e2)));
  }

  /** Step 3 of `AsWrittenStaleHeight`: inserting begin 1. */
  lemma AsWrittenStaleHeightStep3(e0: Entry, e1: Entry, e2: Entry)
    requires Key(e0) == 0 && Key(e1) == 1 && Key(e2) == 2
    ensures Insert(Leaf(e1), Node(Nil, e0, 1, Leaf(e2)), AsWritten) == Returns(Node(Leaf(e0), e1, 2, Node(Nil, e2, 1, Nil)))
  {
    InsertGoesLeft(e1, Leaf(e2), AsWritten, Leaf(e1));
    assert BalanceLeft(e1, Node(Leaf(e1), e2, 0, Nil)) == Returns(Node(Leaf(e1), e2, 1, Nil));
    InsertGoesRight(e1, Node(Nil, e0, 1, Leaf(e2)), AsWritten, Node(Leaf(e1), e2, 1, Nil));
    assert BalanceRight(e1, Node(Nil, e0, 1, Node(Leaf(e1), e2, 1, Nil)), AsWritten) == Returns(Node(Leaf(e0), e1, 2, Node(Nil, e2, 1, Nil)));
  }

  /**
   * Inserting the begins 0, 1, 2, 5, 4, 3 with the rotation as written
   * returns a tree whose root has a left subtree of true height 2 over a
   * right subtree of true height 0: the stale height left by the right-left
   * rotation at step 5 hides the imbalance from the check at step 6.
   */
  lemma AsWrittenLosesBalance(e0: Entry, e1: Entry, e2: Entry, e3: Entry, e4: Entry, e5: Entry)
    requires Key(e0) == 0 && Key(e1) == 1 && Key(e2) == 2 && Key(e3) == 3 && Key(e4) == 4 && Key(e5) == 5
    ensures var t := InsertAll(Nil, [e0, e1, e2, e5, e4, e3], AsWritten);
      t.Returns? && !DepthBalanced(t.value)
  {
    InsertAllStep(Nil, [e0, e1, e2, e5, e4, e3], AsWritten, Leaf(e0));
    assert [e0, e1, e2, e5, e4, e3][1..] == [e1, e2, e5, e4, e3];
    AsWrittenLosesBalanceStep2(e0, e1);
    InsertAllStep(Leaf(e0), [e1, e2, e5, e4, e3], AsWritten, Node(Nil, e0, 1, Leaf(e1)));
    assert [e1, e2, e5, e4, e3][1..] == [e2, e5, e4, e3];
    AsWrittenLosesBalanceStep3(e0, e1, e2);
    InsertAllStep(Node(Nil, e0, 1, Leaf(e1)), [e2, e5, e4, e3], AsWritten, Node(Leaf(e0), e1, 1, Leaf(e2)));
    assert [e2, e5, e4, e3][1..] == [e5, e4, e3];
    AsWrittenLosesBalanceStep4(e0, e1, e2, e5);
    InsertAllStep(Node(Leaf(e0), e1, 1, Leaf(e2)), [e5, e4, e3], AsWritten, Node(Leaf(e0), e1, 2, Node(Nil, e2, 1, Leaf(e5))));
    assert [e5, e4, e3][1..] == [e4, e3];
    AsWrittenLosesBalanceStep5(e0, e1, e2, e4, e5);
    InsertAllStep(Node(Leaf(e0), e1, 2, Node(Nil, e2, 1, Leaf(e5))), [e4, e3], AsWritten, Node(Node(Leaf(e0), e1, 1, Leaf(e2)), e4, 2, Node(Nil, e5, 1, Nil)));
    assert [e4, e3][1..] == [e3];
    AsWrittenLosesBalanceStep6(e0, e1, e2, e3, e4, e5);
    InsertAllStep(Node(Node(Leaf(e0), e1, 1, Leaf(e2)), e4, 2, Node(Nil, e5, 1, Nil)), [e3], AsWritten, Node(Node(Leaf(e0), e1, 2, Node(Nil, e2, 1, Leaf(e3))), e4, 3, Node(Nil, e5, 1, Nil)));
    assert [e3][1..] == [];
    assert Depth(Node(Nil, e2, 1, Leaf(e3))) == 1;
    assert Depth(Node(Leaf(e0), e1, 2, Node(Nil, e2, 1, Leaf(e3)))) == 2;
    assert Depth(Node(Nil, e5, 1, Nil)) == 0;
  }

  /** Step 2 of `AsWrittenLosesBalance`: inserting begin 1. */
  lemma AsWrittenLosesBalanceStep2(e0: Entry, e1: Entry)
    requires Key(e0) == 0 && Key(e1) == 1
    ensures Insert(Leaf(e1), Leaf(e0), AsWritten) == Returns(Node(Nil, e0, 1, Leaf(e1)))
  {
    InsertGoesRight(e1, Leaf(e0), AsWritten, Leaf(e1));
    assert BalanceRight(e1, Node(Nil, e0, 0, Leaf(e1)), AsWritten) == Returns(Node(Nil, e0, 1, Leaf(e1)));
  }

  /** Step 3 of `AsWrittenLosesBalance`: inserting begin 2. */
  lemma AsWrittenLosesBalanceStep3(e0: Entry, e1: Entry, e2: Entry)
    requires Key(e0) == 0 && Key(e1) == 1 && Key(e2) == 2
    ensures Insert(Leaf(e2), Node(Nil, e0, 1, Leaf(e1)), AsWritten) == Returns(Node(Leaf(e0), e1, 1, Leaf(e2)))
  {
    InsertGoesRight(e2, Leaf(e1), AsWritten, Leaf(e2));
    assert BalanceRight(e2, Node(Nil, e1, 0, Leaf(e2)), AsWritten) == Returns(Node(Nil, e1, 1, Leaf(e2)));
    InsertGoesRight(e2, Node(Nil, e0, 1, Leaf(e1)), AsWritten, Node(Nil, e1, 1, Leaf(e2)));
    assert BalanceRight(e2, Node(Nil, e0, 1, Node(Nil, e1, 1, Leaf(e2))), AsWritten) == Returns(Node(Leaf(e0), e1, 1, Leaf(e2)));
  }

  /** Step 4 of `AsWrittenLosesBalance`: inserting begin 5. */
  lemma AsWrittenLosesBalanceStep4(e0: Entry, e1: Entry, e2: Entry, e5: Entry)
    requires Key(e0) == 0 && Key(e1) == 1 && Key(e2) == 2 && Key(e5) == 5
    ensures Insert(Leaf(e5), Node(Leaf(e0), e1, 1, Leaf(e2)), AsWritten) == Returns(Node(Leaf(e0), e1, 2, Node(Nil, e2, 1, Leaf(e5))))
  {
    InsertGoesRight(e5, Leaf(e2), AsWritten, Leaf(e5));
    assert BalanceRight(e5, Node(Nil, e2, 0, Leaf(e5)), AsWritten) == Returns(Node(Nil, e2, 1, Leaf(e5)));
    InsertGoesRight(e5, Node(Leaf(e0), e1, 1, Leaf(e2)), AsWritten, Node(Nil, e2, 1, Leaf(e5)));
    assert BalanceRight(e5, Node(Leaf(e0), e1, 1, Node(Nil, e2, 1, Leaf(e5))), AsWritten) == Returns(Node(Leaf(e0), e1, 2, Node(Nil, e2, 1, Leaf(e5))));
  }

  /** Step 5 of `AsWrittenLosesBalance`: inserting begin 4. */
  lemma AsWrittenLosesBalanceStep5(e0: Entry, e1: Entry, e2: Entry, e4: Entry, e5: Entry)
    requires Key(e0) == 0 && Key(e1) == 1 && Key(e2) == 2 && Key(e4) == 4 && Key(e5) == 5
    ensures Insert(Leaf(e4), Node(Leaf(e0), e1, 2, Node(Nil, e2, 1, Leaf(e5))), AsWritten) == Returns(Node(Node(Leaf(e0), e1, 1, Leaf(e2)), e4, 2, Node(Nil, e5, 1, Nil)))
  {
    InsertGoesLeft(e4, Leaf(e5), AsWritten, Leaf(e4));
    assert BalanceLeft(e4, Node(Leaf(e4), e5, 0, Nil)) == Returns(Node(Leaf(e4), e5, 1, Nil));
    InsertGoesRight(e4, Node(Nil, e2, 1, Leaf(e5)), AsWritten, Node(Leaf(e4), e5, 1, Nil));
    assert BalanceRight(e4, Node(Nil, e2, 1, Node(Leaf(e4), e5, 1, Nil)), AsWritten) == Returns(Node(Leaf(e2), e4, 2, Node(Nil, e5, 1, Nil)));
    InsertGoesRight(e4, Node(Leaf(e0), e1, 2, Node(Nil, e2, 1, Leaf(e5))), AsWritten, Node(Leaf(e2), e4, 2, Node(Nil, e5, 1, Nil)));
    assert BalanceRight(e4, Node(Leaf(e0), e1, 2, Node(Leaf(e2), e4, 2, Node(Nil, e5, 1, Nil))), AsWritten) == Returns(Node(Node(Leaf(e0), e1, 1, Leaf(e2)), e4, 2, Node(Nil, e5, 1, Nil)));
  }

  /** Step 6 of `AsWrittenLosesBalance`: inserting begin 3. */
  lemma AsWrittenLosesBalanceStep6(e0: Entry, e1: Entry, e2: Entry, e3: Entry, e4: Entry, e5: Entry)
    requires Key(e0) == 0 && Key(e1) == 1 && Key(e2) == 2 && Key(e3) == 3 && Key(e4) == 4 && Key(e5) == 5
    ensures Insert(Leaf(e3), Node(Node(Leaf(e0), e1, 1, Leaf(e2)), e4, 2, Node(Nil, e5, 1, Nil)), AsWritten) == Returns(Node(Node(Leaf(e0), e1, 2, Node(Nil, e2, 1, Leaf(e3))), e4, 3, Node(Nil, e5, 1, Nil)))
  {
    InsertGoesRight(e3, Leaf(e2), AsWritten, Leaf(e3));
    assert BalanceRight(e3, Node(Nil, e2, 0, Leaf(e3)), AsWritten) == Returns(Node(Nil, e2, 1, Leaf(e3)));
    InsertGoesRight(e3, Node(Leaf(e0), e1, 1, Leaf(e2)), AsWritten, Node(Nil, e2, 1, Leaf(e3)));
    assert BalanceRight(e3, Node(Leaf(e0), e1, 1, Node(Nil, e2, 1, Leaf(e3))), AsWritten) == Returns(Node(Leaf(e0), e1, 2, Node(Nil, e2, 1, Leaf(e3))));
    InsertGoesLeft(e3, Node(Node(Leaf(e0), e1, 1, Leaf(e2)), e4, 2, Node(Nil, e5, 1, Nil)), AsWritten, Node(Leaf(e0), e1, 2, Node(Nil, e2, 1, Leaf(e3))));
    assert BalanceLeft(e3, Node(Node(Leaf(e0), e1, 2, Node(Nil, e2, 1, Leaf(e3))), e4, 2, Node(Nil, e5, 1, Nil))) == Returns(Node(Node(Leaf(e0), e1, 2, Node(Nil, e2, 1, Leaf(e3))), e4, 3, Node(Nil, e5, 1, Nil)));
  }

  /**
   * Inserting the begins 3, 6, 5, 2, 4, 1, 6, 4, 2 with the rotation as
   * written throws: the stale heights let an unbalanced subtree through, and
   * inserting begin 2 a second time beneath it takes the left-right rotation
   * with no inner grandchild. With the corrected rotation no sequence throws
   * (`AvlModel.InsertAllCorrected`).
   */
  lemma AsWrittenThrows(e1: Entry, e2: Entry, e3: Entry, e4: Entry, e5: Entry, e6: Entry)
    requires Key(e1) == 1 && Key(e2) == 2 && Key(e3) == 3 && Key(e4) == 4 && Key(e5) == 5 && Key(e6) == 6
    ensures InsertAll(Nil, [e3, e6, e5, e2, e4, e1, e6, e4, e2], AsWritten) == NullPointerException
  {
    InsertAllStep(Nil, [e3, e6, e5, e2, e4, e1, e6, e4, e2], AsWritten, Leaf(e3));
    assert [e3, e6, e5, e2, e4, e1, e6, e4, e2][1..] == [e6, e5, e2, e4, e1, e6, e4, e2];
    AsWrittenThrowsStep2(e3, e6);
    InsertAllStep(Leaf(e3), [e6, e5, e2, e4, e1, e6, e4, e2], AsWritten, Node(Nil, e3, 1, Leaf(e6)));
    assert [e6, e5, e2, e4, e1, e6, e4, e2][1..] == [e5, e2, e4, e1, e6, e4, e2];
    AsWrittenThrowsStep3(e3, e5, e6);
    InsertAllStep(Node(Nil, e3, 1, Leaf(e6)), [e5, e2, e4, e1, e6, e4, e2], AsWritten, Node(Leaf(e3), e5, 2, Node(Nil, e6, 1, Nil)));
    assert [e5, e2, e4, e1, e6, e4, e2][1..] == [e2, e4, e1, e6, e4, e2];
    AsWrittenThrowsStep4(e2, e3, e5, e6);
    InsertAllStep(Node(Leaf(e3), e5, 2, Node(Nil, e6, 1, Nil)), [e2, e4, e1, e6, e4, e2], AsWritten, Node(Node(Leaf(e2), e3, 1, Nil), e5, 2, Node(Nil, e6, 1, Nil)));
    assert [e2, e4, e1, e6, e4, e2][1..] == [e4, e1, e6, e4, e2];
    AsWrittenThrowsStep5(e2, e3, e4, e5, e6);
    InsertAllStep(Node(Node(Leaf(e2), e3, 1, Nil), e5, 2, Node(Nil, e6, 1, Nil)), [e4, e1, e6, e4, e2], AsWritten, Node(Node(Leaf(e2), e3, 1, Leaf(e4)), e5, 2, Node(Nil, e6, 1, Nil)));
    assert [e4, e1, e6, e4, e2][1..] == [e1, e6, e4, e2];
    AsWrittenThrowsStep6(e1, e2, e3, e4, e5, e6);
    InsertAllStep(Node(Node(Leaf(e2), e3, 1, Leaf(e4)), e5, 2, Node(Nil, e6, 1, Nil)), [e1, e6, e4, e2], AsWritten, Node(Node(Node(Leaf(e1), e2, 1, Nil), e3, 2, Leaf(e4)), e5, 3, Node(Nil, e6, 1, Nil)));
    assert [e1, e6, e4, e2][1..] == [e6, e4, e2];
    AsWrittenThrowsStep7(e1, e2, e3, e4, e5, e6);
    InsertAllStep(Node(Node(Node(Leaf(e1), e2, 1, Nil), e3, 2, Leaf(e4)), e5, 3, Node(Nil, e6, 1, Nil)), [e6, e4, e2], AsWritten, Node(Node(Node(Leaf(e1), e2, 1, Nil), e3, 2, Leaf(e4)), e5, 3, Leaf(e6)));
    assert [e6, e4, e2][1..] == [e4, e2];
    AsWrittenThrowsStep8(e1, e2, e3, e4, e5, e6);
    InsertAllStep(Node(Node(Node(Leaf(e1), e2, 1, Nil), e3, 2, Leaf(e4)), e5, 3, Leaf(e6)), [e4, e2], AsWritten, Node(Node(Node(Leaf(e1), e2, 1, Nil), e3, 2, Nil), e4, 3, Node(Nil, e5, 1, Leaf(e6))));
    assert [e4, e2][1..] == [e2];
    AsWrittenThrowsStep9(e1, e2, e3, e4, e5, e6);
    InsertAllThrows(Node(Node(Node(Leaf(e1), e2, 1, Nil), e3, 2, Nil), e4, 3, Node(Nil, e5, 1, Leaf(e6))), [e2], AsWritten);
  }

  /** Step 2 of `AsWrittenThrows`: inserting begin 6. */
  lemma AsWrittenThrowsStep2(e3: Entry, e6: Entry)
    requires Key(e3) == 3 && Key(e6) == 6
    ensures Insert(Leaf(e6), Leaf(e3), AsWritten) == Returns(Node(Nil, e3, 1, Leaf(e6)))
  {
    InsertGoesRight(e6, Leaf(e3), AsWritten, Leaf(e6));
    assert BalanceRight(e6, Node(Nil, e3, 0, Leaf(e6)), AsWritten) == Returns(Node(Nil, e3, 1, Leaf(e6)));
  }

  /** Step 3 of `AsWrittenThrows`: inserting begin 5. */
  lemma AsWrittenThrowsStep3(e3: Entry, e5: Entry, e6: Entry)
    requires Key(e3) == 3 && Key(e5) == 5 && Key(e6) == 6
    ensures Insert(Leaf(e5), Node(Nil, e3, 1, Leaf(e6)), AsWritten) == Returns(Node(Leaf(e3), e5, 2, Node(Nil, e6, 1, Nil)))
  {
    InsertGoesLeft(e5, Leaf(e6), AsWritten, Leaf(e5));
    assert BalanceLeft(e5, Node(Leaf(e5), e6, 0, Nil)) == Returns(Node(Leaf(e5), e6, 1, Nil));
    InsertGoesRight(e5, Node(Nil, e3, 1, Leaf(e6)), AsWritten, Node(Leaf(e5), e6, 1, Nil));
    assert BalanceRight(e5, Node(Nil, e3, 1, Node(Leaf(e5), e6, 1, Nil)), AsWritten) == Returns(Node(Leaf(e3), e5, 2, Node(Nil, e6, 1, Nil)));
  }

  /** Step 4 of `AsWrittenThrows`: inserting begin 2. */
  lemma AsWrittenThrowsStep4(e2: Entry, e3: Entry, e5: Entry, e6: Entry)
    requires Key(e2) == 2 && Key(e3) == 3 && Key(e5) == 5 && Key(e6) == 6
    ensures Insert(Leaf(e2), Node(Leaf(e3), e5, 2, Node(Nil, e6, 1, Nil)), AsWritten) == Returns(Node(Node(Leaf(e2), e3, 1, Nil), e5, 2, Node(Nil, e6, 1, Nil)))
  {
    InsertGoesLeft(e2, Leaf(e3), AsWritten, Leaf(e2));
    assert BalanceLeft(e2, Node(Leaf(e2), e3, 0, Nil)) == Returns(Node(Leaf(e2), e3, 1, Nil));
    InsertGoesLeft(e2, Node(Leaf(e3), e5, 2, Node(Nil, e6, 1, Nil)), AsWritten, Node(Leaf(e2), e3, 1, Nil));
    assert BalanceLeft(e2, Node(Node(Leaf(e2), e3, 1, Nil), e5, 2, Node(Nil, e6, 1, Nil))) == Returns(Node(Node(Leaf(e2), e3, 1, Nil), e5, 2, Node(Nil, e6, 1, Nil)));
  }

  /** Step 5 of `AsWrittenThrows`: inserting begin 4. */
  lemma AsWrittenThrowsStep5(e2: Entry, e3: Entry, e4: Entry, e5: Entry, e6: Entry)
    requires Key(e2) == 2 && Key(e3) == 3 && Key(e4) == 4 && Key(e5) == 5 && Key(e6) == 6
    ensures Insert(Leaf(e4), Node(Node(Leaf(e2), e3, 1, Nil), e5, 2, Node(Nil, e6, 1, Nil)), AsWritten) == Returns(Node(Node(Leaf(e2), e3, 1, Leaf(e4)), e5, 2, Node(Nil, e6, 1, Nil)))
  {
    InsertGoesRight(e4, Node(Leaf(e2), e3, 1, Nil), AsWritten, Leaf(e4));
    assert BalanceRight(e4, Node(Leaf(e2), e3, 1, Leaf(e4)), AsWritten) == Returns(Node(Leaf(e2), e3, 1, Leaf(e4)));
    InsertGoesLeft(e4, Node(Node(Leaf(e2), e3, 1, Nil), e5, 2, Node(Nil, e6, 1, Nil)), AsWritten, Node(Leaf(e2), e3, 1, Leaf(e4)));
    assert BalanceLeft(e4, Node(Node(Leaf(e2), e3, 1, Leaf(e4)), e5, 2, Node(Nil, e6, 1, Nil))) == Returns(Node(Node(Leaf(e2), e3, 1, Leaf(e4)), e5, 2, Node(Nil, e6, 1, Nil)));
  }

  /** Step 6 of `AsWrittenThrows`: inserting begin 1. */
  lemma AsWrittenThrowsStep6(e1: Entry, e2: Entry, e3: Entry, e4: Entry, e5: Entry, e6: Entry)
    requires Key(e1) == 1 && Key(e2) == 2 && Key(e3) == 3 && Key(e4) == 4 && Key(e5) == 5 && Key(e6) == 6
    ensures Insert(Leaf(e1), Node(Node(Leaf(e2), e3, 1, Leaf(e4)), e5, 2, Node(Nil, e6, 1, Nil)), AsWritten) == Returns(Node(Node(Node(Leaf(e1), e2, 1, Nil), e3, 2, Leaf(e4)), e5, 3, Node(Nil, e6, 1, Nil)))
  {
    InsertGoesLeft(e1, Leaf(e2), AsWritten, Leaf(e1));
    assert BalanceLeft(e1, Node(Leaf(e1), e2, 0, Nil)) == Returns(Node(Leaf(e1), e2, 1, Nil));
    InsertGoesLeft(e1, Node(Leaf(e2), e3, 1, Leaf(e4)), AsWritten, Node(Leaf(e1), e2, 1, Nil));
    assert BalanceLeft(e1, Node(Node(Leaf(e1), e2, 1, Nil), e3, 1, Leaf(e4))) == Returns(Node(Node(Leaf(e1), e2, 1, Nil), e3, 2, Leaf(e4)));
    InsertGoesLeft(e1, Node(Node(Leaf(e2), e3, 1, Leaf(e4)), e5, 2, Node(Nil, e6, 1, Nil)), AsWritten, Node(Node(Leaf(e1), e2, 1, Nil), e3, 2, Leaf(e4)));
    assert BalanceLeft(e1, Node(Node(Node(Leaf(e1), e2, 1, Nil), e3, 2, Leaf(e4)), e5, 2, Node(Nil, e6, 1, Nil))) == Returns(Node(Node(Node(Leaf(e1), e2, 1, Nil), e3, 2, Leaf(e4)), e5, 3, Node(Nil, e6, 1, Nil)));
  }

  /** Step 7 of `AsWrittenThrows`: inserting begin 6. */
  lemma AsWrittenThrowsStep7(e1: Entry, e2: Entry, e3: Entry, e4: Entry, e5: Entry, e6: Entry)
    requires Key(e1) == 1 && Key(e2) == 2 && Key(e3) == 3 && Key(e4) == 4 && Key(e5) == 5 && Key(e6) == 6
    ensures Insert(Leaf(e6), Node(Node(Node(Leaf(e1), e2, 1, Nil), e3, 2, Leaf(e4)), e5, 3, Node(Nil, e6, 1, Nil)), AsWritten) == Returns(Node(Node(Node(Leaf(e1), e2, 1, Nil), e3, 2, Leaf(e4)), e5, 3, Leaf(e6)))
  {
    InsertStops(e6, Node(Nil, e6, 1, Nil), AsWritten);
    InsertGoesRight(e6, Node(Node(Node(Leaf(e1), e2, 1, Nil), e3, 2, Leaf(e4)), e5, 3, Node(Nil, e6, 1, Nil)), AsWritten, Leaf(e6));
    assert BalanceRight(e6, Node(Node(Node(Leaf(e1), e2, 1, Nil), e3, 2, Leaf(e4)), e5, 3, Leaf(e6)), AsWritten) == Returns(Node(Node(Node(Leaf(e1), e2, 1, Nil), e3, 2, Leaf(e4)), e5, 3, Leaf(e6)));
  }

  /** Step 8 of `AsWrittenThrows`: inserting begin 4. */
  lemma AsWrittenThrowsStep8(e1: Entry, e2: Entry, e3: Entry, e4: Entry, e5: Entry, e6: Entry)
    requires Key(e1) == 1 && Key(e2) == 2 && Key(e3) == 3 && Key(e4) == 4 && Key(e5) == 5 && Key(e6) == 6
    ensures Insert(Leaf(e4), Node(Node(Node(Leaf(e1), e2, 1, Nil), e3, 2, Leaf(e4)), e5, 3, Leaf(e6)), AsWritten) == Returns(Node(Node(Node(Leaf(e1), e2, 1, Nil), e3, 2, Nil), e4, 3, Node(Nil, e5, 1, Leaf(e6))))
  {
    InsertStops(e4, Leaf(e4), AsWritten);
    InsertGoesRight(e4, Node(Node(Leaf(e1), e2, 1, Nil), e3, 2, Leaf(e4)), AsWritten, Leaf(e4));
    assert BalanceRight(e4, Node(Node(Leaf(e1), e2, 1, Nil), e3, 2, Leaf(e4)), AsWritten) == Returns(Node(Node(Leaf(e1), e2, 1, Nil), e3, 2, Leaf(e4)));
    InsertGoesLeft(e4, Node(Node(Node(Leaf(e1), e2, 1, Nil), e3, 2, Leaf(e4)), e5, 3, Leaf(e6)), AsWritten, Node(Node(Leaf(e1), e2, 1, Nil), e3, 2, Leaf(e4)));
    assert BalanceLeft(e4, Node(Node(Node(Leaf(e1), e2, 1, Nil), e3, 2, Leaf(e4)), e5, 3, Leaf(e6))) == Returns(Node(Node(Node(Leaf(e1), e2, 1, Nil), e3, 2, Nil), e4, 3, Node(Nil, e5, 1, Leaf(e6))));
  }

  /** Step 9 of `AsWrittenThrows`: inserting begin 2. */
  lemma AsWrittenThrowsStep9(e1: Entry, e2: Entry, e3: Entry, e4: Entry, e5: Entry, e6: Entry)
    requires Key(e1) == 1 && Key(e2) == 2 && Key(e3) == 3 && Key(e4) == 4 && Key(e5) == 5 && Key(e6) == 6
    ensures Insert(Leaf(e2), Node(Node(Node(Leaf(e1), e2, 1, Nil), e3, 2, Nil), e4, 3, Node(Nil, e5, 1, Leaf(e6))), AsWritten) == NullPointerException
  {
    InsertStops(e2, Node(Leaf(e1), e2, 1, Nil), AsWritten);
    InsertGoesLeft(e2, Node(Node(Leaf(e1), e2, 1, Nil), e3, 2, Nil), AsWritten, Node(Leaf(e1), e2, 1, Nil));
    assert BalanceLeft(e2, Node(Node(Leaf(e1), e2, 1, Nil), e3, 2, Nil)) == NullPointerException;
    InsertThrowsLeft(e2, Node(Node(Node(Leaf(e1), e2, 1, Nil), e3, 2, Nil), e4, 3, Node(Nil, e5, 1, Leaf(e6))), AsWritten);
  }
}
