/**
 * Concrete insertion sequences, evaluated on the model. They pin down the
 * working single rotations and exhibit the three places where the insertion
 * departs from the textbook algorithm.
 */
module Traces {
  import opened Nodes
  import opened TreeSpec
  import opened Rebalancing
  import opened Queries
  import opened Insertion
  import opened AvlTree

  /** A sequence starting with a successful insertion continues from the
      tree that insertion produced. */
  lemma InsertThen(t: Tree, k: int, ks: seq<int>, u: Tree, s: Status)
    requires InsertAt(t, k) == Ok((u, s)) && s != Failure
    ensures InsertAll(t, [k] + ks) == InsertAll(u, ks)
  {
    assert ([k] + ks)[0] == k && ([k] + ks)[1..] == ks;
  }

  /** 10, 20, 30: one left rotation at 10 gives root 20 over 10 and 30, all
      factors 0. */
  lemma AscendingKeysRotateLeft()
    ensures InsertAll(EmptyTree(), [10, 20, 30]) == Ok(Node(20, 0, NewNode(10), NewNode(30)))
  {
    var t2 := Node(10, 1, Leaf, NewNode(20));
    InsertThen(EmptyTree(), 10, [20, 30], NewNode(10), ChangedHeight);
    InsertThen(NewNode(10), 20, [30], t2, ChangedHeight);
    InsertThen(t2, 30, [], Node(20, 0, NewNode(10), NewNode(30)), MaintainedHeight);
  }

  /** 20, 10, 5: one right rotation at 20 gives root 10 over 5 and 20. */
  lemma DescendingKeysRotateRight()
    ensures InsertAll(EmptyTree(), [20, 10, 5]) == Ok(Node(10, 0, NewNode(5), NewNode(20)))
  {
    var t2 := Node(20, -1, NewNode(10), Leaf);
    InsertThen(EmptyTree(), 20, [10, 5], NewNode(20), ChangedHeight);
    InsertThen(NewNode(20), 10, [5], t2, ChangedHeight);
    InsertThen(t2, 5, [], Node(10, 0, NewNode(5), NewNode(20)), MaintainedHeight);
  }

  /** 30, 10, 20: the left-right double rotation fires at 30 and leaves the
      cycle 10 -> 30 -> 20 -> 10, all three factors 0. */
  lemma LeftRightDoubleRotationCorrupts()
    ensures InsertAll(EmptyTree(), [30, 10, 20])
            == Corrupt(Cycle(CycleNode(10, 0), CycleNode(30, 0), CycleNode(20, 0)))
  {
    var t2 := Node(30, -1, NewNode(10), Leaf);
    InsertThen(EmptyTree(), 30, [10, 20], NewNode(30), ChangedHeight);
    InsertThen(NewNode(30), 10, [20], t2, ChangedHeight);
    assert InsertAt(NewNode(10), 20) == Ok((Node(10, 1, Leaf, NewNode(20)), ChangedHeight));
    assert InsertAt(t2, 20) == Corrupt(Cycle(CycleNode(10, 0), CycleNode(30, 0), CycleNode(20, 0)));
    assert [20][0] == 20;
  }

  /** 10, 30, 20: the mirror-image right-left double rotation corrupts too. */
  lemma RightLeftDoubleRotationCorrupts()
    ensures InsertAll(EmptyTree(), [10, 30, 20])
            == Corrupt(Cycle(CycleNode(30, 0), CycleNode(10, 0), CycleNode(20, 0)))
  {
    var t2 := Node(10, 1, Leaf, NewNode(30));
    InsertThen(EmptyTree(), 10, [30, 20], NewNode(10), ChangedHeight);
    InsertThen(NewNode(10), 30, [20], t2, ChangedHeight);
    assert InsertAt(NewNode(30), 20) == Ok((Node(30, -1, NewNode(20), Leaf), ChangedHeight));
    assert InsertAt(t2, 20) == Corrupt(Cycle(CycleNode(30, 0), CycleNode(10, 0), CycleNode(20, 0)));
    assert [20][0] == 20;
  }

  /** Inserting 30 beside 10 under 20 returns the root's factor to 0 and does
      not change the subtree's height, yet reports `ChangedHeight`. */
  lemma BalancedInsertStillReportsChange()
    ensures var before := Node(20, -1, NewNode(10), Leaf);
            var after := Node(20, 0, NewNode(10), NewNode(30));
            && InsertAt(before, 30) == Ok((after, ChangedHeight))
            && Height(after) == Height(before)
  {
  }

  /** Inserting 15 under 10 returns 10's factor to 0 but the report stays
      `ChangedHeight`, so the root's factor reaches -2; the left rebalancer
      finds a pivot factor of 0, changes nothing, and the insertion reports
      `MaintainedHeight`. */
  lemma PivotFactorZeroFallsThrough()
    ensures var before := Node(20, -1, Node(10, -1, NewNode(5), Leaf), NewNode(30));
            && BalanceLeftHeavy(DriftedTree()) == Ok(DriftedTree())
            && InsertAt(before, 15) == Ok((DriftedTree(), MaintainedHeight))
  {
    assert InsertAt(Node(10, -1, NewNode(5), Leaf), 15)
           == Ok((Node(10, 0, NewNode(5), NewNode(15)), ChangedHeight));
  }

  /** The tree the sequence 20, 10, 30, 5, 15 ends in. */
  function DriftedTree(): Tree
  {
    Node(20, -2, Node(10, 0, NewNode(5), NewNode(15)), NewNode(30))
  }

  /** 20, 10, 30, 5, 15, followed by anything: no rotation happens, yet the
      over-propagated signal leaves the root with factor -2 before the rest
      is inserted. */
  lemma DriftPrefix(rest: seq<int>)
    ensures InsertAll(EmptyTree(), [20, 10, 30, 5, 15] + rest) == InsertAll(DriftedTree(), rest)
  {
    var t2 := Node(20, -1, NewNode(10), Leaf);
    var t3 := Node(20, 0, NewNode(10), NewNode(30));
    var t4 := Node(20, -1, Node(10, -1, NewNode(5), Leaf), NewNode(30));
    assert [20, 10, 30, 5, 15] + rest == [20] + ([10, 30, 5, 15] + rest);
    assert [10, 30, 5, 15] + rest == [10] + ([30, 5, 15] + rest);
    assert [30, 5, 15] + rest == [30] + ([5, 15] + rest);
    assert [5, 15] + rest == [5] + ([15] + rest);
    InsertThen(EmptyTree(), 20, [10, 30, 5, 15] + rest, NewNode(20), ChangedHeight);
    InsertThen(NewNode(20), 10, [30, 5, 15] + rest, t2, ChangedHeight);
    InsertThen(t2, 30, [5, 15] + rest, t3, ChangedHeight);
    assert InsertAt(NewNode(10), 5) == Ok((Node(10, -1, NewNode(5), Leaf), ChangedHeight));
    InsertThen(t3, 5, [15] + rest, t4, ChangedHeight);
    PivotFactorZeroFallsThrough();
    InsertThen(t4, 15, rest, DriftedTree(), MaintainedHeight);
  }

  /** 20, 10, 30, 5, 15 ends in the drifted tree. */
  lemma DriftTrace()
    ensures InsertAll(EmptyTree(), [20, 10, 30, 5, 15]) == Ok(DriftedTree())
  {
    DriftPrefix([]);
    assert [20, 10, 30, 5, 15] + [] == [20, 10, 30, 5, 15];
  }

  /** In the drifted tree the root's true height difference is -1 while its
      stored factor is -2: stored factors no longer equal height differences,
      refuting the struct comment, although the heights themselves are still
      balanced. */
  lemma FactorsDriftFromHeights()
    ensures TrueFactor(DriftedTree()) == -1 && !FactorsExact(DriftedTree())
    ensures !FactorsInRange(DriftedTree()) && IsBST(DriftedTree()) && HeightBalanced(DriftedTree())
  {
  }

  /** The tree the sequence 20, 10, 30, 5, 15, 3 ends in. */
  function ImbalancedTree(): Tree
  {
    Node(20, -3, Node(10, -1, Node(5, -1, NewNode(3), Leaf), NewNode(15)), NewNode(30))
  }

  /** Adding 3 to the drifted tree pushes the root's factor to -3, which is
      not -2, so no rebalancer runs. */
  lemma ImbalanceTrace()
    ensures InsertAll(EmptyTree(), [20, 10, 30, 5, 15, 3]) == Ok(ImbalancedTree())
  {
    DriftPrefix([3]);
    assert [20, 10, 30, 5, 15] + [3] == [20, 10, 30, 5, 15, 3];
    ThreeUnderDriftedTree();
    InsertThen(DriftedTree(), 3, [], ImbalancedTree(), ChangedHeight);
    assert [3] + [] == [3];
  }

  /** 3 descends through 20, 10 and 5; each factor moves by -1 and every
      level reports `ChangedHeight`. */
  lemma ThreeUnderDriftedTree()
    ensures InsertAt(DriftedTree(), 3) == Ok((ImbalancedTree(), ChangedHeight))
  {
    assert InsertAt(NewNode(5), 3) == Ok((Node(5, -1, NewNode(3), Leaf), ChangedHeight));
    assert InsertAt(Node(10, 0, NewNode(5), NewNode(15)), 3)
           == Ok((Node(10, -1, Node(5, -1, NewNode(3), Leaf), NewNode(15)), ChangedHeight));
  }

  /** In that tree the root's children differ in height by 2: the class
      comment's balance claim fails while search order still holds. */
  lemma DriftLeadsToImbalance()
    ensures TrueFactor(ImbalancedTree()) == -2 && !HeightBalanced(ImbalancedTree())
    ensures IsBST(ImbalancedTree())
  {
  }

  /** The tree the sequence 20, 10, 30, 5, 15, 3, 12, 7, 17, 4 ends in. */
  function FarDriftedTree(): Tree
  {
    Node(20, -7,
         Node(10, -1, Node(5, -1, Node(3, 1, Leaf, NewNode(4)), NewNode(7)),
              Node(15, 0, NewNode(12), NewNode(17))),
         NewNode(30))
  }

  /** Continuing from the tree of `ImbalanceTrace`: 12, 7, 17 and 4 each
      report `ChangedHeight` all the way up, no node on their paths hits
      exactly -2 or +2, and each moves the root's factor one more step,
      leaving it at -7. */
  lemma FurtherDriftTrace()
    ensures InsertAll(EmptyTree(), [20, 10, 30, 5, 15, 3] + [12, 7, 17, 4]) == Ok(FarDriftedTree())
  {
    ImbalancePrefix([12, 7, 17, 4]);
    FurtherDriftSuffix();
  }

  /** 20, 10, 30, 5, 15, 3, followed by anything, passes through the tree of
      `ImbalanceTrace`. */
  lemma ImbalancePrefix(rest: seq<int>)
    ensures InsertAll(EmptyTree(), [20, 10, 30, 5, 15, 3] + rest) == InsertAll(ImbalancedTree(), rest)
  {
    DriftPrefix([3] + rest);
    assert [20, 10, 30, 5, 15] + ([3] + rest) == [20, 10, 30, 5, 15, 3] + rest;
    ThreeUnderDriftedTree();
    InsertThen(DriftedTree(), 3, rest, ImbalancedTree(), ChangedHeight);
  }

  /** 12, 7, 17, 4 inserted into the tree of `ImbalanceTrace`. */
  lemma FurtherDriftSuffix()
    ensures InsertAll(ImbalancedTree(), [12, 7, 17, 4]) == Ok(FarDriftedTree())
  {
    var t7 := Node(20, -4, Node(10, 0, Node(5, -1, NewNode(3), Leaf), Node(15, -1, NewNode(12), Leaf)),
                   NewNode(30));
    var t8 := Node(20, -5, Node(10, -1, Node(5, 0, NewNode(3), NewNode(7)), Node(15, -1, NewNode(12), Leaf)),
                   NewNode(30));
    var t9 := Node(20, -6, Node(10, 0, Node(5, 0, NewNode(3), NewNode(7)), Node(15, 0, NewNode(12), NewNode(17))),
                   NewNode(30));
    assert [12, 7, 17, 4] == [12] + [7, 17, 4];
    assert [7, 17, 4] == [7] + [17, 4];
    assert [17, 4] == [17] + [4];
    assert [4] == [4] + [];
    TwelveUnderImbalancedTree();
    InsertThen(ImbalancedTree(), 12, [7, 17, 4], t7, ChangedHeight);
    SevenStep();
    InsertThen(t7, 7, [17, 4], t8, ChangedHeight);
    SeventeenStep();
    InsertThen(t8, 17, [4], t9, ChangedHeight);
    FourStep();
    InsertThen(t9, 4, [], FarDriftedTree(), ChangedHeight);
  }

  /** 12 descends through 20, 10 and 15; 10's factor returns to 0, the
      report stays `ChangedHeight` and the root reaches -4. */
  lemma TwelveUnderImbalancedTree()
    ensures InsertAt(ImbalancedTree(), 12)
            == Ok((Node(20, -4, Node(10, 0, Node(5, -1, NewNode(3), Leaf), Node(15, -1, NewNode(12), Leaf)),
                        NewNode(30)), ChangedHeight))
  {
    assert InsertAt(NewNode(15), 12) == Ok((Node(15, -1, NewNode(12), Leaf), ChangedHeight));
    assert InsertAt(Node(10, -1, Node(5, -1, NewNode(3), Leaf), NewNode(15)), 12)
           == Ok((Node(10, 0, Node(5, -1, NewNode(3), Leaf), Node(15, -1, NewNode(12), Leaf)), ChangedHeight));
  }

  /** 7 descends through 20, 10 and 5; the root reaches -5. */
  lemma SevenStep()
    ensures InsertAt(Node(20, -4, Node(10, 0, Node(5, -1, NewNode(3), Leaf), Node(15, -1, NewNode(12), Leaf)),
                          NewNode(30)), 7)
            == Ok((Node(20, -5, Node(10, -1, Node(5, 0, NewNode(3), NewNode(7)), Node(15, -1, NewNode(12), Leaf)),
                        NewNode(30)), ChangedHeight))
  {
    assert InsertAt(Node(5, -1, NewNode(3), Leaf), 7) == Ok((Node(5, 0, NewNode(3), NewNode(7)), ChangedHeight));
    assert InsertAt(Node(10, 0, Node(5, -1, NewNode(3), Leaf), Node(15, -1, NewNode(12), Leaf)), 7)
           == Ok((Node(10, -1, Node(5, 0, NewNode(3), NewNode(7)), Node(15, -1, NewNode(12), Leaf)), ChangedHeight));
  }

  /** 17 descends through 20, 10 and 15; the root reaches -6. */
  lemma SeventeenStep()
    ensures InsertAt(Node(20, -5, Node(10, -1, Node(5, 0, NewNode(3), NewNode(7)), Node(15, -1, NewNode(12), Leaf)),
                          NewNode(30)), 17)
            == Ok((Node(20, -6, Node(10, 0, Node(5, 0, NewNode(3), NewNode(7)), Node(15, 0, NewNode(12), NewNode(17))),
                        NewNode(30)), ChangedHeight))
  {
    assert InsertAt(Node(15, -1, NewNode(12), Leaf), 17) == Ok((Node(15, 0, NewNode(12), NewNode(17)), ChangedHeight));
    assert InsertAt(Node(10, -1, Node(5, 0, NewNode(3), NewNode(7)), Node(15, -1, NewNode(12), Leaf)), 17)
           == Ok((Node(10, 0, Node(5, 0, NewNode(3), NewNode(7)), Node(15, 0, NewNode(12), NewNode(17))), ChangedHeight));
  }

  /** 4 descends through 20, 10, 5 and 3; the root reaches -7. */
  lemma FourStep()
    ensures InsertAt(Node(20, -6, Node(10, 0, Node(5, 0, NewNode(3), NewNode(7)), Node(15, 0, NewNode(12), NewNode(17))),
                          NewNode(30)), 4)
            == Ok((FarDriftedTree(), ChangedHeight))
  {
    assert InsertAt(NewNode(3), 4) == Ok((Node(3, 1, Leaf, NewNode(4)), ChangedHeight));
    assert InsertAt(Node(5, 0, NewNode(3), NewNode(7)), 4)
           == Ok((Node(5, -1, Node(3, 1, Leaf, NewNode(4)), NewNode(7)), ChangedHeight));
    assert InsertAt(Node(10, 0, Node(5, 0, NewNode(3), NewNode(7)), Node(15, 0, NewNode(12), NewNode(17))), 4)
           == Ok((Node(10, -1, Node(5, -1, Node(3, 1, Leaf, NewNode(4)), NewNode(7)),
                       Node(15, 0, NewNode(12), NewNode(17))), ChangedHeight));
  }

  /** In that tree the root stores -7 while its true factor is -3: the
      stored factor keeps moving away from the heights. */
  lemma FarDriftFromHeights()
    ensures FarDriftedTree().bf == -7 && TrueFactor(FarDriftedTree()) == -3
    ensures IsBST(FarDriftedTree()) && !HeightBalanced(FarDriftedTree())
  {
  }

  /** 10, 20: the maximum is 20, the minimum 10, and the next key above 10
      is 20. */
  lemma MinMaxAndNextHigher()
    ensures var t := Node(10, 1, Leaf, NewNode(20));
            && InsertAll(EmptyTree(), [10, 20]) == Ok(t)
            && GetMax(t) == 20 && GetMin(t) == 10 && GetNextHigher(t, 10) == 20
  {
    InsertThen(EmptyTree(), 10, [20], NewNode(10), ChangedHeight);
    InsertThen(NewNode(10), 20, [], Node(10, 1, Leaf, NewNode(20)), ChangedHeight);
  }

  /** A found key without a right child gets itself back from
      `get_next_higher`, even when a larger key sits above it. */
  lemma NextHigherIgnoresAncestors()
    ensures var t := Node(20, 0, NewNode(10), NewNode(30));
            && GetNextHigher(t, 10) == 10 && IsSuccessor(Keys(t), 10, 20)
  {
  }
}
