/**
 * `balance_left_heavy` and `balance_right_heavy`: the repairs run on a node
 * whose factor reached -2 or +2 during insertion.
 *
 * The single-rotation branches are modelled exactly. The double-rotation
 * branches update factors by their switch tables and then rotate a local
 * copy of the pivot pointer, store it into the node's OPPOSITE child slot
 * (the right slot in `balance_left_heavy`, AVL_Tree/avl_trees.cpp:88; the
 * left slot in `balance_right_heavy`, AVL_Tree/avl_trees.cpp:139) and
 * rotate the node: the node's original child link is never updated, its
 * other subtree is dropped, and the three nodes end up linked in a cycle.
 * No tree value describes that graph, so these branches return `Corrupt`.
 * When the pivot's factor is exactly 0 neither branch runs and the subtree is
 * returned unchanged, still carrying its factor of -2 or +2.
 */
module Rebalancing {
  import opened Nodes
  import opened TreeSpec
  import opened Rotations

  /** The switch on the secondary pivot's factor in `balance_left_heavy`:
      the new (node, pivot) factors. A value outside -1..1 matches no case and
      leaves both factors as they were. */
  function LeftRightFactors(secondaryBf: int, nodeBf: int, pivotBf: int): (int, int)
  {
    match secondaryBf
    case -1 => (1, 0)
    case 0 => (0, 0)
    case 1 => (0, -1)
    case _ => (nodeBf, pivotBf)
  }

  /** The switch on the secondary pivot's factor in `balance_right_heavy`,
      as written (its +1 row is not the mirror image of the left table). */
  function RightLeftFactors(secondaryBf: int, nodeBf: int, pivotBf: int): (int, int)
  {
    match secondaryBf
    case -1 => (0, 1)
    case 0 => (0, 0)
    case 1 => (0, -1)
    case _ => (nodeBf, pivotBf)
  }

  /** Repair of a left-heavy node. The source dereferences the node and its
      left child (the pivot) unconditionally; insertion only calls it on a
      node whose left child it has just inserted into. */
  function BalanceLeftHeavy(t: Tree): (r: Outcome<Tree>)
    requires t.Node? && t.left.Node?
    ensures t.left.bf < 0 ==>
              && r.Ok? && r.value.Node?
              && r.value.data == t.left.data && r.value.bf == 0
              && r.value.left == t.left.left
              && r.value.right == Node(t.data, 0, t.left.right, t.right)
    ensures t.left.bf == 0 ==> r == Ok(t)
    ensures t.left.bf > 0 && t.left.right.Leaf? ==>
              r == Corrupt(NullSecondary(t.data, t.left.data))
    ensures t.left.bf > 0 && t.left.right.Node? ==>
              var (nodeBf, pivotBf) := LeftRightFactors(t.left.right.bf, t.bf, t.left.bf);
              r == Corrupt(Cycle(CycleNode(t.left.data, pivotBf), CycleNode(t.data, nodeBf),
                                 CycleNode(t.left.right.data, 0)))
    ensures r.Ok? ==> r.value.Node? && InOrder(r.value) == InOrder(t) && Keys(r.value) == Keys(t)
    ensures r.Ok? ==> (IsBST(r.value) <==> IsBST(t))
  {
    var pivot := t.left;
    if pivot.bf < 0 then
      var zeroed := Node(t.data, 0, pivot.(bf := 0), t.right);
      BstIffSorted(t);
      BstIffSorted(zeroed);
      Ok(RotateRight(zeroed))
    else if pivot.bf > 0 then
      var secondary := pivot.right;
      if secondary.Leaf? then
        Corrupt(NullSecondary(t.data, pivot.data))
      else
        var (nodeBf, pivotBf) := LeftRightFactors(secondary.bf, t.bf, pivot.bf);
        Corrupt(Cycle(CycleNode(pivot.data, pivotBf), CycleNode(t.data, nodeBf),
                      CycleNode(secondary.data, 0)))
    else
      Ok(t)
  }

  /** Repair of a right-heavy node: the mirror image of `BalanceLeftHeavy`,
      with its own factor table. */
  function BalanceRightHeavy(t: Tree): (r: Outcome<Tree>)
    requires t.Node? && t.right.Node?
    ensures t.right.bf > 0 ==>
              && r.Ok? && r.value.Node?
              && r.value.data == t.right.data && r.value.bf == 0
              && r.value.right == t.right.right
              && r.value.left == Node(t.data, 0, t.left, t.right.left)
    ensures t.right.bf == 0 ==> r == Ok(t)
    ensures t.right.bf < 0 && t.right.left.Leaf? ==>
              r == Corrupt(NullSecondary(t.data, t.right.data))
    ensures t.right.bf < 0 && t.right.left.Node? ==>
              var (nodeBf, pivotBf) := RightLeftFactors(t.right.left.bf, t.bf, t.right.bf);
              r == Corrupt(Cycle(CycleNode(t.right.data, pivotBf), CycleNode(t.data, nodeBf),
                                 CycleNode(t.right.left.data, 0)))
    ensures r.Ok? ==> r.value.Node? && InOrder(r.value) == InOrder(t) && Keys(r.value) == Keys(t)
    ensures r.Ok? ==> (IsBST(r.value) <==> IsBST(t))
  {
    var pivot := t.right;
    if pivot.bf > 0 then
      var zeroed := Node(t.data, 0, t.left, pivot.(bf := 0));
      BstIffSorted(t);
      BstIffSorted(zeroed);
      Ok(RotateLeft(zeroed))
    else if pivot.bf < 0 then
      var secondary := pivot.left;
      if secondary.Leaf? then
        Corrupt(NullSecondary(t.data, pivot.data))
      else
        var (nodeBf, pivotBf) := RightLeftFactors(secondary.bf, t.bf, pivot.bf);
        Corrupt(Cycle(CycleNode(pivot.data, pivotBf), CycleNode(t.data, nodeBf),
                      CycleNode(secondary.data, 0)))
    else
      Ok(t)
  }

  /** Textbook justification of the single right rotation: on a subtree whose
      factors are exact, with the node at -2 and the pivot at -1, the repaired
      subtree again has exact factors and is one level lower, which is why the
      caller may report its height as maintained. */
  lemma SingleRightRotationRestoresBalance(t: Tree)
    requires t.Node? && t.left.Node? && FactorsExact(t)
    requires t.bf == -2 && t.left.bf == -1
    ensures BalanceLeftHeavy(t).Ok?
    ensures FactorsExact(BalanceLeftHeavy(t).value)
    ensures Height(BalanceLeftHeavy(t).value) == Height(t) - 1
  {
  }

  /** Mirror image of `SingleRightRotationRestoresBalance`. */
  lemma SingleLeftRotationRestoresBalance(t: Tree)
    requires t.Node? && t.right.Node? && FactorsExact(t)
    requires t.bf == 2 && t.right.bf == 1
    ensures BalanceRightHeavy(t).Ok?
    ensures FactorsExact(BalanceRightHeavy(t).value)
    ensures Height(BalanceRightHeavy(t).value) == Height(t) - 1
  {
  }

  /** Reference for the left table: on a subtree with exact factors, node at
      -2, pivot at +1 and secondary in -1..1, relinking correctly (rotate the
      pivot left, store it back in the node's LEFT slot, rotate the node
      right) yields true factors equal to the table's entries, and 0 at the
      secondary pivot, now the root. */
  lemma LeftRightTableMatchesHeights(t: Tree)
    requires t.Node? && t.left.Node? && t.left.right.Node? && FactorsExact(t)
    requires t.bf == -2 && t.left.bf == 1 && -1 <= t.left.right.bf <= 1
    ensures var fixedUp := RotateRight(t.(left := RotateLeft(t.left)));
            var table := LeftRightFactors(t.left.right.bf, t.bf, t.left.bf);
            && fixedUp.Node? && fixedUp.data == t.left.right.data
            && TrueFactor(fixedUp) == 0
            && TrueFactor(fixedUp.right) == table.0
            && TrueFactor(fixedUp.left) == table.1
  {
    var Node(d, _, pivot, c) := t;
    var Node(pd, _, a, secondary) := pivot;
    var Node(sd, s, b1, b2) := secondary;
    var hc := Height(c);
    assert Height(pivot) == hc + 2;
    assert Height(secondary) == Height(a) + 1 == hc + 1;
    assert FactorsExact(pivot) && FactorsExact(secondary);
    assert Height(b2) - Height(b1) == s;
    if s == -1 {
      assert Height(b1) == hc && Height(b2) == hc - 1;
    } else if s == 0 {
      assert Height(b1) == hc && Height(b2) == hc;
    } else {
      assert Height(b1) == hc - 1 && Height(b2) == hc;
    }
    var fixedUp := RotateRight(t.(left := RotateLeft(pivot)));
    assert fixedUp == Node(sd, s, Node(pd, 1, a, b1), Node(d, -2, b2, c));
  }

  /** Reference for the right table: the same correct relinking, mirrored,
      agrees with the table when the secondary's factor is -1 or 0, but when
      it is +1 the node's true factor is -1 and the pivot's 0, whereas the
      table writes 0 and -1. */
  lemma RightLeftTableVersusHeights(t: Tree)
    requires t.Node? && t.right.Node? && t.right.left.Node? && FactorsExact(t)
    requires t.bf == 2 && t.right.bf == -1 && -1 <= t.right.left.bf <= 1
    ensures var fixedUp := RotateLeft(t.(right := RotateRight(t.right)));
            var table := RightLeftFactors(t.right.left.bf, t.bf, t.right.bf);
            && fixedUp.Node? && fixedUp.data == t.right.left.data
            && TrueFactor(fixedUp) == 0
            && (t.right.left.bf <= 0 ==>
                  TrueFactor(fixedUp.left) == table.0 && TrueFactor(fixedUp.right) == table.1)
            && (t.right.left.bf == 1 ==>
                  && TrueFactor(fixedUp.left) == -1 && table.0 == 0
                  && TrueFactor(fixedUp.right) == 0 && table.1 == -1)
  {
    var Node(d, _, a, pivot) := t;
    var Node(pd, _, secondary, c) := pivot;
    var Node(sd, s, b1, b2) := secondary;
    var ha := Height(a);
    assert Height(pivot) == ha + 2;
    assert Height(secondary) == Height(c) + 1 == ha + 1;
    assert FactorsExact(pivot) && FactorsExact(secondary);
    assert Height(b2) - Height(b1) == s;
    if s == -1 {
      assert Height(b1) == ha && Height(b2) == ha - 1;
    } else if s == 0 {
      assert Height(b1) == ha && Height(b2) == ha;
    } else {
      assert Height(b1) == ha - 1 && Height(b2) == ha;
    }
    var fixedUp := RotateLeft(t.(right := RotateRight(pivot)));
    assert fixedUp == Node(sd, s, Node(d, 2, a, b1), Node(pd, -1, b2, c));
  }
}
