/**
 * The recursive insertion helper `insert(int, Node*&)`. It returns the
 * subtree to store back into the caller's slot together with the status code
 * it reports upward, or `Corrupt` once a rebalancer has broken the tree.
 *
 * Two behaviours of the source are kept as written:
 * - the status stays `ChangedHeight` whenever the child reported it and no
 *   rebalancer ran, even when the node's factor has just returned to 0, so
 *   ancestors keep adjusting their factors;
 * - the status becomes `MaintainedHeight` whenever a rebalancer is called,
 *   including when the rebalancer changed nothing because the pivot's
 *   factor was 0.
 */
module Insertion {
  import opened Nodes
  import opened TreeSpec
  import opened Rebalancing
  import opened Queries

  /** After a rebalancer has run, the caller reports its height maintained. */
  function AfterRebalance(o: Outcome<Tree>): Outcome<(Tree, Status)>
  {
    match o
    case Ok(t) => Ok((t, MaintainedHeight))
    case Corrupt(e) => Corrupt(e)
  }

  /** `insert(int, Node*&)`: a new node in an empty slot; otherwise a descent
      by comparison, after which the node reacts to the child's report; an
      equal key reports `Failure`. */
  function InsertAt(t: Tree, k: int): (r: Outcome<(Tree, Status)>)
    ensures r.Ok? ==> r.value.0.Node?
    ensures t.Leaf? ==> r == Ok((NewNode(k), ChangedHeight))
  {
    match t
    case Leaf => Ok((NewNode(k), ChangedHeight))
    case Node(d, _, l, rt) =>
      if k < d then
        match InsertAt(l, k)
        case Corrupt(e) => Corrupt(e)
        case Ok((child, s)) => UnwindLeft(t, child, s)
      else if k > d then
        match InsertAt(rt, k)
        case Corrupt(e) => Corrupt(e)
        case Ok((child, s)) => UnwindRight(t, child, s)
      else
        Ok((t, Failure))
  }

  /** How a node reacts to its left child's report `s`, `child` being the
      subtree now stored in its left slot. A `ChangedHeight` report moves the
      factor by exactly -1; the node then reports `MaintainedHeight` if and
      only if the factor reached -2 and the left rebalancer ran, and
      `ChangedHeight` otherwise, including when the factor became 0. Any
      other report leaves the factor alone and is passed on unchanged.
      Whatever happens, the keys keep their left-to-right order. */
  function UnwindLeft(t: Tree, child: Tree, s: Status): (r: Outcome<(Tree, Status)>)
    requires t.Node? && child.Node?
    ensures s != ChangedHeight ==> r == Ok((t.(left := child), s))
    ensures s == ChangedHeight && t.bf != -1 ==>
              r == Ok((t.(left := child, bf := t.bf - 1), ChangedHeight))
    ensures s == ChangedHeight && t.bf == -1 ==>
              r == AfterRebalance(BalanceLeftHeavy(t.(left := child, bf := -2)))
    ensures r.Ok? && r.value.1 == MaintainedHeight <==>
              s == MaintainedHeight || (s == ChangedHeight && t.bf == -1 && r.Ok?)
    ensures r.Ok? ==> r.value.0.Node? && InOrder(r.value.0) == InOrder(t.(left := child))
    ensures r.Ok? ==> Keys(r.value.0) == Keys(t.(left := child))
    ensures r.Ok? ==> (IsBST(r.value.0) <==> IsBST(t.(left := child)))
  {
    var Node(d, bf, _, rt) := t;
    if s == ChangedHeight then
      if bf - 1 == -2 then AfterRebalance(BalanceLeftHeavy(Node(d, bf - 1, child, rt)))
      else Ok((Node(d, bf - 1, child, rt), ChangedHeight))
    else
      Ok((Node(d, bf, child, rt), s))
  }

  /** Mirror image of `UnwindLeft` for the right child: the factor moves by
      exactly +1 and the threshold is +2. */
  function UnwindRight(t: Tree, child: Tree, s: Status): (r: Outcome<(Tree, Status)>)
    requires t.Node? && child.Node?
    ensures s != ChangedHeight ==> r == Ok((t.(right := child), s))
    ensures s == ChangedHeight && t.bf != 1 ==>
              r == Ok((t.(right := child, bf := t.bf + 1), ChangedHeight))
    ensures s == ChangedHeight && t.bf == 1 ==>
              r == AfterRebalance(BalanceRightHeavy(t.(right := child, bf := 2)))
    ensures r.Ok? && r.value.1 == MaintainedHeight <==>
              s == MaintainedHeight || (s == ChangedHeight && t.bf == 1 && r.Ok?)
    ensures r.Ok? ==> r.value.0.Node? && InOrder(r.value.0) == InOrder(t.(right := child))
    ensures r.Ok? ==> Keys(r.value.0) == Keys(t.(right := child))
    ensures r.Ok? ==> (IsBST(r.value.0) <==> IsBST(t.(right := child)))
  {
    var Node(d, bf, l, _) := t;
    if s == ChangedHeight then
      if bf + 1 == 2 then AfterRebalance(BalanceRightHeavy(Node(d, bf + 1, l, child)))
      else Ok((Node(d, bf + 1, l, child), ChangedHeight))
    else
      Ok((Node(d, bf, l, child), s))
  }

  /** Storing into the left slot a subtree that holds the old left keys plus
      a smaller key `k` keeps the search-tree order. */
  lemma ReplaceLeftKeepsOrder(t: Tree, child: Tree, k: int)
    requires t.Node? && k < t.data
    requires IsBST(t.left) ==> IsBST(child) && Keys(child) == Keys(t.left) + {k}
    ensures IsBST(t) ==> IsBST(t.(left := child)) && Keys(t.(left := child)) == Keys(t) + {k}
  {
  }

  /** Mirror image of `ReplaceLeftKeepsOrder`. */
  lemma ReplaceRightKeepsOrder(t: Tree, child: Tree, k: int)
    requires t.Node? && k > t.data
    requires IsBST(t.right) ==> IsBST(child) && Keys(child) == Keys(t.right) + {k}
    ensures IsBST(t) ==> IsBST(t.(right := child)) && Keys(t.(right := child)) == Keys(t) + {k}
  {
  }

  /** The descent of `InsertAt` finds an equal key exactly when `Find`
      does, and then reports `Failure` with the tree handed back untouched:
      `Failure` skips every factor update on the way up, so shape and factors
      are identical. */
  lemma {:induction false} FailureIffFound(t: Tree, k: int)
    ensures (InsertAt(t, k).Ok? && InsertAt(t, k).value.1 == Failure) <==> Find(t, k).Node?
    ensures Find(t, k).Node? ==> InsertAt(t, k) == Ok((t, Failure))
  {
    match t
    case Leaf =>
    case Node(d, _, l, rt) =>
      if k < d {
        FailureIffFound(l, k);
      } else if k > d {
        FailureIffFound(rt, k);
      }
  }

  /** The only data an insertion writes is the new key: when it does not
      fail, the multiset of data grows by exactly `k`. */
  lemma {:induction false} InsertAddsExactlyK(t: Tree, k: int)
    ensures AddsExactlyK(t, k)
    decreases t, 1
  {
    match t
    case Leaf =>
    case Node(d, _, _, _) =>
      if k < d {
        AddsExactlyKLeft(t, k);
      } else if k > d {
        AddsExactlyKRight(t, k);
      }
  }

  /** The multiset of data grows by exactly `k` when inserting `k` into `t`
      does not fail. */
  ghost predicate AddsExactlyK(t: Tree, k: int)
  {
    InsertAt(t, k).Ok? && InsertAt(t, k).value.1 != Failure ==>
      Bag(InsertAt(t, k).value.0) == Bag(t) + multiset{k}
  }

  /** The step of `InsertAddsExactlyK` for a descent to the left. */
  lemma {:induction false} AddsExactlyKLeft(t: Tree, k: int)
    requires t.Node? && k < t.data
    ensures AddsExactlyK(t, k)
    decreases t, 0
  {
    InsertAddsExactlyK(t.left, k);
    var o := InsertAt(t.left, k);
    if o.Ok? {
      DescendLeft(t, k);
      if o.value.1 != Failure {
        UnwindLeftAddsK(t, o.value.0, o.value.1, k);
      }
    }
  }

  /** The step of `InsertAddsExactlyK` for a descent to the right. */
  lemma {:induction false} AddsExactlyKRight(t: Tree, k: int)
    requires t.Node? && k > t.data
    ensures AddsExactlyK(t, k)
    decreases t, 0
  {
    InsertAddsExactlyK(t.right, k);
    var o := InsertAt(t.right, k);
    if o.Ok? {
      DescendRight(t, k);
      if o.value.1 != Failure {
        UnwindRightAddsK(t, o.value.0, o.value.1, k);
      }
    }
  }

  /** A smaller key is inserted into the left child, and the node then
      reacts to the child's report. */
  lemma DescendLeft(t: Tree, k: int)
    requires t.Node? && k < t.data && InsertAt(t.left, k).Ok?
    ensures InsertAt(t, k) == UnwindLeft(t, InsertAt(t.left, k).value.0, InsertAt(t.left, k).value.1)
  {
  }

  /** A larger key is inserted into the right child, and the node then
      reacts to the child's report. */
  lemma DescendRight(t: Tree, k: int)
    requires t.Node? && k > t.data && InsertAt(t.right, k).Ok?
    ensures InsertAt(t, k) == UnwindRight(t, InsertAt(t.right, k).value.0, InsertAt(t.right, k).value.1)
  {
  }

  lemma UnwindLeftAddsK(t: Tree, child: Tree, s: Status, k: int)
    requires t.Node? && child.Node?
    requires Bag(child) == Bag(t.left) + multiset{k}
    ensures UnwindLeft(t, child, s).Ok? ==>
              Bag(UnwindLeft(t, child, s).value.0) == Bag(t) + multiset{k}
  {
    var r := UnwindLeft(t, child, s);
    if r.Ok? {
      BagIsInOrder(r.value.0);
      BagIsInOrder(t.(left := child));
    }
  }

  lemma UnwindRightAddsK(t: Tree, child: Tree, s: Status, k: int)
    requires t.Node? && child.Node?
    requires Bag(child) == Bag(t.right) + multiset{k}
    ensures UnwindRight(t, child, s).Ok? ==>
              Bag(UnwindRight(t, child, s).value.0) == Bag(t) + multiset{k}
  {
    var r := UnwindRight(t, child, s);
    if r.Ok? {
      BagIsInOrder(r.value.0);
      BagIsInOrder(t.(right := child));
    }
  }

  /** On a search tree, an insertion that does not corrupt the tree yields a
      search tree whose keys are the old keys plus `k`. */
  lemma {:induction false} InsertKeepsSearchOrder(t: Tree, k: int)
    ensures IsBST(t) && InsertAt(t, k).Ok? ==>
              IsBST(InsertAt(t, k).value.0) && Keys(InsertAt(t, k).value.0) == Keys(t) + {k}
  {
    if !IsBST(t) {
      return;
    }
    match t
    case Leaf =>
    case Node(d, _, l, rt) =>
      if k < d {
        InsertKeepsSearchOrder(l, k);
        if InsertAt(l, k).Ok? {
          ReplaceLeftKeepsOrder(t, InsertAt(l, k).value.0, k);
        }
      } else if k > d {
        InsertKeepsSearchOrder(rt, k);
        if InsertAt(rt, k).Ok? {
          ReplaceRightKeepsOrder(t, InsertAt(rt, k).value.0, k);
        }
      }
  }

}
