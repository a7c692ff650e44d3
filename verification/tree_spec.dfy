/**
 * Ghost vocabulary for stating properties of the tree: in-order traversal,
 * key set, height, search-tree order, and the two balance claims the class
 * documentation makes.
 */
module TreeSpec {
  import opened Nodes

  /** Keys in left-node-right order, the order the console display walks. */
  ghost function InOrder(t: Tree): seq<int>
  {
    match t
    case Leaf => []
    case Node(d, _, l, r) => InOrder(l) + [d] + InOrder(r)
  }

  /** (data, factor) pairs in left-node-right order: what a node "holds". */
  ghost function Entries(t: Tree): seq<(int, int)>
  {
    match t
    case Leaf => []
    case Node(d, b, l, r) => Entries(l) + [(d, b)] + Entries(r)
  }

  /** The data held in the tree, counted with multiplicity. */
  ghost function Bag(t: Tree): multiset<int>
  {
    match t
    case Leaf => multiset{}
    case Node(d, _, l, r) => Bag(l) + multiset{d} + Bag(r)
  }

  ghost function Keys(t: Tree): set<int>
  {
    match t
    case Leaf => {}
    case Node(d, _, l, r) => Keys(l) + {d} + Keys(r)
  }

  ghost function Height(t: Tree): nat
  {
    match t
    case Leaf => 0
    case Node(_, _, l, r) => 1 + Max(Height(l), Height(r))
  }

  ghost function Max(a: nat, b: nat): nat
  {
    if a < b then b else a
  }

  /** Binary-search-tree order: every key left of a node is smaller, every
      key right of it is larger (so no key occurs twice). */
  ghost predicate IsBST(t: Tree)
  {
    match t
    case Leaf => true
    case Node(d, _, l, r) =>
      && IsBST(l) && IsBST(r)
      && (forall x :: x in Keys(l) ==> x < d)
      && (forall x :: x in Keys(r) ==> d < x)
  }

  ghost predicate StrictlyIncreasing(s: seq<int>)
  {
    forall i, j :: 0 <= i < j < |s| ==> s[i] < s[j]
  }

  /** `s` occurs somewhere in `t` as the subtree rooted at one of its slots. */
  ghost predicate SubtreeOf(s: Tree, t: Tree)
  {
    s == t || (t.Node? && (SubtreeOf(s, t.left) || SubtreeOf(s, t.right)))
  }

  /** The height difference of a node's children (right minus left), which
      the stored factor is meant to equal. */
  ghost function TrueFactor(t: Tree): int
  {
    match t
    case Leaf => 0
    case Node(_, _, l, r) => Height(r) - Height(l)
  }

  /** The struct comment's claim: the stored factor is the true factor, at
      every node. */
  ghost predicate FactorsExact(t: Tree)
  {
    match t
    case Leaf => true
    case Node(_, b, l, r) => b == TrueFactor(t) && FactorsExact(l) && FactorsExact(r)
  }

  /** The class comment's claim: child subtree heights differ by at most one,
      at every node. */
  ghost predicate HeightBalanced(t: Tree)
  {
    match t
    case Leaf => true
    case Node(_, _, l, r) =>
      -1 <= Height(r) - Height(l) <= 1 && HeightBalanced(l) && HeightBalanced(r)
  }

  /** Every stored factor is one of -1, 0, 1. */
  ghost predicate FactorsInRange(t: Tree)
  {
    match t
    case Leaf => true
    case Node(_, b, l, r) => -1 <= b <= 1 && FactorsInRange(l) && FactorsInRange(r)
  }

  /** The key set is exactly the set of keys the in-order walk visits. */
  lemma {:induction false} KeysAreInOrder(t: Tree)
    ensures forall x :: x in Keys(t) <==> x in InOrder(t)
  {
    match t
    case Leaf =>
    case Node(d, _, l, r) =>
      KeysAreInOrder(l);
      KeysAreInOrder(r);
  }

  /** The data counted with multiplicity are exactly the entries of the
      in-order traversal. */
  lemma {:induction false} BagIsInOrder(t: Tree)
    ensures Bag(t) == multiset(InOrder(t))
  {
    match t
    case Leaf =>
    case Node(d, _, l, r) =>
      BagIsInOrder(l);
      BagIsInOrder(r);
      assert InOrder(t) == InOrder(l) + [d] + InOrder(r);
  }

  /** An increasing walk splits around any element into increasing parts
      bounded by it, and conversely. */
  lemma SortedConcat(a: seq<int>, d: int, b: seq<int>)
    ensures StrictlyIncreasing(a + [d] + b) <==>
              && StrictlyIncreasing(a) && StrictlyIncreasing(b)
              && (forall x :: x in a ==> x < d)
              && (forall x :: x in b ==> d < x)
  {
    if StrictlyIncreasing(a) && StrictlyIncreasing(b)
       && (forall x :: x in a ==> x < d) && (forall x :: x in b ==> d < x)
    {
      SortedJoin(a, d, b);
    }
    if StrictlyIncreasing(a + [d] + b) {
      SortedSplit(a, d, b);
    }
  }

  lemma SortedJoin(a: seq<int>, d: int, b: seq<int>)
    requires StrictlyIncreasing(a) && StrictlyIncreasing(b)
    requires forall x :: x in a ==> x < d
    requires forall x :: x in b ==> d < x
    ensures StrictlyIncreasing(a + [d] + b)
  {
    var s := a + [d] + b;
    forall i, j | 0 <= i < j < |s|
      ensures s[i] < s[j]
    {
      if j < |a| {
      } else if j == |a| {
        assert s[i] == a[i] && a[i] in a;
      } else if i < |a| {
        assert s[i] == a[i] && a[i] in a;
        assert s[j] == b[j - |a| - 1] && b[j - |a| - 1] in b;
      } else if i == |a| {
        assert s[j] == b[j - |a| - 1] && b[j - |a| - 1] in b;
      } else {
        assert s[i] == b[i - |a| - 1] && s[j] == b[j - |a| - 1];
      }
    }
  }

  lemma SortedSplit(a: seq<int>, d: int, b: seq<int>)
    requires StrictlyIncreasing(a + [d] + b)
    ensures StrictlyIncreasing(a) && StrictlyIncreasing(b)
    ensures forall x :: x in a ==> x < d
    ensures forall x :: x in b ==> d < x
  {
    var s := a + [d] + b;
    assert a == s[..|a|];
    assert b == s[|a| + 1..];
    forall x | x in a ensures x < d {
      var i :| 0 <= i < |a| && a[i] == x;
      assert s[i] == x && s[|a|] == d;
    }
    forall x | x in b ensures d < x {
      var i :| 0 <= i < |b| && b[i] == x;
      assert s[|a| + 1 + i] == x && s[|a|] == d;
    }
  }

  /** Search-tree order is exactly an increasing in-order walk. */
  lemma {:induction false} BstIffSorted(t: Tree)
    ensures IsBST(t) <==> StrictlyIncreasing(InOrder(t))
  {
    match t
    case Leaf =>
    case Node(d, _, l, r) =>
      BstIffSorted(l);
      BstIffSorted(r);
      KeysAreInOrder(l);
      KeysAreInOrder(r);
      SortedConcat(InOrder(l), d, InOrder(r));
  }

  /** A freshly constructed node is a valid one-key AVL tree. */
  lemma NewNodeIsValid(item: int)
    ensures InOrder(NewNode(item)) == [item] && Keys(NewNode(item)) == {item}
    ensures IsBST(NewNode(item)) && Height(NewNode(item)) == 1
    ensures FactorsExact(NewNode(item)) && HeightBalanced(NewNode(item))
    ensures FactorsInRange(NewNode(item))
  {
  }

  /** Exact factors in -1..1 are exactly the class comment's balance claim. */
  lemma {:induction false} ExactFactorsInRangeAreBalanced(t: Tree)
    requires FactorsExact(t)
    ensures FactorsInRange(t) <==> HeightBalanced(t)
  {
    match t
    case Leaf =>
    case Node(_, _, l, r) =>
      ExactFactorsInRangeAreBalanced(l);
      ExactFactorsInRangeAreBalanced(r);
  }
}
