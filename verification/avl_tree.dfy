/**
 * The public face of the `avl_tree` class: its two constructors and the
 * boolean `insert`, over the root slot the class holds. The queries live in
 * `Queries` and take the root directly.
 */
module AvlTree {
  import opened Nodes
  import opened TreeSpec
  import opened Queries
  import opened Insertion

  /** `avl_tree()`: the root is null. */
  function EmptyTree(): (t: Tree)
    ensures Keys(t) == {} && IsBST(t) && FactorsExact(t)
    ensures forall k :: !Contains(t, k)
    ensures GetMin(t) == 0 && GetMax(t) == 0
  {
    Leaf
  }

  /** `avl_tree(int)`: the root is a freshly constructed node. */
  function SingletonTree(item: int): (t: Tree)
    ensures Keys(t) == {item} && IsBST(t)
    ensures FactorsExact(t) && HeightBalanced(t) && FactorsInRange(t)
    ensures forall k :: Contains(t, k) <==> k == item
    ensures GetMin(t) == item && GetMax(t) == item
  {
    NewNode(item)
  }

  /** `insert(int)`: runs the recursive insertion on the root and answers
      false exactly for `Failure`, true for both other codes. The answer is
      false exactly when the key is already found, and then nothing changed.
      On a search tree an insertion that does not corrupt the tree keeps
      search order, adds exactly `k`, and makes `k` findable. */
  function Insert(t: Tree, k: int): (r: Outcome<(Tree, bool)>)
    ensures r.Ok? ==> (r.value.1 <==> !Contains(t, k))
    ensures Contains(t, k) ==> r == Ok((t, false))
    ensures r.Ok? && r.value.1 ==>
              Bag(r.value.0) == Bag(t) + multiset{k}
    ensures IsBST(t) && r.Ok? ==>
              && (r.value.1 <==> k !in Keys(t))
              && IsBST(r.value.0) && Keys(r.value.0) == Keys(t) + {k}
              && Contains(r.value.0, k) && Find(r.value.0, k).data == k
  {
    FailureIffFound(t, k);
    InsertAddsExactlyK(t, k);
    InsertKeepsSearchOrder(t, k);
    match InsertAt(t, k)
    case Corrupt(e) => Corrupt(e)
    case Ok((root, status)) => Ok((root, Code(status) != Code(Failure)))
  }

  /** Inserts `ks` one after another, as the driver's loop would through
      `Insert`, stopping at the first corrupting insertion. The answer of each
      insertion is dropped, so the recursive helper is called directly. */
  function InsertAll(t: Tree, ks: seq<int>): (r: Outcome<Tree>)
    ensures IsBST(t) && r.Ok? ==> IsBST(r.value) && Keys(r.value) == Keys(t) + (set x | x in ks)
    decreases |ks|
  {
    if |ks| == 0 then Ok(t)
    else
      match InsertAt(t, ks[0])
      case Corrupt(e) => Corrupt(e)
      case Ok((next, _)) =>
        InsertKeepsSearchOrder(t, ks[0]);
        assert (set x | x in ks) == {ks[0]} + (set x | x in ks[1..]);
        InsertAll(next, ks[1..])
  }
}
