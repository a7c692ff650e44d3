/**
 * The read-only queries: `find`, `contains`, `get_min`/`get_max` with their
 * recursive helpers, and `get_next_higher`. A returned `Node*` is modelled as
 * the subtree rooted at that node, and `nullptr` as `Leaf`.
 */
module Queries {
  import opened Nodes
  import opened TreeSpec

  /** `find`: descend from the root, stopping at the first node whose data
      equals the target, going left when the target is smaller and right
      otherwise; `Leaf` when the walk falls off the tree. */
  function Find(t: Tree, k: int): (r: Tree)
    ensures r.Node? ==> r.data == k && SubtreeOf(r, t) && k in Keys(t)
    ensures IsBST(t) ==> (r.Node? <==> k in Keys(t))
    ensures IsBST(t) ==> IsBST(r)
  {
    match t
    case Leaf => Leaf
    case Node(d, _, l, rt) =>
      if d == k then t
      else if k < d then Find(l, k)
      else Find(rt, k)
  }

  /** `contains`: whether `find` returns a node. */
  function Contains(t: Tree, k: int): (b: bool)
    ensures b ==> k in Keys(t)
    ensures IsBST(t) ==> (b <==> k in Keys(t))
  {
    Find(t, k).Node?
  }

  /** The `get_min(int&, Node*)` helper: follows left children to the
      leftmost node and yields its data; on a null node the caller's value is
      left as it was. */
  function MinHelper(value: int, t: Tree): (r: int)
    ensures t.Leaf? ==> r == value
    ensures t.Node? ==> |InOrder(t)| > 0 && r == InOrder(t)[0]
    ensures t.Node? && IsBST(t) ==> r in Keys(t) && forall x :: x in Keys(t) ==> r <= x
  {
    match t
    case Leaf => value
    case Node(d, _, l, _) =>
      if l.Node? then MinHelper(value, l) else d
  }

  /** The `get_max(int&, Node*)` helper: the mirror image of `MinHelper`. */
  function MaxHelper(value: int, t: Tree): (r: int)
    ensures t.Leaf? ==> r == value
    ensures t.Node? ==> |InOrder(t)| > 0 && r == InOrder(t)[|InOrder(t)| - 1]
    ensures t.Node? && IsBST(t) ==> r in Keys(t) && forall x :: x in Keys(t) ==> x <= r
  {
    match t
    case Leaf => value
    case Node(d, _, _, rt) =>
      if rt.Node? then MaxHelper(value, rt) else d
  }

  /** `get_min`: 0 on an empty tree, otherwise the leftmost data. */
  function GetMin(t: Tree): (m: int)
    ensures t.Leaf? ==> m == 0
    ensures t.Node? ==> |InOrder(t)| > 0 && m == InOrder(t)[0]
    ensures t.Node? && IsBST(t) ==> m in Keys(t) && forall x :: x in Keys(t) ==> m <= x
  {
    if t.Leaf? then 0 else MinHelper(0, t)
  }

  /** `get_max`: 0 on an empty tree, otherwise the rightmost data. */
  function GetMax(t: Tree): (m: int)
    ensures t.Leaf? ==> m == 0
    ensures t.Node? ==> |InOrder(t)| > 0 && m == InOrder(t)[|InOrder(t)| - 1]
    ensures t.Node? && IsBST(t) ==> m in Keys(t) && forall x :: x in Keys(t) ==> x <= m
  {
    if t.Leaf? then 0 else MaxHelper(0, t)
  }

  /** `r` is the least key of `keys` above `v`. */
  ghost predicate IsSuccessor(keys: set<int>, v: int, r: int)
  {
    r in keys && v < r && forall x :: x in keys && v < x ==> r <= x
  }

  /** `get_next_higher`: if `find` returns a node with a right child, the
      leftmost data of that right subtree; otherwise the argument itself. */
  function GetNextHigher(t: Tree, v: int): (r: int)
    ensures Find(t, v).Leaf? || Find(t, v).right.Leaf? ==> r == v
    ensures IsBST(t) ==> (r != v <==> v in Keys(t) && Find(t, v).right.Node?)
    ensures IsBST(t) && r != v ==> IsSuccessor(Keys(t), v, r)
  {
    var n := Find(t, v);
    if n.Node? && n.right.Node? then
      FoundRightMinIsSuccessor(t, v);
      MinHelper(v, n.right)
    else
      v
  }

  /** In a search tree, the leftmost key of the found node's right subtree is
      the successor of the target among ALL keys of the tree, not only among
      those below the found node. */
  lemma {:induction false} FoundRightMinIsSuccessor(t: Tree, v: int)
    requires Find(t, v).Node? && Find(t, v).right.Node?
    ensures IsBST(t) ==> IsSuccessor(Keys(t), v, MinHelper(v, Find(t, v).right))
  {
    if !IsBST(t) {
      return;
    }
    var Node(d, _, l, rt) := t;
    var m := MinHelper(v, Find(t, v).right);
    if d == v {
    } else if v < d {
      FoundRightMinIsSuccessor(l, v);
      assert m in Keys(l);
    } else {
      FoundRightMinIsSuccessor(rt, v);
    }
  }
}
