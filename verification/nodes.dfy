/**
 * The records of the AVL tree header: the `Node` struct, the insertion status
 * codes, and the outcome type that stands in for the pointer graphs the
 * double-rotation branches leave behind.
 */
module Nodes {

  /** A subtree as held by a `Node*` slot. `Leaf` is the null pointer; a
      `Node` owns its two children. `bf` is the stored balance factor, which
      is only ever adjusted by the insertion bookkeeping and is NOT derived
      from the shape. */
  datatype Tree = Leaf | Node(data: int, bf: int, left: Tree, right: Tree)

  /** `Node(int item)`: the only place a key is ever written. */
  function NewNode(item: int): Tree
  {
    Node(item, 0, Leaf, Leaf)
  }

  /** The three status codes the recursive insertion reports upward. */
  datatype Status = ChangedHeight | MaintainedHeight | Failure

  /** The integer each status code is defined as. */
  function Code(s: Status): int
  {
    match s
    case ChangedHeight => 0
    case MaintainedHeight => 1
    case Failure => 2
  }

  /** Status codes are pairwise distinct integers. */
  lemma CodesDistinct(a: Status, b: Status)
    ensures Code(a) == Code(b) <==> a == b
  {
  }

  /** A node of the cyclic pointer graph, as it is left after a double rotation. */
  datatype CycleNode = CycleNode(data: int, bf: int)

  /** What went wrong when a rebalancer could not produce a tree.
      - `NullSecondary`: the pivot's inner child is null and is dereferenced
        by the factor switch.
      - `Cycle`: the double rotation relinked the wrong child slot. The caller's
        slot now holds `top` (the old pivot), `top` links to `middle` (the old
        root), `middle` links to `bottom` (the secondary pivot), and `bottom`
        links back to `top`; the old root's outer subtree is unreachable. */
  datatype Defect =
    | NullSecondary(node: int, pivot: int)
    | Cycle(top: CycleNode, middle: CycleNode, bottom: CycleNode)

  /** The result of an operation that may leave the pointer graph unusable. */
  datatype Outcome<T> = Ok(value: T) | Corrupt(defect: Defect)
}
