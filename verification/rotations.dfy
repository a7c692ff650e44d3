/**
 * The two single rotations. The source rewrites the caller's `Node*&` slot in
 * place; here a rotation returns the new subtree root and the caller stores it.
 * Rotations relink children only: no key and no factor is written.
 */
module Rotations {
  import opened Nodes
  import opened TreeSpec

  /** `rotate_left`: the right child (pivot) becomes the root, the old root
      becomes its left child and takes over the pivot's former left subtree.
      A missing root or a missing right child leaves the slot untouched. */
  function RotateLeft(t: Tree): (r: Tree)
    ensures t.Node? && t.right.Node? ==>
              && r.Node? && r.data == t.right.data && r.bf == t.right.bf
              && r.right == t.right.right
              && r.left == Node(t.data, t.bf, t.left, t.right.left)
    ensures !(t.Node? && t.right.Node?) ==> r == t
    ensures Entries(r) == Entries(t) && InOrder(r) == InOrder(t)
    ensures Keys(r) == Keys(t)
    ensures IsBST(r) <==> IsBST(t)
  {
    if t.Node? && t.right.Node? then
      var pivot := t.right;
      var r := Node(pivot.data, pivot.bf, Node(t.data, t.bf, t.left, pivot.left), pivot.right);
      BstIffSorted(t);
      BstIffSorted(r);
      r
    else
      t
  }

  /** `rotate_right`: the mirror image of `RotateLeft`. */
  function RotateRight(t: Tree): (r: Tree)
    ensures t.Node? && t.left.Node? ==>
              && r.Node? && r.data == t.left.data && r.bf == t.left.bf
              && r.left == t.left.left
              && r.right == Node(t.data, t.bf, t.left.right, t.right)
    ensures !(t.Node? && t.left.Node?) ==> r == t
    ensures Entries(r) == Entries(t) && InOrder(r) == InOrder(t)
    ensures Keys(r) == Keys(t)
    ensures IsBST(r) <==> IsBST(t)
  {
    if t.Node? && t.left.Node? then
      var pivot := t.left;
      var r := Node(pivot.data, pivot.bf, pivot.left, Node(t.data, t.bf, pivot.right, t.right));
      BstIffSorted(t);
      BstIffSorted(r);
      r
    else
      t
  }

  /** Each rotation undoes the other whenever it actually moved something. */
  lemma RotationsAreInverse(t: Tree)
    ensures t.Node? && t.right.Node? ==> RotateRight(RotateLeft(t)) == t
    ensures t.Node? && t.left.Node? ==> RotateLeft(RotateRight(t)) == t
  {
  }
}
