/**
  leftRotate and rightRotate (rb.c lines 41-65). A rotation rebuilds the
  subtree rooted at the rotated node; the parent's child link (or the tree's
  root) is updated by plugging the result back into the same `Path`. Colours
  travel with their nodes.
*/
module Rotation {
  import opened RbTree
  import opened Traversal

  /**
    Promotes `x.right` (called `y`): `y`'s former left subtree becomes `x`'s
    right subtree and `x` becomes `y`'s left child. The C code dereferences
    `y`, so `x.right` must not be the sentinel.
  */
  function RotateLeft(x: Tree): (r: Tree)
    requires x.Node? && x.right.Node?
    ensures Inorder(r) == Inorder(x)
    ensures r.Node? && r.left.Node?
    ensures r.color == x.right.color && r.left.color == x.color
    ensures r.left.left == x.left && r.left.right == x.right.left && r.right == x.right.right
    ensures RotateRight(r) == x
  {
    var Node(xc, a, xk, Node(yc, b, yk, c)) := x;
    Node(yc, Node(xc, a, xk, b), yk, c)
  }

  /** The mirror of `RotateLeft`: promotes `y.left`. */
  function RotateRight(y: Tree): (r: Tree)
    requires y.Node? && y.left.Node?
    ensures Inorder(r) == Inorder(y)
    ensures r.Node? && r.right.Node?
    ensures r.color == y.left.color && r.right.color == y.color
    ensures r.right.right == y.right && r.right.left == y.left.right && r.left == y.left.left
  {
    var Node(yc, Node(xc, a, xk, b), yk, c) := y;
    Node(xc, a, xk, Node(yc, b, yk, c))
  }

  /** The two rotations undo each other. */
  lemma RotateRightLeft(y: Tree)
    requires y.Node? && y.left.Node?
    ensures RotateLeft(RotateRight(y)) == y
  {
  }
}
