/**
  The insert path of rb.c: `insert` (lines 110-131), a search-tree descent in
  which equal keys go right, and `insertFixup` (lines 69-106), the
  recolour/rotate loop that repairs a RED node with a RED parent.
*/
module Insertion {
  import opened RbTree
  import opened Traversal
  import opened Context
  import opened Rotation

  /**
    Reference definition: plain search-tree insertion of a RED leaf node,
    without rebalancing. Keys smaller than a node's key go left, all others
    (ties included) go right.
  */
  function BstInsert(t: Tree, key: int): (r: Tree)
    ensures Keys(r) == Keys(t) + multiset{key}
  {
    match t
    case Leaf => Node(Red, Leaf, key, Leaf)
    case Node(c, l, k, rt) =>
      if key < k then Node(c, BstInsert(l, key), k, rt)
      else Node(c, l, k, BstInsert(rt, key))
  }

  /** The reference insertion keeps the search-tree order. */
  lemma {:induction false} BstInsertOrdered(t: Tree, key: int)
    requires Ordered(t)
    ensures Ordered(BstInsert(t, key))
  {
    match t
    case Leaf =>
    case Node(c, l, k, rt) =>
      if key < k {
        BstInsertOrdered(l, key);
        BstInsertBounds(l, key, k);
      } else {
        BstInsertOrdered(rt, key);
        BstInsertBounds(rt, key, k);
      }
  }

  /** Bounds on all keys survive inserting a key within the bound. */
  lemma {:induction false} BstInsertBounds(t: Tree, key: int, k: int)
    ensures AllAtMost(t, k) && key <= k ==> AllAtMost(BstInsert(t, key), k)
    ensures AllAtLeast(t, k) && k <= key ==> AllAtLeast(BstInsert(t, key), k)
  {
    match t
    case Leaf =>
    case Node(_, l, x, r) =>
      if key < x {
        BstInsertBounds(l, key, k);
      } else {
        BstInsertBounds(r, key, k);
      }
  }

  /**
    The descent of `insert` (lines 115-119): from `t`, sitting at `p`, follow
    left when `key` is smaller than the node's key and right otherwise, down
    to the sentinel where the new node is linked (lines 121-124).
  */
  function Descend(t: Tree, key: int, p: Path): (z: Zipper)
    ensures z.focus == Leaf
    ensures Whole(z) == Plug(t, p)
    ensures Plug(Node(Red, Leaf, key, Leaf), z.path) == Plug(BstInsert(t, key), p)
    decreases t
  {
    match t
    case Leaf => Zipper(Leaf, p)
    case Node(c, l, k, r) =>
      if key < k then Descend(l, key, Up(Frame(Left, c, k, r), p))
      else Descend(r, key, Up(Frame(Right, c, k, l), p))
  }

  /**
    One iteration of the insertFixup loop (lines 71-103), entered when the
    parent of `z` is RED. The uncle is the grandparent's other child.
    Case 1, RED uncle: parent and uncle become BLACK, the grandparent RED,
    and `z` moves up to the grandparent. Case 2, BLACK uncle and `z` an inner
    child: `z` moves up to its parent, which is rotated outward. Case 3,
    BLACK uncle and `z` an outer child: the parent becomes BLACK, the
    grandparent RED, and the grandparent is rotated the other way; `z`'s new
    parent is BLACK, which ends the loop.
    A RED parent that is the root has no grandparent; the C code would read
    the sentinel's uninitialised links there, and the loop is ended instead.
    That configuration never arises from a red-black tree, whose root is BLACK.
  */
  function InsertStep(z: Tree, p: Path): (r: Zipper)
    requires ParentIsRed(p)
    ensures Inorder(Whole(r)) == Inorder(Plug(z, p))
    ensures Depth(r.path) < Depth(p)
  {
    var Up(Frame(pd, pc, pk, ps), gp) := p;
    if z.Leaf? || gp.Top? then Zipper(Plug(z, p), Top)
    else
      var Up(Frame(gd, gc, gk, u), up) := gp;
      var g := Fill(Frame(gd, gc, gk, u), Fill(Frame(pd, pc, pk, ps), z));
      var x :=
        if !IsBlack(u) then
          // case 1
          Fill(Frame(gd, Red, gk, Blacken(u)), Fill(Frame(pd, Black, pk, ps), z))
        else if gd == Left then
          if pd == Right then
            // case 2, then case 3
            var n := RotateLeft(Node(Red, ps, pk, z));
            RotateRight(Node(Red, Node(Black, n.left, n.key, n.right), gk, u))
          else
            // case 3
            RotateRight(Node(Red, Node(Black, z, pk, ps), gk, u))
        else
          if pd == Left then
            // mirrored case 2, then mirrored case 3
            var n := RotateRight(Node(Red, z, pk, ps));
            RotateLeft(Node(Red, u, gk, Node(Black, n.left, n.key, n.right)))
          else
            // mirrored case 3
            RotateLeft(Node(Red, u, gk, Node(Black, ps, pk, z)));
      InorderPlugSame(x, g, up);
      if !IsBlack(u) then Zipper(x, up) else Down(x, gd, up)
  }

  /**
    The insertFixup loop (line 70) and its final step, which paints the root
    BLACK (line 105).
  */
  function InsertFixup(z: Tree, p: Path): (r: Tree)
    ensures Inorder(r) == Inorder(Plug(z, p))
    decreases Depth(p)
  {
    if ParentIsRed(p) then
      var next := InsertStep(z, p);
      InsertFixup(next.focus, next.path)
    else
      Blacken(Plug(z, p))
  }

  /**
    `insert` (lines 110-131): link a new RED node at the sentinel the descent
    ends at, then repair the colouring.
  */
  function Insert(t: Tree, key: int): (r: Tree)
    ensures Keys(r) == Keys(t) + multiset{key}
    ensures Inorder(r) == Inorder(BstInsert(t, key))
  {
    var spot := Descend(t, key, Top);
    var r := InsertFixup(Node(Red, Leaf, key, Leaf), spot.path);
    InorderKeys(r);
    InorderKeys(BstInsert(t, key));
    r
  }

  /**
    The state of the insertFixup loop: `z` is a RED node and the tree is a
    red-black tree except that `z`'s parent may also be RED, and except that
    the root may be RED when `z` is the root.
  */
  predicate InsertInvariant(z: Tree, p: Path)
  {
    && z.Node? && z.color == Red
    && NoRedRed(z) && BlackBalanced(z)
    && PathNoRedRed(p) && PathBalanced(p, BlackHeight(z)) && TopBlack(p)
  }

  /** Each iteration of the insertFixup loop keeps the loop's invariant. */
  lemma InsertStepKeepsInvariant(z: Tree, p: Path)
    requires InsertInvariant(z, p) && ParentIsRed(p)
    ensures InsertInvariant(InsertStep(z, p).focus, InsertStep(z, p).path)
  {
    var Up(Frame(pd, pc, pk, ps), gp) := p;
    var Up(Frame(gd, gc, gk, u), up) := gp;
    var h := BlackHeight(z);
    assert PathNoRedRed(gp) && PathBalanced(gp, h);
    assert gc == Black && IsBlack(ps) && BlackHeight(ps) == h && BlackHeight(u) == h;
    assert PathBalanced(up, h + 1) && PathNoRedRed(up);
    assert TopBlack(gp);
    if !IsBlack(u) {
      assert BlackHeight(u.left) == h;
    } else if gd == Left {
      if pd == Right {
      } else {
      }
    } else {
      if pd == Left {
      } else {
      }
    }
  }

  /** When the loop ends, painting the root BLACK leaves a red-black tree. */
  lemma {:induction false} InsertFixupRedBlack(z: Tree, p: Path)
    requires InsertInvariant(z, p)
    ensures IsRedBlack(InsertFixup(z, p))
    decreases Depth(p)
  {
    if ParentIsRed(p) {
      InsertStepKeepsInvariant(z, p);
      var next := InsertStep(z, p);
      InsertFixupRedBlack(next.focus, next.path);
    } else {
      PlugNoRedRed(z, p);
      PlugBalanced(z, p);
    }
  }

  /** `insert` keeps the red-black colouring invariants. */
  lemma InsertRedBlack(t: Tree, key: int)
    requires IsRedBlack(t)
    ensures IsRedBlack(Insert(t, key))
  {
    var spot := Descend(t, key, Top);
    PlugRedBlack(Leaf, spot.path);
    InsertFixupRedBlack(Node(Red, Leaf, key, Leaf), spot.path);
  }

  /** `insert` keeps the search-tree order. */
  lemma InsertOrdered(t: Tree, key: int)
    requires Ordered(t)
    ensures Ordered(Insert(t, key))
  {
    BstInsertOrdered(t, key);
    OrderedIffSorted(BstInsert(t, key));
    OrderedIffSorted(Insert(t, key));
  }
}
