/**
  The delete path of rb.c: `deleteKey` (lines 240-247) searches for the key,
  `deleteNode` (lines 208-236) unlinks the node with `transplant` and, for a
  node with two children, its successor found by `minimum` (lines 144-147),
  and `deleteFixup` (lines 151-204) repairs the black-height deficit left
  where a BLACK node was removed.
*/
module Deletion {
  import opened RbTree
  import opened Traversal
  import opened Context
  import opened Rotation

  /**
    The search loop of deleteKey (lines 241-245): stop at a node holding
    `key`, else go left when `key` is smaller and right otherwise. The focus
    of the result is that node, or the sentinel when the search fails.
  */
  function Find(t: Tree, key: int, p: Path): (z: Zipper)
    ensures Whole(z) == Plug(t, p)
    ensures z.focus.Node? ==> z.focus.key == key && key in Keys(t)
    ensures Ordered(t) && key in Keys(t) ==> z.focus.Node?
    decreases t
  {
    match t
    case Leaf => Zipper(Leaf, p)
    case Node(c, l, k, r) =>
      if k == key then Zipper(t, p)
      else if key < k then
        SearchSide(t, key);
        Find(l, key, Up(Frame(Left, c, k, r), p))
      else
        SearchSide(t, key);
        Find(r, key, Up(Frame(Right, c, k, l), p))
  }

  /** In an ordered tree, a key other than the root's lies on the side the search takes. */
  lemma SearchSide(t: Tree, key: int)
    requires t.Node? && key != t.key
    ensures Ordered(t) && key in Keys(t) && key < t.key ==> key in Keys(t.left)
    ensures Ordered(t) && key in Keys(t) && t.key < key ==> key in Keys(t.right)
  {
    AllAtMostKeys(t.left, t.key);
    AllAtLeastKeys(t.right, t.key);
    assert key in Keys(t) ==> key in Keys(t.left) || key in Keys(t.right);
  }

  /**
    minimum (lines 144-147): follow left links down to the node without a
    left child. Nothing of `t` comes before that node in order.
  */
  function Minimum(t: Tree, p: Path): (m: Zipper)
    requires t.Node?
    ensures m.focus.Node? && m.focus.left == Leaf
    ensures Whole(m) == Plug(t, p)
    ensures LeftOf(m.path) == LeftOf(p)
    ensures m.focus.key in Keys(t)
    ensures Inorder(t)[0] == m.focus.key
    ensures Ordered(t) ==> AllAtLeast(t, m.focus.key)
    decreases t
  {
    if t.left == Leaf then Zipper(t, p)
    else
      var m := Minimum(t.left, Up(Frame(Left, t.color, t.key, t.right), p));
      if Ordered(t) then
        AllAtMostKeys(t.left, t.key);
        AllAtLeastLower(t.right, m.focus.key, t.key);
        m
      else m
  }

  /**
    The unlinking part of deleteNode (lines 209-233) for node `z` at `p`.
    With no left child, `z.right` takes `z`'s place; else with no right
    child, `z.left` does. With two children, the minimum `y` of `z.right` is
    replaced by its right child `x`, and `y` takes `z`'s place, children and
    colour. The C code's special case for `y` being `z.right` (line 223) only
    sets the sentinel's parent pointer and is the same here.
    Returns the position of `x`, the subtree that moved into the vacated
    place, and the colour of the node that left it (yOriginalColor).
  */
  function Splice(z: Tree, p: Path): (r: (Zipper, Color))
    requires z.Node?
    ensures Inorder(Whole(r.0)) == LeftOf(p) + Inorder(z.left) + Inorder(z.right) + RightOf(p)
  {
    var Node(zc, zl, zk, zr) := z;
    if zl == Leaf then (Transplant(Zipper(z, p), zr), zc)
    else if zr == Leaf then (Transplant(Zipper(z, p), zl), zc)
    else
      var y := Minimum(zr, Top);
      var x := Transplant(y, y.focus.right);
      var outer := Up(Frame(Right, zc, y.focus.key, zl), p);
      SuccessorSplice(z, p, y, x, outer);
      (Zipper(x.focus, Graft(x.path, outer)), y.focus.color)
  }

  /**
    A node without a left child, with nothing before it in order, holds the
    first key; the rest follow once the node is replaced by its right child.
  */
  lemma SplitAtLeftmost(y: Zipper)
    requires y.focus.Node? && y.focus.left == Leaf && LeftOf(y.path) == []
    ensures Inorder(Whole(y)) == [y.focus.key] + Inorder(Plug(y.focus.right, y.path))
  {
    InorderPlug(y.focus, y.path);
    InorderPlug(y.focus.right, y.path);
  }

  /** The in-order effect of moving the successor `y` into `z`'s place. */
  lemma SuccessorSplice(z: Tree, p: Path, y: Zipper, x: Zipper, outer: Path)
    requires z.Node? && z.right.Node?
    requires y.focus.Node? && y.focus.left == Leaf
    requires Whole(y) == z.right && LeftOf(y.path) == []
    requires x == Zipper(y.focus.right, y.path)
    requires outer == Up(Frame(Right, z.color, y.focus.key, z.left), p)
    ensures Inorder(Plug(x.focus, Graft(x.path, outer)))
         == LeftOf(p) + Inorder(z.left) + Inorder(z.right) + RightOf(p)
  {
    SplitAtLeftmost(y);
    var moved := Node(z.color, z.left, y.focus.key, Whole(x));
    assert Inorder(moved) == Inorder(z.left) + Inorder(z.right);
    PlugGraft(x.focus, x.path, outer);
    assert Plug(x.focus, Graft(x.path, outer)) == Plug(moved, p);
    InorderPlug(moved, p);
    var l, r := Inorder(z.left), Inorder(z.right);
    assert LeftOf(p) + (l + r) + RightOf(p) == LeftOf(p) + l + r + RightOf(p);
  }

  /** Termination measure of the deleteFixup loop. */
  function DeleteMeasure(x: Tree, p: Path): nat
  {
    2 * Depth(p) + (if IsBlack(x) then 1 else 0)
  }

  /**
    Cases 2-4 of one deleteFixup iteration (lines 161-176 and 185-200), for
    `x` whose sibling `w` is BLACK.
    Case 2, both of `w`'s children BLACK: `w` becomes RED and `x` moves up.
    Case 3, `w`'s far child BLACK: the near child becomes BLACK, `w` RED, and
    `w` is rotated away from `x`. Case 4: `w` takes the parent's colour, the
    parent and `w`'s far child become BLACK, the parent is rotated toward
    `x`, and `x` becomes the root, which ends the loop.
    A sentinel sibling never occurs beside a node one BLACK short; the C code
    would read the sentinel's uninitialised links there, and the loop is
    ended instead.
  */
  function SiblingCases(x: Tree, p: Path): (r: Zipper)
    requires p.Up?
    ensures Inorder(Whole(r)) == Inorder(Plug(x, p))
    ensures DeleteMeasure(r.focus, r.path) <= 2 * Depth(p.rest) + BlackCount(p.frame.color)
  {
    var Up(Frame(d, pc, pk, w), up) := p;
    if w.Leaf? then Zipper(Plug(x, p), Top)
    else
      var parent := Fill(Frame(d, pc, pk, w), x);
      if IsBlack(w.left) && IsBlack(w.right) then
        // case 2
        var moved := Fill(Frame(d, pc, pk, Node(Red, w.left, w.key, w.right)), x);
        InorderPlugSame(moved, parent, up);
        Zipper(moved, up)
      else
        var top := RotateFar(x, d, pc, pk, w);
        InorderPlugSame(top, parent, up);
        Zipper(Plug(top, up), Top)
  }

  /**
    Case 3 of deleteFixup (lines 165-170, mirrored at 189-194): when the
    child of `w` away from `x` is BLACK, the near child becomes BLACK, `w`
    becomes RED, and `w` is rotated away from `x`. Afterwards the far child
    is RED.
  */
  function RedFarChild(w: Tree, d: Dir): (r: Tree)
    requires w.Node? && !(IsBlack(w.left) && IsBlack(w.right))
    ensures r.Node? && Inorder(r) == Inorder(w)
    ensures !IsBlack(if d == Left then r.right else r.left)
  {
    if d == Left then
      if IsBlack(w.right) then
        BlackenInorder(w.left);
        RotateRight(Node(Red, Blacken(w.left), w.key, w.right))
      else w
    else
      if IsBlack(w.left) then
        BlackenInorder(w.right);
        RotateLeft(Node(Red, w.left, w.key, Blacken(w.right)))
      else w
  }

  /**
    Cases 3 and 4 of deleteFixup (lines 165-175, mirrored at 189-199), for a
    BLACK sibling `w` with a RED child: returns the subtree that replaces
    the parent of `x`. Case 4: `w` takes the parent's colour, the parent and
    `w`'s far child become BLACK, and the parent is rotated toward `x`.
  */
  function RotateFar(x: Tree, d: Dir, pc: Color, pk: int, w: Tree): (top: Tree)
    requires w.Node? && !(IsBlack(w.left) && IsBlack(w.right))
    ensures Inorder(top) == Inorder(Fill(Frame(d, pc, pk, w), x))
    ensures top.Node? && top.color == pc
  {
    var w' := RedFarChild(w, d);
    if d == Left then
      BlackenInorder(w'.right);
      RotateLeft(Node(Black, x, pk, Node(pc, w'.left, w'.key, Blacken(w'.right))))
    else
      BlackenInorder(w'.left);
      RotateRight(Node(Black, Node(pc, Blacken(w'.left), w'.key, w'.right), pk, x))
  }

  /**
    One iteration of the deleteFixup loop (lines 153-201), entered when `x`
    is BLACK and not the root. Case 1, RED sibling `w`: `w` becomes BLACK,
    the parent RED, the parent is rotated toward `x`, and `w`'s near child
    becomes the new sibling; cases 2-4 follow.
  */
  function DeleteStep(x: Tree, p: Path): (r: Zipper)
    requires p.Up? && IsBlack(x)
    ensures Inorder(Whole(r)) == Inorder(Plug(x, p))
    ensures DeleteMeasure(r.focus, r.path) < DeleteMeasure(x, p)
  {
    var Up(Frame(d, pc, pk, w), up) := p;
    if !IsBlack(w) then
      // case 1
      var n :=
        if d == Left then RotateLeft(Node(Red, x, pk, Node(Black, w.left, w.key, w.right)))
        else RotateRight(Node(Red, Node(Black, w.left, w.key, w.right), pk, x));
      InorderPlugSame(n, Fill(Frame(d, pc, pk, w), x), up);
      var parent := Down(n, d, up);
      var below := Down(parent.focus, d, parent.path);
      SiblingCases(below.focus, below.path)
    else
      SiblingCases(x, p)
  }

  /**
    The deleteFixup loop (line 152): while `x` is BLACK and not the root,
    iterate; then paint `x` BLACK (line 203).
  */
  function DeleteFixup(x: Tree, p: Path): (r: Tree)
    ensures Inorder(r) == Inorder(Plug(x, p))
    decreases DeleteMeasure(x, p)
  {
    if p.Up? && IsBlack(x) then
      var next := DeleteStep(x, p);
      DeleteFixup(next.focus, next.path)
    else
      InorderPlugSame(Blacken(x), x, p);
      Plug(Blacken(x), p)
  }

  /**
    deleteNode (lines 208-236): unlink `z`, then run deleteFixup at `x`
    when the node that left the tree was BLACK. Exactly `z`'s key leaves the
    in-order sequence; every other key keeps its place.
  */
  function DeleteNode(z: Tree, p: Path): (r: Tree)
    requires z.Node?
    ensures Inorder(r) == LeftOf(p) + Inorder(z.left) + Inorder(z.right) + RightOf(p)
  {
    var (x, removed) := Splice(z, p);
    if removed == Black then DeleteFixup(x.focus, x.path) else Whole(x)
  }

  /**
    deleteKey (lines 240-247): search for `key` and delete the node found;
    a failed search leaves the tree as it is.
  */
  function DeleteKey(t: Tree, key: int): (r: Tree)
    ensures key !in Keys(t) ==> r == t
    ensures Ordered(t) && key in Keys(t) ==> Keys(r) == Keys(t) - multiset{key}
  {
    var z := Find(t, key, Top);
    if z.focus.Leaf? then t
    else
      var r := DeleteNode(z.focus, z.path);
      InorderPlug(z.focus, z.path);
      InorderKeys(r);
      InorderKeys(t);
      r
  }

  /**
    The state of the deleteFixup loop: the tree is a red-black tree except
    that the subtree at `x` has one BLACK node too few on each of its paths,
    and `x` itself may be a RED node with a RED child or parent.
  */
  predicate DeficitInvariant(x: Tree, p: Path)
  {
    && NoRedRedBelow(x) && BlackBalanced(x)
    && PathNoRedRed(p) && PathBalanced(p, BlackHeight(x) + 1) && TopBlack(p)
  }

  /**
    Cases 3 and 4 rebuild the parent's subtree as a red-black subtree of the
    parent's colour with the black-height the parent had before the deletion.
  */
  lemma RotateFarRedBlack(x: Tree, d: Dir, pc: Color, pk: int, w: Tree)
    requires IsBlack(x) && NoRedRed(x) && BlackBalanced(x)
    requires w.Node? && w.color == Black && NoRedRed(w) && BlackBalanced(w)
    requires BlackHeight(w) == BlackHeight(x) + 1
    requires !(IsBlack(w.left) && IsBlack(w.right))
    ensures NoRedRed(RotateFar(x, d, pc, pk, w)) && BlackBalanced(RotateFar(x, d, pc, pk, w))
    ensures BlackHeight(RotateFar(x, d, pc, pk, w)) == BlackHeight(x) + 1 + BlackCount(pc)
  {
  }

  /** Cases 2-4 keep the loop's invariant. */
  lemma SiblingCasesKeepsInvariant(x: Tree, p: Path)
    requires DeficitInvariant(x, p) && p.Up? && IsBlack(x) && IsBlack(p.frame.sibling)
    ensures DeficitInvariant(SiblingCases(x, p).focus, SiblingCases(x, p).path)
  {
    var Up(Frame(d, pc, pk, w), up) := p;
    var h := BlackHeight(x);
    assert BlackHeight(w) == h + 1 && NoRedRed(w) && BlackBalanced(w);
    assert PathBalanced(up, h + 1 + BlackCount(pc)) && PathNoRedRed(up);
    assert TopBlack(up);
    if !(IsBlack(w.left) && IsBlack(w.right)) {
      var top := RotateFar(x, d, pc, pk, w);
      RotateFarRedBlack(x, d, pc, pk, w);
      PlugNoRedRed(top, up);
      PlugBalanced(top, up);
    }
  }

  /** Each iteration of the deleteFixup loop keeps the loop's invariant. */
  lemma DeleteStepKeepsInvariant(x: Tree, p: Path)
    requires DeficitInvariant(x, p) && p.Up? && IsBlack(x)
    ensures DeficitInvariant(DeleteStep(x, p).focus, DeleteStep(x, p).path)
  {
    var Up(Frame(d, pc, pk, w), up) := p;
    if !IsBlack(w) {
      var h := BlackHeight(x);
      assert pc == Black && IsBlack(w.left) && IsBlack(w.right);
      assert PathBalanced(up, h + 2) && PathNoRedRed(up);
      var n :=
        if d == Left then RotateLeft(Node(Red, x, pk, Node(Black, w.left, w.key, w.right)))
        else RotateRight(Node(Red, Node(Black, w.left, w.key, w.right), pk, x));
      var parent := Down(n, d, up);
      var below := Down(parent.focus, d, parent.path);
      assert below.focus == x;
      SiblingCasesKeepsInvariant(below.focus, below.path);
    } else {
      SiblingCasesKeepsInvariant(x, p);
    }
  }

  /** When the loop ends, painting `x` BLACK leaves a red-black tree. */
  lemma {:induction false} DeleteFixupRedBlack(x: Tree, p: Path)
    requires DeficitInvariant(x, p)
    ensures IsRedBlack(DeleteFixup(x, p))
    decreases DeleteMeasure(x, p)
  {
    if p.Up? && IsBlack(x) {
      DeleteStepKeepsInvariant(x, p);
      var next := DeleteStep(x, p);
      DeleteFixupRedBlack(next.focus, next.path);
    } else {
      PlugRedBlack(Blacken(x), p);
    }
  }

  /**
    What the unlinking leaves behind: a red-black tree when the node that
    left was RED, else the deleteFixup loop's starting state at `x`.
  */
  predicate AfterSplice(x: Zipper, removed: Color)
  {
    if removed == Black then DeficitInvariant(x.focus, x.path) else IsRedBlack(Whole(x))
  }

  /** A node with at most one child is replaced by that child. */
  lemma SpliceChildRedBlack(z: Tree, c: Tree, p: Path)
    requires z.Node? && IsRedBlack(Plug(z, p))
    requires (z.left == Leaf && c == z.right) || (z.right == Leaf && c == z.left)
    ensures AfterSplice(Zipper(c, p), z.color)
  {
    PlugRedBlack(z, p);
    PlugRedBlack(c, p);
  }

  /** The colouring invariants do not look at keys. */
  lemma RekeyRedBlack(z: Tree, k: int, p: Path)
    requires z.Node? && IsRedBlack(Plug(z, p))
    ensures IsRedBlack(Plug(Node(z.color, z.left, k, z.right), p))
  {
    PlugRedBlack(z, p);
    PlugRedBlack(Node(z.color, z.left, k, z.right), p);
  }

  /**
    A node with two children is replaced by its successor, which in turn is
    replaced by its right child.
  */
  lemma SpliceSuccessorRedBlack(z: Tree, p: Path)
    requires z.Node? && z.left.Node? && z.right.Node? && IsRedBlack(Plug(z, p))
    ensures AfterSplice(Splice(z, p).0, Splice(z, p).1)
  {
    var Node(zc, zl, zk, zr) := z;
    var y := Minimum(zr, Top);
    var outer := Up(Frame(Right, zc, y.focus.key, zl), p);
    var g := Graft(y.path, outer);
    assert Splice(z, p) == (Zipper(y.focus.right, g), y.focus.color);
    RekeyRedBlack(z, y.focus.key, p);
    PlugGraft(y.focus, y.path, outer);
    SpliceChildRedBlack(y.focus, y.focus.right, g);
  }

  /** `deleteNode` keeps the red-black colouring invariants. */
  lemma DeleteNodeRedBlack(z: Tree, p: Path)
    requires z.Node? && IsRedBlack(Plug(z, p))
    ensures IsRedBlack(DeleteNode(z, p))
  {
    var (x, removed) := Splice(z, p);
    if z.left == Leaf {
      SpliceChildRedBlack(z, z.right, p);
    } else if z.right == Leaf {
      SpliceChildRedBlack(z, z.left, p);
    } else {
      SpliceSuccessorRedBlack(z, p);
    }
    if removed == Black {
      DeleteFixupRedBlack(x.focus, x.path);
    }
  }

  /** `deleteKey` keeps the red-black colouring invariants. */
  lemma DeleteKeyRedBlack(t: Tree, key: int)
    requires IsRedBlack(t)
    ensures IsRedBlack(DeleteKey(t, key))
  {
    var z := Find(t, key, Top);
    if z.focus.Node? {
      DeleteNodeRedBlack(z.focus, z.path);
    }
  }

  /**
    Deleting a present key from an ordered tree removes one occurrence of it
    from the in-order sequence and leaves every other key in place.
  */
  lemma DeleteKeyInorder(t: Tree, key: int)
    requires Ordered(t) && key in Keys(t)
    ensures exists i | 0 <= i < |Inorder(t)| ::
      Inorder(t)[i] == key && Inorder(DeleteKey(t, key)) == Inorder(t)[..i] + Inorder(t)[i + 1..]
  {
    var z := Find(t, key, Top);
    var Node(_, zl, _, zr) := z.focus;
    var before, after := LeftOf(z.path), RightOf(z.path);
    assert Inorder(DeleteKey(t, key)) == before + Inorder(zl) + Inorder(zr) + after;
    InorderPlug(z.focus, z.path);
    RemoveAt(before, Inorder(zl), key, Inorder(zr), after);
  }

  /** Dropping the middle element of `a + (b + [k] + c) + d`. */
  lemma RemoveAt(a: seq<int>, b: seq<int>, k: int, c: seq<int>, d: seq<int>)
    ensures var s, i := a + (b + [k] + c) + d, |a| + |b|;
      && 0 <= i < |s| && s[i] == k
      && s[..i] + s[i + 1..] == a + b + c + d
  {
    var s, i := a + (b + [k] + c) + d, |a| + |b|;
    assert s == (a + b) + [k] + (c + d);
    assert s[..i] == a + b;
    assert s[i + 1..] == c + d;
  }

  /** `deleteKey` keeps the search-tree order. */
  lemma DeleteKeyOrdered(t: Tree, key: int)
    requires Ordered(t)
    ensures Ordered(DeleteKey(t, key))
  {
    if key in Keys(t) {
      DeleteKeyInorder(t, key);
      var i :| 0 <= i < |Inorder(t)| && Inorder(t)[i] == key
        && Inorder(DeleteKey(t, key)) == Inorder(t)[..i] + Inorder(t)[i + 1..];
      OrderedIffSorted(t);
      SortedRemove(Inorder(t), i);
      OrderedIffSorted(DeleteKey(t, key));
    }
  }
}
