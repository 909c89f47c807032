/**
  The position of a node inside the whole tree. rb.c walks upward through
  `parent` pointers (insertFixup, deleteFixup, transplant); a `Path` lists,
  from the node's parent up to the root, which side the walk came from, the
  ancestor's colour and key, and the ancestor's other subtree. Rewriting
  `x->parent->left` or `tree->root` becomes rebuilding the tree with `Plug`.
*/
module Context {
  import opened RbTree
  import opened Traversal

  datatype Dir = Left | Right

  /** One ancestor: the focus is its `dir` child and `sibling` is its other child. */
  datatype Frame = Frame(dir: Dir, color: Color, key: int, sibling: Tree)

  /** Ancestors from the parent (outermost constructor) to the root (`Top`). */
  datatype Path = Top | Up(frame: Frame, rest: Path)

  /** A subtree together with its position in the whole tree. */
  datatype Zipper = Zipper(focus: Tree, path: Path)

  /** The ancestor node of a frame, with `t` hung on the frame's side. */
  function Fill(f: Frame, t: Tree): Tree
  {
    if f.dir == Left then Node(f.color, t, f.key, f.sibling)
    else Node(f.color, f.sibling, f.key, t)
  }

  /** The whole tree, with `t` at the position `p` describes. */
  function Plug(t: Tree, p: Path): Tree
    decreases p
  {
    match p
    case Top => t
    case Up(f, rest) => Plug(Fill(f, t), rest)
  }

  function Whole(z: Zipper): Tree
  {
    Plug(z.focus, z.path)
  }

  function Depth(p: Path): nat
  {
    match p
    case Top => 0
    case Up(_, rest) => 1 + Depth(rest)
  }

  /** The path `inner`, taken inside a subtree that itself sits at `outer`. */
  function Graft(inner: Path, outer: Path): (r: Path)
  {
    match inner
    case Top => outer
    case Up(f, rest) => Up(f, Graft(rest, outer))
  }

  lemma {:induction false} PlugGraft(t: Tree, inner: Path, outer: Path)
    ensures Plug(t, Graft(inner, outer)) == Plug(Plug(t, inner), outer)
    decreases inner
  {
    match inner
    case Top =>
    case Up(f, rest) => PlugGraft(Fill(f, t), rest, outer);
  }

  /** Moves the focus from a node to its `d` child. */
  function Down(t: Tree, d: Dir, up: Path): (z: Zipper)
    requires t.Node?
    ensures Whole(z) == Plug(t, up)
    ensures z.focus == (if d == Left then t.left else t.right)
  {
    if d == Left then Zipper(t.left, Up(Frame(Left, t.color, t.key, t.right), up))
    else Zipper(t.right, Up(Frame(Right, t.color, t.key, t.left), up))
  }

  /** Keys that the in-order walk of the whole tree visits before the focus. */
  function LeftOf(p: Path): seq<int>
  {
    match p
    case Top => []
    case Up(f, rest) =>
      if f.dir == Left then LeftOf(rest) else LeftOf(rest) + Inorder(f.sibling) + [f.key]
  }

  /** Keys that the in-order walk of the whole tree visits after the focus. */
  function RightOf(p: Path): seq<int>
  {
    match p
    case Top => []
    case Up(f, rest) =>
      if f.dir == Left then [f.key] + Inorder(f.sibling) + RightOf(rest) else RightOf(rest)
  }

  /** The in-order walk of the whole tree visits the focus's keys as one block. */
  lemma {:induction false} InorderPlug(t: Tree, p: Path)
    ensures Inorder(Plug(t, p)) == LeftOf(p) + Inorder(t) + RightOf(p)
    decreases p
  {
    match p
    case Top =>
    case Up(f, rest) =>
      InorderPlug(Fill(f, t), rest);
      Regroup(LeftOf(rest), Inorder(t), f.key, Inorder(f.sibling), RightOf(rest));
  }

  /** Subtrees with the same in-order walk give whole trees with the same in-order walk. */
  lemma InorderPlugSame(a: Tree, b: Tree, p: Path)
    requires Inorder(a) == Inorder(b)
    ensures Inorder(Plug(a, p)) == Inorder(Plug(b, p))
  {
    InorderPlug(a, p);
    InorderPlug(b, p);
  }

  lemma Regroup(a: seq<int>, b: seq<int>, k: int, s: seq<int>, c: seq<int>)
    ensures a + (b + [k] + s) + c == a + b + ([k] + s + c)
    ensures a + (s + [k] + b) + c == (a + s + [k]) + b + c
  {
  }

  /**
    transplant (rb.c lines 135-140): the subtree at `u` is replaced by `v`.
    Nothing outside the replaced subtree changes.
  */
  function Transplant(u: Zipper, v: Tree): (r: Zipper)
    ensures Inorder(Whole(r)) == LeftOf(u.path) + Inorder(v) + RightOf(u.path)
    ensures Keys(Whole(r)) + Keys(u.focus) == Keys(Whole(u)) + Keys(v)
  {
    InorderPlug(v, u.path);
    InorderPlug(u.focus, u.path);
    InorderKeys(v);
    InorderKeys(u.focus);
    InorderKeys(Plug(v, u.path));
    InorderKeys(Plug(u.focus, u.path));
    Zipper(v, u.path)
  }

  /** The focus's parent exists and is RED (the loop test of insertFixup, line 70). */
  predicate ParentIsRed(p: Path)
  {
    p.Up? && p.frame.color == Red
  }

  /**
    `NoRedRed` holds for every ancestor and its other subtree, leaving out
    only the edge between the focus and its parent.
  */
  predicate PathNoRedRed(p: Path)
  {
    match p
    case Top => true
    case Up(f, rest) =>
      && NoRedRed(f.sibling)
      && (f.color == Red ==> IsBlack(f.sibling) && !ParentIsRed(rest))
      && PathNoRedRed(rest)
  }

  /**
    The ancestors are black-balanced assuming the focus has black-height `h`.
  */
  predicate PathBalanced(p: Path, h: nat)
  {
    match p
    case Top => true
    case Up(f, rest) =>
      && BlackBalanced(f.sibling)
      && BlackHeight(f.sibling) == h
      && PathBalanced(rest, h + BlackCount(f.color))
  }

  /** The root is BLACK, unless the focus is the root. */
  predicate TopBlack(p: Path)
  {
    match p
    case Top => true
    case Up(f, Top) => f.color == Black
    case Up(_, rest) => TopBlack(rest)
  }

  lemma {:induction false} PlugNoRedRed(t: Tree, p: Path)
    ensures NoRedRed(Plug(t, p)) <==>
      NoRedRed(t) && PathNoRedRed(p) && !(!IsBlack(t) && ParentIsRed(p))
    decreases p
  {
    match p
    case Top =>
    case Up(f, rest) => PlugNoRedRed(Fill(f, t), rest);
  }

  lemma {:induction false} PlugBalanced(t: Tree, p: Path)
    ensures BlackBalanced(Plug(t, p)) <==> BlackBalanced(t) && PathBalanced(p, BlackHeight(t))
    decreases p
  {
    match p
    case Top =>
    case Up(f, rest) => PlugBalanced(Fill(f, t), rest);
  }

  lemma {:induction false} PlugTopBlack(t: Tree, p: Path)
    ensures IsBlack(Plug(t, p)) <==> if p.Top? then IsBlack(t) else TopBlack(p)
    decreases p
  {
    match p
    case Top =>
    case Up(f, rest) =>
      PlugTopBlack(Fill(f, t), rest);
  }

  /** The colouring invariants of the whole tree, read off the focus and its path. */
  lemma PlugRedBlack(t: Tree, p: Path)
    ensures IsRedBlack(Plug(t, p)) <==>
      && NoRedRed(t) && BlackBalanced(t)
      && PathNoRedRed(p) && PathBalanced(p, BlackHeight(t))
      && !(!IsBlack(t) && ParentIsRed(p))
      && (if p.Top? then IsBlack(t) else TopBlack(p))
  {
    PlugNoRedRed(t, p);
    PlugBalanced(t, p);
    PlugTopBlack(t, p);
  }
}
