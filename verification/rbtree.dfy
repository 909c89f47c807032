/**
  The node/sentinel data model of the red-black tree (rb.c lines 4-37) and the
  invariants every public operation keeps.

  A C `Node*` is either the shared BLACK sentinel `nil` or a node owning two
  children; here the sentinel is the constructor `Leaf` and a node is `Node`.
  Parent back-pointers are not stored: a `Path` (module Context) records the
  way down from the root instead.
*/
module RbTree {

  datatype Color = Red | Black

  /** `Leaf` is the sentinel `nil`: always BLACK, never holding a key. */
  datatype Tree = Leaf | Node(color: Color, left: Tree, key: int, right: Tree)

  /** The multiset of keys stored in `t`; the tree is an ordered multiset. */
  function Keys(t: Tree): multiset<int>
  {
    match t
    case Leaf => multiset{}
    case Node(_, l, k, r) => Keys(l) + multiset{k} + Keys(r)
  }

  /** Number of nodes (the sentinel does not count). */
  function Size(t: Tree): nat
  {
    match t
    case Leaf => 0
    case Node(_, l, _, r) => Size(l) + 1 + Size(r)
  }

  /** Every key stored in `t` is at most `k`. */
  predicate AllAtMost(t: Tree, k: int)
  {
    match t
    case Leaf => true
    case Node(_, l, x, r) => AllAtMost(l, k) && x <= k && AllAtMost(r, k)
  }

  /** Every key stored in `t` is at least `k`. */
  predicate AllAtLeast(t: Tree, k: int)
  {
    match t
    case Leaf => true
    case Node(_, l, x, r) => AllAtLeast(l, k) && k <= x && AllAtLeast(r, k)
  }

  lemma {:induction false} AllAtMostKeys(t: Tree, k: int)
    ensures AllAtMost(t, k) <==> forall x | x in Keys(t) :: x <= k
  {
    match t
    case Leaf =>
    case Node(_, l, _, r) =>
      AllAtMostKeys(l, k);
      AllAtMostKeys(r, k);
      assert forall x :: x in Keys(t) <==> x in Keys(l) || x == t.key || x in Keys(r);
  }

  lemma {:induction false} AllAtLeastKeys(t: Tree, k: int)
    ensures AllAtLeast(t, k) <==> forall x | x in Keys(t) :: k <= x
  {
    match t
    case Leaf =>
    case Node(_, l, _, r) =>
      AllAtLeastKeys(l, k);
      AllAtLeastKeys(r, k);
      assert forall x :: x in Keys(t) <==> x in Keys(l) || x == t.key || x in Keys(r);
  }

  /** A lower bound of every key stays a lower bound when lowered. */
  lemma {:induction false} AllAtLeastLower(t: Tree, a: int, b: int)
    requires a <= b && AllAtLeast(t, b)
    ensures AllAtLeast(t, a)
  {
    match t
    case Leaf =>
    case Node(_, l, _, r) =>
      AllAtLeastLower(l, a, b);
      AllAtLeastLower(r, a, b);
  }

  /**
    Search-tree order. Equal keys are allowed on both sides: insertion sends
    ties to the right, and a later rotation may move a tie to the left.
  */
  predicate Ordered(t: Tree)
  {
    match t
    case Leaf => true
    case Node(_, l, k, r) => Ordered(l) && Ordered(r) && AllAtMost(l, k) && AllAtLeast(r, k)
  }

  /** The sentinel counts as BLACK. */
  predicate IsBlack(t: Tree)
  {
    t.Leaf? || t.color == Black
  }

  /** Paints the root BLACK; painting the sentinel changes nothing. */
  function Blacken(t: Tree): (r: Tree)
    ensures IsBlack(r)
    ensures Keys(r) == Keys(t)
    ensures r.Node? <==> t.Node?
  {
    match t
    case Leaf => Leaf
    case Node(_, l, k, rt) => Node(Black, l, k, rt)
  }

  /** 1 for a BLACK node, 0 for a RED one. */
  function BlackCount(c: Color): nat
  {
    if c == Black then 1 else 0
  }

  /**
    Number of BLACK nodes below `t` on its leftmost path, `t` itself included
    and the sentinel excluded. When `t` is `BlackBalanced` every path gives
    the same count.
  */
  function BlackHeight(t: Tree): nat
  {
    match t
    case Leaf => 0
    case Node(c, l, _, _) => BlackHeight(l) + BlackCount(c)
  }

  /** Every path from a node to a sentinel meets the same number of BLACK nodes. */
  predicate BlackBalanced(t: Tree)
  {
    match t
    case Leaf => true
    case Node(_, l, _, r) =>
      BlackBalanced(l) && BlackBalanced(r) && BlackHeight(l) == BlackHeight(r)
  }

  /** No RED node has a RED child. */
  predicate NoRedRed(t: Tree)
  {
    match t
    case Leaf => true
    case Node(c, l, _, r) =>
      && NoRedRed(l)
      && NoRedRed(r)
      && (c == Red ==> IsBlack(l) && IsBlack(r))
  }

  /** `NoRedRed` below the root: the root itself may be a RED node with a RED child. */
  predicate NoRedRedBelow(t: Tree)
  {
    t.Leaf? || (NoRedRed(t.left) && NoRedRed(t.right))
  }

  /** The colouring invariants of a red-black tree. */
  predicate IsRedBlack(t: Tree)
  {
    IsBlack(t) && NoRedRed(t) && BlackBalanced(t)
  }
}
