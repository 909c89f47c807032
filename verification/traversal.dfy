/**
  The two read-only walks of rb.c: the recursive in-order walk (lines 250-256)
  and the queue-driven level-order walk (lines 267-280). Both return the keys
  they visit instead of writing them to a file.
*/
module Traversal {
  import opened RbTree

  /** In-order walk: left subtree, the node, right subtree; nothing at the sentinel. */
  function Inorder(t: Tree): seq<int>
  {
    match t
    case Leaf => []
    case Node(_, l, k, r) => Inorder(l) + [k] + Inorder(r)
  }

  /** The in-order walk visits every stored key exactly once. */
  lemma {:induction false} InorderKeys(t: Tree)
    ensures multiset(Inorder(t)) == Keys(t)
    ensures |Inorder(t)| == Size(t)
  {
    match t
    case Leaf =>
    case Node(_, l, _, r) =>
      InorderKeys(l);
      InorderKeys(r);
  }

  /** Colours do not show in the in-order walk. */
  lemma BlackenInorder(t: Tree)
    ensures Inorder(Blacken(t)) == Inorder(t)
  {
  }

  /** Non-decreasing order. */
  predicate Sorted(s: seq<int>)
  {
    forall i, j | 0 <= i < j < |s| :: s[i] <= s[j]
  }

  lemma SortedAround(a: seq<int>, k: int, b: seq<int>)
    ensures Sorted(a + [k] + b) <==>
      && Sorted(a)
      && Sorted(b)
      && (forall x | x in a :: x <= k)
      && (forall x | x in b :: k <= x)
  {
    var s := a + [k] + b;
    assert forall i | 0 <= i < |a| :: s[i] == a[i];
    assert s[|a|] == k;
    assert forall j | 0 <= j < |b| :: s[|a| + 1 + j] == b[j];
    if Sorted(s) {
      forall x | x in a ensures x <= k {
        var i :| 0 <= i < |a| && a[i] == x;
        assert s[i] <= s[|a|];
      }
      forall x | x in b ensures k <= x {
        var j :| 0 <= j < |b| && b[j] == x;
        assert s[|a|] <= s[|a| + 1 + j];
      }
      forall i, j | 0 <= i < j < |b| ensures b[i] <= b[j] {
        assert s[|a| + 1 + i] <= s[|a| + 1 + j];
      }
    }
    if && Sorted(a) && Sorted(b)
       && (forall x | x in a :: x <= k) && (forall x | x in b :: k <= x)
    {
      forall i, j | 0 <= i < j < |s| ensures s[i] <= s[j] {
        if j < |a| {
        } else if i < |a| {
          assert a[i] in a;
          if j > |a| {
            assert b[j - |a| - 1] in b;
          }
        } else if i == |a| {
          assert b[j - |a| - 1] in b;
        }
      }
    }
  }

  /** The in-order walk of an ordered tree emits its keys in non-decreasing order, and conversely. */
  lemma {:induction false} OrderedIffSorted(t: Tree)
    ensures Ordered(t) <==> Sorted(Inorder(t))
  {
    InorderKeys(t);
    match t
    case Leaf =>
    case Node(_, l, k, r) =>
      InorderKeys(l);
      InorderKeys(r);
      OrderedIffSorted(l);
      OrderedIffSorted(r);
      SortedAround(Inorder(l), k, Inorder(r));
      AllAtMostKeys(l, k);
      AllAtLeastKeys(r, k);
      assert forall x :: x in Keys(l) <==> x in Inorder(l);
      assert forall x :: x in Keys(r) <==> x in Inorder(r);
  }

  /** Removing one element keeps a sequence sorted. */
  lemma SortedRemove(s: seq<int>, i: nat)
    requires i < |s| && Sorted(s)
    ensures Sorted(s[..i] + s[i + 1..])
  {
    var u := s[..i] + s[i + 1..];
    forall a, b | 0 <= a < b < |u| ensures u[a] <= u[b] {
      var a' := if a < i then a else a + 1;
      var b' := if b < i then b else b + 1;
      assert u[a] == s[a'] && u[b] == s[b'];
    }
  }

  /** Keys of all trees in a queue of pending nodes. */
  function QueueKeys(q: seq<Tree>): multiset<int>
  {
    if q == [] then multiset{} else Keys(q[0]) + QueueKeys(q[1..])
  }

  /** Total number of nodes in a queue of pending nodes. */
  function QueueSize(q: seq<Tree>): nat
  {
    if q == [] then 0 else Size(q[0]) + QueueSize(q[1..])
  }

  lemma {:induction false} QueueAppend(a: seq<Tree>, b: seq<Tree>)
    ensures QueueKeys(a + b) == QueueKeys(a) + QueueKeys(b)
    ensures QueueSize(a + b) == QueueSize(a) + QueueSize(b)
  {
    if a == [] {
      assert a + b == b;
    } else {
      assert (a + b)[1..] == a[1..] + b;
      QueueAppend(a[1..], b);
    }
  }

  /** A queue holding `t` unless `t` is the sentinel. */
  function Enqueued(t: Tree): (q: seq<Tree>)
    ensures forall c | c in q :: c.Node?
    ensures QueueKeys(q) == Keys(t) && QueueSize(q) == Size(t)
  {
    if t.Node? then
      assert [t][1..] == [];
      [t]
    else []
  }

  /** The non-sentinel children of a node, left before right (lines 276-277). */
  function Children(n: Tree): (cs: seq<Tree>)
    requires n.Node?
    ensures forall c | c in cs :: c.Node?
    ensures QueueKeys(cs) == Keys(n.left) + Keys(n.right)
    ensures QueueSize(cs) == Size(n.left) + Size(n.right)
  {
    QueueAppend(Enqueued(n.left), Enqueued(n.right));
    Enqueued(n.left) + Enqueued(n.right)
  }

  /**
    One round of the level-order loop (lines 274-277): dequeue the front
    node, emit its key, and enqueue its non-sentinel children.
  */
  method Visit(out: seq<int>, queue: seq<Tree>) returns (out': seq<int>, queue': seq<Tree>)
    requires queue != [] && forall n | n in queue :: n.Node?
    ensures out' == out + [queue[0].key]
    ensures queue' == queue[1..] + Children(queue[0])
    ensures forall n | n in queue' :: n.Node?
    ensures multiset(out') + QueueKeys(queue') == multiset(out) + QueueKeys(queue)
    ensures |out'| + QueueSize(queue') == |out| + QueueSize(queue)
    ensures QueueSize(queue') < QueueSize(queue)
  {
    var node := queue[0];
    out' := out + [node.key];
    queue' := queue[1..] + Children(node);
    QueueAppend(queue[1..], Children(node));
    assert multiset(out') == multiset(out) + multiset{node.key};
  }

  /**
    Breadth-first walk with a FIFO queue seeded with the root; each visited
    node's non-sentinel children are enqueued, left before right. The queue
    holds the pending nodes only and grows without bound.
  */
  method LevelOrder(t: Tree) returns (out: seq<int>)
    ensures t.Leaf? ==> out == []
    ensures t.Node? ==> |out| > 0 && out[0] == t.key
    ensures multiset(out) == multiset(Inorder(t))
    ensures |out| == Size(t)
  {
    out := [];
    if t.Leaf? {
      return;
    }
    var queue := [t];
    assert QueueKeys(queue) == Keys(t) && QueueSize(queue) == Size(t) by {
      assert queue[1..] == [];
    }
    while queue != []
      invariant forall n | n in queue :: n.Node?
      invariant if out == [] then queue == [t] else out[0] == t.key
      invariant multiset(out) + QueueKeys(queue) == Keys(t)
      invariant |out| + QueueSize(queue) == Size(t)
      decreases QueueSize(queue)
    {
      out, queue := Visit(out, queue);
    }
    InorderKeys(t);
  }
}
