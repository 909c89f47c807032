/**
  Small worked examples of insert and deleteKey on concrete trees.
*/
module Scenarios {
  import opened RbTree
  import opened Insertion
  import opened Deletion

  function Red1(k: int): Tree
  {
    Node(Red, Leaf, k, Leaf)
  }

  /** Inserting 10, 20, 30 ends in a single left rotation at the root. */
  lemma InsertAscending()
    ensures Insert(Insert(Insert(Leaf, 10), 20), 30) == Node(Black, Red1(10), 20, Red1(30))
  {
  }

  /**
    Equal keys are stored once each: the second and third 5 go right, and
    the rotation that rebalances moves one of them to the left of the root.
  */
  lemma InsertTies()
    ensures Insert(Insert(Insert(Leaf, 5), 5), 5) == Node(Black, Red1(5), 5, Red1(5))
  {
  }

  /** Deleting the root of a three-node tree moves its successor up. */
  lemma DeleteRoot()
    ensures DeleteKey(Node(Black, Red1(10), 20, Red1(30)), 20) == Node(Black, Red1(10), 30, Leaf)
    ensures DeleteKey(Node(Black, Red1(10), 20, Red1(30)), 25) == Node(Black, Red1(10), 20, Red1(30))
  {
  }

  /** Removing a BLACK leaf whose sibling has BLACK children recolours the sibling (case 2). */
  lemma DeleteRecolour()
    ensures DeleteKey(Node(Black, Node(Black, Leaf, 10, Leaf), 20, Node(Black, Leaf, 30, Leaf)), 10)
         == Node(Black, Leaf, 20, Red1(30))
  {
  }

  /** Removing a BLACK leaf whose sibling has a RED far child rotates at the parent (case 4). */
  lemma DeleteRotate()
    ensures DeleteKey(Node(Black, Node(Black, Leaf, 10, Leaf), 20, Node(Black, Leaf, 30, Red1(40))), 10)
         == Node(Black, Node(Black, Leaf, 20, Leaf), 30, Node(Black, Leaf, 40, Leaf))
  {
  }
}
