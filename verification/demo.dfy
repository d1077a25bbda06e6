/** The demo driver's insertion sequence, one insertion at a time, and what
    `delete` then does to one of its inner nodes. */
module Demo {
  import opened Outcomes
  import opened Nodes
  import opened Trees
  import opened Search
  import opened Insertion
  import opened Deletion
  import opened Scenarios

  /** The tree the demo's eleven insertions build. */
  function DemoTree(): Tree {
    Node(Black,
      Node(Black,
        Node(Black, Node(Red, Nil, 1, Nil), 2, Nil),
        3,
        Node(Black, Nil, 4, Nil)),
      5,
      Node(Black,
        Node(Red,
          Node(Black, Nil, 6, Nil),
          7,
          Node(Black, Nil, 8, Node(Red, Nil, 9, Nil))),
        10,
        Node(Black, Nil, 11, Nil)))
  }

  /** Inserting 3, 5, 10, 11, 2, 4, 8, 7, 1, 6, 9 into an empty tree builds `DemoTree`. */
  lemma DemoBuildsTree()
    ensures InsertAll(Empty(), [3, 5, 10, 11, 2, 4, 8, 7, 1, 6, 9]) == Ok(RBTree(DemoTree(), SentinelParent))
  {
    InsertIntoEmpty(Empty(), 3);
    InsertAllStep(Empty(), [3, 5, 10, 11, 2, 4, 8, 7, 1, 6, 9], RBTree(Node(Black, Nil, 3, Nil), SentinelParent));
    DemoStep2();
    InsertAllStep(RBTree(Node(Black, Nil, 3, Nil), SentinelParent), [5, 10, 11, 2, 4, 8, 7, 1, 6, 9],
      RBTree(Node(Black, Nil, 3, Node(Red, Nil, 5, Nil)), SentinelParent));
    DemoStep3();
    InsertAllStep(RBTree(Node(Black, Nil, 3, Node(Red, Nil, 5, Nil)), SentinelParent), [10, 11, 2, 4, 8, 7, 1, 6, 9],
      RBTree(Node(Black, Node(Red, Nil, 3, Nil), 5, Node(Red, Nil, 10, Nil)), SentinelParent));
    DemoStep4();
    InsertAllStep(RBTree(Node(Black, Node(Red, Nil, 3, Nil), 5, Node(Red, Nil, 10, Nil)), SentinelParent), [11, 2, 4, 8, 7, 1, 6, 9],
      RBTree(Node(Black, Node(Black, Nil, 3, Nil), 5, Node(Black, Nil, 10, Node(Red, Nil, 11, Nil))), SentinelParent));
    DemoStep5();
    InsertAllStep(RBTree(Node(Black, Node(Black, Nil, 3, Nil), 5, Node(Black, Nil, 10, Node(Red, Nil, 11, Nil))), SentinelParent), [2, 4, 8, 7, 1, 6, 9],
      RBTree(Node(Black, Node(Black, Node(Red, Nil, 2, Nil), 3, Nil), 5, Node(Black, Nil, 10, Node(Red, Nil, 11, Nil))), SentinelParent));
    DemoStep6();
    InsertAllStep(RBTree(Node(Black, Node(Black, Node(Red, Nil, 2, Nil), 3, Nil), 5, Node(Black, Nil, 10, Node(Red, Nil, 11, Nil))), SentinelParent), [4, 8, 7, 1, 6, 9],
      RBTree(Node(Black, Node(Black, Node(Red, Nil, 2, Nil), 3, Node(Red, Nil, 4, Nil)), 5, Node(Black, Nil, 10, Node(Red, Nil, 11, Nil))), SentinelParent));
    DemoStep7();
    InsertAllStep(RBTree(Node(Black, Node(Black, Node(Red, Nil, 2, Nil), 3, Node(Red, Nil, 4, Nil)), 5, Node(Black, Nil, 10, Node(Red, Nil, 11, Nil))), SentinelParent), [8, 7, 1, 6, 9],
      RBTree(Node(Black, Node(Black, Node(Red, Nil, 2, Nil), 3, Node(Red, Nil, 4, Nil)), 5, Node(Black, Node(Red, Nil, 8, Nil), 10, Node(Red, Nil, 11, Nil))), SentinelParent));
    DemoStep8();
    InsertAllStep(RBTree(Node(Black, Node(Black, Node(Red, Nil, 2, Nil), 3, Node(Red, Nil, 4, Nil)), 5, Node(Black, Node(Red, Nil, 8, Nil), 10, Node(Red, Nil, 11, Nil))), SentinelParent), [7, 1, 6, 9],
      RBTree(Node(Black, Node(Black, Node(Red, Nil, 2, Nil), 3, Node(Red, Nil, 4, Nil)), 5, Node(Red, Node(Black, Node(Red, Nil, 7, Nil), 8, Nil), 10, Node(Black, Nil, 11, Nil))), SentinelParent));
    DemoStep9();
    InsertAllStep(RBTree(Node(Black, Node(Black, Node(Red, Nil, 2, Nil), 3, Node(Red, Nil, 4, Nil)), 5, Node(Red, Node(Black, Node(Red, Nil, 7, Nil), 8, Nil), 10, Node(Black, Nil, 11, Nil))), SentinelParent), [1, 6, 9],
      RBTree(Node(Black, Node(Red, Node(Black, Node(Red, Nil, 1, Nil), 2, Nil), 3, Node(Black, Nil, 4, Nil)), 5, Node(Red, Node(Black, Node(Red, Nil, 7, Nil), 8, Nil), 10, Node(Black, Nil, 11, Nil))), SentinelParent));
    DemoStep10();
    InsertAllStep(RBTree(Node(Black, Node(Red, Node(Black, Node(Red, Nil, 1, Nil), 2, Nil), 3, Node(Black, Nil, 4, Nil)), 5, Node(Red, Node(Black, Node(Red, Nil, 7, Nil), 8, Nil), 10, Node(Black, Nil, 11, Nil))), SentinelParent), [6, 9],
      RBTree(Node(Black, Node(Red, Node(Black, Node(Red, Nil, 1, Nil), 2, Nil), 3, Node(Black, Nil, 4, Nil)), 5, Node(Red, Node(Black, Node(Red, Nil, 6, Nil), 7, Node(Red, Nil, 8, Nil)), 10, Node(Black, Nil, 11, Nil))), SentinelParent));
    DemoStep11();
    InsertAllStep(RBTree(Node(Black, Node(Red, Node(Black, Node(Red, Nil, 1, Nil), 2, Nil), 3, Node(Black, Nil, 4, Nil)), 5, Node(Red, Node(Black, Node(Red, Nil, 6, Nil), 7, Node(Red, Nil, 8, Nil)), 10, Node(Black, Nil, 11, Nil))), SentinelParent), [9],
      RBTree(Node(Black, Node(Black, Node(Black, Node(Red, Nil, 1, Nil), 2, Nil), 3, Node(Black, Nil, 4, Nil)), 5, Node(Black, Node(Red, Node(Black, Nil, 6, Nil), 7, Node(Black, Nil, 8, Node(Red, Nil, 9, Nil))), 10, Node(Black, Nil, 11, Nil))), SentinelParent));
    assert InsertAll(RBTree(DemoTree(), SentinelParent), []) == Ok(RBTree(DemoTree(), SentinelParent));
  }

  /** The demo's sequence ends in a valid tree listing 1 to 11 in order. */
  lemma DemoSequence()
    ensures InsertAll(Empty(), [3, 5, 10, 11, 2, 4, 8, 7, 1, 6, 9]).Ok?
    ensures var s := InsertAll(Empty(), [3, 5, 10, 11, 2, 4, 8, 7, 1, 6, 9]).value;
      Valid(s) && Keys(s.root) == [1, 2, 3, 4, 5, 6, 7, 8, 9, 10, 11]
  {
    var vs := [3, 5, 10, 11, 2, 4, 8, 7, 1, 6, 9];
    InsertAllKeepsValid(Empty(), vs);
    DemoKeys();
  }

  /** Inserting the demo's values one by one into a sorted list gives 1 to 11. */
  lemma DemoKeys()
    ensures SortedInsertAll([], [3, 5, 10, 11, 2, 4, 8, 7, 1, 6, 9]) == [1, 2, 3, 4, 5, 6, 7, 8, 9, 10, 11]
  {
    DemoKeysFirst();
    DemoKeysSecond();
    DemoKeysThird();
    DemoKeysLast();
  }

  lemma DemoKeysFirst()
    ensures SortedInsertAll([], [3, 5, 10, 11, 2, 4, 8, 7, 1, 6, 9]) == SortedInsertAll([3, 5, 10, 11], [2, 4, 8, 7, 1, 6, 9])
  {
    assert [3, 5, 10, 11, 2, 4, 8, 7, 1, 6, 9][1..] == [5, 10, 11, 2, 4, 8, 7, 1, 6, 9];
    assert SortedInsert([], 3) == [3];
    assert [5, 10, 11, 2, 4, 8, 7, 1, 6, 9][1..] == [10, 11, 2, 4, 8, 7, 1, 6, 9];
    assert SortedInsert([3], 5) == [3, 5];
    assert [10, 11, 2, 4, 8, 7, 1, 6, 9][1..] == [11, 2, 4, 8, 7, 1, 6, 9];
    assert SortedInsert([3, 5], 10) == [3, 5, 10];
    assert [11, 2, 4, 8, 7, 1, 6, 9][1..] == [2, 4, 8, 7, 1, 6, 9];
    assert SortedInsert([3, 5, 10], 11) == [3, 5, 10, 11];
  }

  lemma DemoKeysSecond()
    ensures SortedInsertAll([3, 5, 10, 11], [2, 4, 8, 7, 1, 6, 9]) == SortedInsertAll([2, 3, 4, 5, 8, 10, 11], [7, 1, 6, 9])
  {
    assert [2, 4, 8, 7, 1, 6, 9][1..] == [4, 8, 7, 1, 6, 9];
    assert SortedInsert([3, 5, 10, 11], 2) == [2, 3, 5, 10, 11];
    assert [4, 8, 7, 1, 6, 9][1..] == [8, 7, 1, 6, 9];
    assert SortedInsert([2, 3, 5, 10, 11], 4) == [2, 3, 4, 5, 10, 11];
    assert [8, 7, 1, 6, 9][1..] == [7, 1, 6, 9];
    assert SortedInsert([2, 3, 4, 5, 10, 11], 8) == [2, 3, 4, 5, 8, 10, 11];
  }

  lemma DemoKeysThird()
    ensures SortedInsertAll([2, 3, 4, 5, 8, 10, 11], [7, 1, 6, 9]) == SortedInsertAll([1, 2, 3, 4, 5, 7, 8, 10, 11], [6, 9])
  {
    assert [7, 1, 6, 9][1..] == [1, 6, 9];
    assert SortedInsert([2, 3, 4, 5, 8, 10, 11], 7) == [2, 3, 4, 5, 7, 8, 10, 11];
    assert [1, 6, 9][1..] == [6, 9];
    assert SortedInsert([2, 3, 4, 5, 7, 8, 10, 11], 1) == [1, 2, 3, 4, 5, 7, 8, 10, 11];
  }

  lemma DemoKeysLast()
    ensures SortedInsertAll([1, 2, 3, 4, 5, 7, 8, 10, 11], [6, 9]) == SortedInsertAll([1, 2, 3, 4, 5, 6, 7, 8, 9, 10, 11], [])
  {
    assert [6, 9][1..] == [9];
    assert SortedInsert([1, 2, 3, 4, 5, 7, 8, 10, 11], 6) == [1, 2, 3, 4, 5, 6, 7, 8, 10, 11];
    assert [9][1..] == [];
    assert SortedInsert([1, 2, 3, 4, 5, 6, 7, 8, 10, 11], 9) == [1, 2, 3, 4, 5, 6, 7, 8, 9, 10, 11];
  }

  /** Deleting 10 from the demo's tree: the node holding 10 is not the root
      and has children, so `deleteNode` does nothing, yet `delete` reports
      success and 10 is still stored. */
  lemma DemoDeleteTen()
    ensures Delete(RBTree(DemoTree(), SentinelParent), 10)
      == Ok(Deleted(true, RBTree(DemoTree(), SentinelParent)))
    ensures 10 in Keys(DemoTree())
  {
    var s := RBTree(DemoTree(), SentinelParent);
    var root := DemoTree();
    var f := Frame(Right, root.color, root.value, root.left);
    assert [f] + [] == [f];
    assert Locate(root, 10, []) == Locate(root.right, 10, [f]);
    assert SearchNode(root, 10) == Some(Zipper(root.right, [f]));
    DeleteInnerNodeIsNoop(s, 10);
  }

  /** Deleting a value the demo never inserted reports failure and changes nothing. */
  lemma DemoDeleteAbsent()
    ensures Delete(RBTree(DemoTree(), SentinelParent), 99)
      == Ok(Deleted(false, RBTree(DemoTree(), SentinelParent)))
  {
  }

  // Each insertion of the demo after the first, from the tree before it to
  // the tree after it; the assertion names the path the descent takes.

  lemma DemoStep2()
    ensures Insert(RBTree(Node(Black, Nil, 3, Nil), SentinelParent), 5)
      == Ok(RBTree(Node(Black, Nil, 3, Node(Red, Nil, 5, Nil)), SentinelParent))
  {
    var path := [Frame(Right, Black, 3, Nil)];
    assert Descend(Node(Black, Nil, 3, Nil), 5, []) == path;
    assert FixUpLoop(NewLeaf(5), path, SentinelParent) == Ok(Node(Black, Nil, 3, Node(Red, Nil, 5, Nil)));
  }

  lemma DemoStep3()
    ensures Insert(RBTree(Node(Black, Nil, 3, Node(Red, Nil, 5, Nil)), SentinelParent), 10)
      == Ok(RBTree(Node(Black, Node(Red, Nil, 3, Nil), 5, Node(Red, Nil, 10, Nil)), SentinelParent))
  {
    var path := [Frame(Right, Red, 5, Nil), Frame(Right, Black, 3, Nil)];
    assert Descend(Node(Black, Nil, 3, Node(Red, Nil, 5, Nil)), 10, []) == path;
    assert FixUpLoop(NewLeaf(10), path, SentinelParent) == Ok(Node(Black, Node(Red, Nil, 3, Nil), 5, Node(Red, Nil, 10, Nil)));
  }

  lemma DemoStep4()
    ensures Insert(RBTree(Node(Black, Node(Red, Nil, 3, Nil), 5, Node(Red, Nil, 10, Nil)), SentinelParent), 11)
      == Ok(RBTree(Node(Black, Node(Black, Nil, 3, Nil), 5, Node(Black, Nil, 10, Node(Red, Nil, 11, Nil))), SentinelParent))
  {
    var path := [Frame(Right, Red, 10, Nil), Frame(Right, Black, 5, Node(Red, Nil, 3, Nil))];
    assert Descend(Node(Black, Node(Red, Nil, 3, Nil), 5, Node(Red, Nil, 10, Nil)), 11, []) == path;
    assert FixUpLoop(NewLeaf(11), path, SentinelParent) == Ok(Node(Red, Node(Black, Nil, 3, Nil), 5, Node(Black, Nil, 10, Node(Red, Nil, 11, Nil))));
  }

  lemma DemoStep5()
    ensures Insert(RBTree(Node(Black, Node(Black, Nil, 3, Nil), 5, Node(Black, Nil, 10, Node(Red, Nil, 11, Nil))), SentinelParent), 2)
      == Ok(RBTree(Node(Black, Node(Black, Node(Red, Nil, 2, Nil), 3, Nil), 5, Node(Black, Nil, 10, Node(Red, Nil, 11, Nil))), SentinelParent))
  {
    var path := [Frame(Left, Black, 3, Nil), Frame(Left, Black, 5, Node(Black, Nil, 10, Node(Red, Nil, 11, Nil)))];
    assert Descend(Node(Black, Node(Black, Nil, 3, Nil), 5, Node(Black, Nil, 10, Node(Red, Nil, 11, Nil))), 2, []) == path;
    assert FixUpLoop(NewLeaf(2), path, SentinelParent) == Ok(Node(Black, Node(Black, Node(Red, Nil, 2, Nil), 3, Nil), 5, Node(Black, Nil, 10, Node(Red, Nil, 11, Nil))));
  }

  lemma DemoStep6()
    ensures Insert(RBTree(Node(Black, Node(Black, Node(Red, Nil, 2, Nil), 3, Nil), 5, Node(Black, Nil, 10, Node(Red, Nil, 11, Nil))), SentinelParent), 4)
      == Ok(RBTree(Node(Black, Node(Black, Node(Red, Nil, 2, Nil), 3, Node(Red, Nil, 4, Nil)), 5, Node(Black, Nil, 10, Node(Red, Nil, 11, Nil))), SentinelParent))
  {
    var path := [Frame(Right, Black, 3, Node(Red, Nil, 2, Nil)), Frame(Left, Black, 5, Node(Black, Nil, 10, Node(Red, Nil, 11, Nil)))];
    assert Descend(Node(Black, Node(Black, Node(Red, Nil, 2, Nil), 3, Nil), 5, Node(Black, Nil, 10, Node(Red, Nil, 11, Nil))), 4, []) == path;
    assert FixUpLoop(NewLeaf(4), path, SentinelParent) == Ok(Node(Black, Node(Black, Node(Red, Nil, 2, Nil), 3, Node(Red, Nil, 4, Nil)), 5, Node(Black, Nil, 10, Node(Red, Nil, 11, Nil))));
  }

  lemma DemoStep7()
    ensures Insert(RBTree(Node(Black, Node(Black, Node(Red, Nil, 2, Nil), 3, Node(Red, Nil, 4, Nil)), 5, Node(Black, Nil, 10, Node(Red, Nil, 11, Nil))), SentinelParent), 8)
      == Ok(RBTree(Node(Black, Node(Black, Node(Red, Nil, 2, Nil), 3, Node(Red, Nil, 4, Nil)), 5, Node(Black, Node(Red, Nil, 8, Nil), 10, Node(Red, Nil, 11, Nil))), SentinelParent))
  {
    var path := [Frame(Left, Black, 10, Node(Red, Nil, 11, Nil)), Frame(Right, Black, 5, Node(Black, Node(Red, Nil, 2, Nil), 3, Node(Red, Nil, 4, Nil)))];
    assert Descend(Node(Black, Node(Black, Node(Red, Nil, 2, Nil), 3, Node(Red, Nil, 4, Nil)), 5, Node(Black, Nil, 10, Node(Red, Nil, 11, Nil))), 8, []) == path;
    assert FixUpLoop(NewLeaf(8), path, SentinelParent) == Ok(Node(Black, Node(Black, Node(Red, Nil, 2, Nil), 3, Node(Red, Nil, 4, Nil)), 5, Node(Black, Node(Red, Nil, 8, Nil), 10, Node(Red, Nil, 11, Nil))));
  }

  lemma DemoStep8()
    ensures Insert(RBTree(Node(Black, Node(Black, Node(Red, Nil, 2, Nil), 3, Node(Red, Nil, 4, Nil)), 5, Node(Black, Node(Red, Nil, 8, Nil), 10, Node(Red, Nil, 11, Nil))), SentinelParent), 7)
      == Ok(RBTree(Node(Black, Node(Black, Node(Red, Nil, 2, Nil), 3, Node(Red, Nil, 4, Nil)), 5, Node(Red, Node(Black, Node(Red, Nil, 7, Nil), 8, Nil), 10, Node(Black, Nil, 11, Nil))), SentinelParent))
  {
    var path := [Frame(Left, Red, 8, Nil), Frame(Left, Black, 10, Node(Red, Nil, 11, Nil)), Frame(Right, Black, 5, Node(Black, Node(Red, Nil, 2, Nil), 3, Node(Red, Nil, 4, Nil)))];
    assert Descend(Node(Black, Node(Black, Node(Red, Nil, 2, Nil), 3, Node(Red, Nil, 4, Nil)), 5, Node(Black, Node(Red, Nil, 8, Nil), 10, Node(Red, Nil, 11, Nil))), 7, []) == path;
    assert FixUpLoop(NewLeaf(7), path, SentinelParent) == Ok(Node(Black, Node(Black, Node(Red, Nil, 2, Nil), 3, Node(Red, Nil, 4, Nil)), 5, Node(Red, Node(Black, Node(Red, Nil, 7, Nil), 8, Nil), 10, Node(Black, Nil, 11, Nil))));
  }

  lemma DemoStep9()
    ensures Insert(RBTree(Node(Black, Node(Black, Node(Red, Nil, 2, Nil), 3, Node(Red, Nil, 4, Nil)), 5, Node(Red, Node(Black, Node(Red, Nil, 7, Nil), 8, Nil), 10, Node(Black, Nil, 11, Nil))), SentinelParent), 1)
      == Ok(RBTree(Node(Black, Node(Red, Node(Black, Node(Red, Nil, 1, Nil), 2, Nil), 3, Node(Black, Nil, 4, Nil)), 5, Node(Red, Node(Black, Node(Red, Nil, 7, Nil), 8, Nil), 10, Node(Black, Nil, 11, Nil))), SentinelParent))
  {
    var path := [Frame(Left, Red, 2, Nil), Frame(Left, Black, 3, Node(Red, Nil, 4, Nil)), Frame(Left, Black, 5, Node(Red, Node(Black, Node(Red, Nil, 7, Nil), 8, Nil), 10, Node(Black, Nil, 11, Nil)))];
    assert Descend(Node(Black, Node(Black, Node(Red, Nil, 2, Nil), 3, Node(Red, Nil, 4, Nil)), 5, Node(Red, Node(Black, Node(Red, Nil, 7, Nil), 8, Nil), 10, Node(Black, Nil, 11, Nil))), 1, []) == path;
    assert FixUpLoop(NewLeaf(1), path, SentinelParent) == Ok(Node(Black, Node(Red, Node(Black, Node(Red, Nil, 1, Nil), 2, Nil), 3, Node(Black, Nil, 4, Nil)), 5, Node(Red, Node(Black, Node(Red, Nil, 7, Nil), 8, Nil), 10, Node(Black, Nil, 11, Nil))));
  }

  lemma DemoStep10()
    ensures Insert(RBTree(Node(Black, Node(Red, Node(Black, Node(Red, Nil, 1, Nil), 2, Nil), 3, Node(Black, Nil, 4, Nil)), 5, Node(Red, Node(Black, Node(Red, Nil, 7, Nil), 8, Nil), 10, Node(Black, Nil, 11, Nil))), SentinelParent), 6)
      == Ok(RBTree(Node(Black, Node(Red, Node(Black, Node(Red, Nil, 1, Nil), 2, Nil), 3, Node(Black, Nil, 4, Nil)), 5, Node(Red, Node(Black, Node(Red, Nil, 6, Nil), 7, Node(Red, Nil, 8, Nil)), 10, Node(Black, Nil, 11, Nil))), SentinelParent))
  {
    var path := [Frame(Left, Red, 7, Nil), Frame(Left, Black, 8, Nil), Frame(Left, Red, 10, Node(Black, Nil, 11, Nil)), Frame(Right, Black, 5, Node(Red, Node(Black, Node(Red, Nil, 1, Nil), 2, Nil), 3, Node(Black, Nil, 4, Nil)))];
    assert Descend(Node(Black, Node(Red, Node(Black, Node(Red, Nil, 1, Nil), 2, Nil), 3, Node(Black, Nil, 4, Nil)), 5, Node(Red, Node(Black, Node(Red, Nil, 7, Nil), 8, Nil), 10, Node(Black, Nil, 11, Nil))), 6, []) == path;
    assert FixUpLoop(NewLeaf(6), path, SentinelParent) == Ok(Node(Black, Node(Red, Node(Black, Node(Red, Nil, 1, Nil), 2, Nil), 3, Node(Black, Nil, 4, Nil)), 5, Node(Red, Node(Black, Node(Red, Nil, 6, Nil), 7, Node(Red, Nil, 8, Nil)), 10, Node(Black, Nil, 11, Nil))));
  }

  lemma DemoStep11()
    ensures Insert(RBTree(Node(Black, Node(Red, Node(Black, Node(Red, Nil, 1, Nil), 2, Nil), 3, Node(Black, Nil, 4, Nil)), 5, Node(Red, Node(Black, Node(Red, Nil, 6, Nil), 7, Node(Red, Nil, 8, Nil)), 10, Node(Black, Nil, 11, Nil))), SentinelParent), 9)
      == Ok(RBTree(Node(Black, Node(Black, Node(Black, Node(Red, Nil, 1, Nil), 2, Nil), 3, Node(Black, Nil, 4, Nil)), 5, Node(Black, Node(Red, Node(Black, Nil, 6, Nil), 7, Node(Black, Nil, 8, Node(Red, Nil, 9, Nil))), 10, Node(Black, Nil, 11, Nil))), SentinelParent))
  {
    var path := [Frame(Right, Red, 8, Nil), Frame(Right, Black, 7, Node(Red, Nil, 6, Nil)), Frame(Left, Red, 10, Node(Black, Nil, 11, Nil)), Frame(Right, Black, 5, Node(Red, Node(Black, Node(Red, Nil, 1, Nil), 2, Nil), 3, Node(Black, Nil, 4, Nil)))];
    assert Descend(Node(Black, Node(Red, Node(Black, Node(Red, Nil, 1, Nil), 2, Nil), 3, Node(Black, Nil, 4, Nil)), 5, Node(Red, Node(Black, Node(Red, Nil, 6, Nil), 7, Node(Red, Nil, 8, Nil)), 10, Node(Black, Nil, 11, Nil))), 9, []) == path;
    assert FixUpLoop(NewLeaf(9), path, SentinelParent) == Ok(Node(Red, Node(Black, Node(Black, Node(Red, Nil, 1, Nil), 2, Nil), 3, Node(Black, Nil, 4, Nil)), 5, Node(Black, Node(Red, Node(Black, Nil, 6, Nil), 7, Node(Black, Nil, 8, Node(Red, Nil, 9, Nil))), 10, Node(Black, Nil, 11, Nil))));
  }
}
