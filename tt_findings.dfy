/**
 * Inputs on which the 2-3 tree of src/TTNode.java, as written, loses or
 * misplaces pairs, each next to what the corrected functions of
 * TTInsertion and TTRemoval do on the same input. Pairs are written P(k)
 * for the pair with key and value k.
 */
module TTFindings {
  import opened Wrappers
  import opened TTNodes
  import opened TTOrder
  import opened TTShapes
  import opened TTInsertion
  import opened TTRemoval

  function P(k: int): Pair {
    Pair(k, k)
  }

  function Two(x: int, y: int): Tree {
    Node(Some(P(x)), Some(P(y)), Nil, Nil, Nil)
  }

  /** Inserting 10, 20, 5 and 7 into an empty tree as written. */
  lemma FirstFourInserts()
    ensures TreeInsert(TreeInsert(TreeInsert(TreeInsert(Nil, P(10)), P(20)), P(5)), P(7)) ==
            LeftSplitTree()
  {
    var t1 := Leaf(P(10));
    var t2 := TreeInsert(t1, P(20));
    assert t2 == Two(10, 20);
    var t3 := TreeInsert(t2, P(5));
    assert t3 == Node(Some(P(10)), None, Leaf(P(5)), Leaf(P(20)), Nil);
  }

  // ---------------------------------------------------------------
  // add, one-key node, pair going left
  // ---------------------------------------------------------------

  function LeftSplitTree(): Tree {
    Node(Some(P(10)), None, Two(5, 7), Leaf(P(20)), Nil)
  }

  lemma LeftSplitTreeValid()
    ensures Balanced(LeftSplitTree(), 2)
    ensures InOrder(LeftSplitTree()) == [P(5), P(7), P(10), P(20)]
    ensures StrictlySorted(InOrder(LeftSplitTree()))
  {
    var s := [P(5), P(7), P(10), P(20)];
    assert InOrder(LeftSplitTree()) == s;
    assert forall i, j :: 0 <= i < j < |s| ==> s[i].key < s[j].key;
  }

  lemma LeftSplitInserts()
    ensures TreeInsert(LeftSplitTree(), P(3)) == Node(Some(P(5)), Some(P(10)), Leaf(P(7)), Leaf(P(7)), Leaf(P(20)))
    ensures TreeInsertFixed(LeftSplitTree(), P(3)) == Node(Some(P(5)), Some(P(10)), Leaf(P(3)), Leaf(P(7)), Leaf(P(20)))
  {
    assert InsertHelp(Two(5, 7), P(3)) == AddResult(Node(Some(P(5)), None, Leaf(P(3)), Leaf(P(7)), Nil), Leaf(P(7)), true);
    assert InsertHelpFixed(Two(5, 7), P(3)) == AddResult(Node(Some(P(5)), None, Leaf(P(3)), Leaf(P(7)), Nil), Leaf(P(7)), true);
  }

  /**
   * add, one-key node, pair going left (TTNode.java 476-483): after 10, 20,
   * 5 and 7, inserting 3 splits the leaf [5, 7]; the parent keeps its old
   * left child, now the leaf [7], so 3 is lost and 7 appears twice.
   */
  lemma OneKeyAddLosesPair()
    ensures Balanced(LeftSplitTree(), 2) && StrictlySorted(InOrder(LeftSplitTree()))
    ensures InOrder(TreeInsert(LeftSplitTree(), P(3))) == [P(7), P(5), P(7), P(10), P(20)]
    ensures InOrder(TreeInsertFixed(LeftSplitTree(), P(3))) == [P(3), P(5), P(7), P(10), P(20)]
  {
    LeftSplitTreeValid();
    LeftSplitInserts();
  }

  // ---------------------------------------------------------------
  // add, two-key node, split child in the middle
  // ---------------------------------------------------------------

  function MiddleSplitTree(): Tree {
    Node(Some(P(10)), Some(P(20)), Leaf(P(5)), Two(13, 17), Leaf(P(25)))
  }

  lemma MiddleSplitTreeValid()
    ensures Balanced(MiddleSplitTree(), 2)
    ensures InOrder(MiddleSplitTree()) == [P(5), P(10), P(13), P(17), P(20), P(25)]
    ensures StrictlySorted(InOrder(MiddleSplitTree()))
  {
    var s := [P(5), P(10), P(13), P(17), P(20), P(25)];
    assert InOrder(MiddleSplitTree()) == s;
    assert forall i, j :: 0 <= i < j < |s| ==> s[i].key < s[j].key;
  }

  lemma MiddleSplitAsWritten()
    ensures TreeInsert(MiddleSplitTree(), P(12)) ==
            Node(Some(P(13)), None, Node(Some(P(10)), None, Leaf(P(5)), Leaf(P(17)), Nil),
                 Node(Some(P(20)), None, Leaf(P(17)), Leaf(P(25)), Nil), Nil)
    ensures InOrder(TreeInsert(MiddleSplitTree(), P(12))) == [P(5), P(10), P(17), P(13), P(17), P(20), P(25)]
  {
    assert InsertHelp(Two(13, 17), P(12)) == AddResult(Node(Some(P(13)), None, Leaf(P(12)), Leaf(P(17)), Nil), Leaf(P(17)), true);
  }

  lemma MiddleSplitFixed()
    ensures TreeInsertFixed(MiddleSplitTree(), P(12)) ==
            Node(Some(P(13)), None, Node(Some(P(10)), None, Leaf(P(5)), Leaf(P(12)), Nil),
                 Node(Some(P(20)), None, Leaf(P(17)), Leaf(P(25)), Nil), Nil)
    ensures InOrder(TreeInsertFixed(MiddleSplitTree(), P(12))) == [P(5), P(10), P(12), P(13), P(17), P(20), P(25)]
  {
    assert InsertHelpFixed(Two(13, 17), P(12)) == AddResult(Node(Some(P(13)), None, Leaf(P(12)), Leaf(P(17)), Nil), Leaf(P(17)), true);
  }

  /**
   * add, two-key node, split child in the middle (TTNode.java 508-523):
   * inserting 12 into [10, 20] / [5], [13, 17], [25] splits the center
   * leaf; the new left node keeps the stale center child [17], so 12 is
   * lost and 17 appears twice.
   */
  lemma MiddleSplitLosesPair()
    ensures Balanced(MiddleSplitTree(), 2) && StrictlySorted(InOrder(MiddleSplitTree()))
    ensures InOrder(TreeInsert(MiddleSplitTree(), P(12))) == [P(5), P(10), P(17), P(13), P(17), P(20), P(25)]
    ensures InOrder(TreeInsertFixed(MiddleSplitTree(), P(12))) == [P(5), P(10), P(12), P(13), P(17), P(20), P(25)]
  {
    MiddleSplitTreeValid();
    MiddleSplitAsWritten();
    MiddleSplitFixed();
  }

  // ---------------------------------------------------------------
  // add, two-key node, split child on the right
  // ---------------------------------------------------------------

  function RightSplitTree(): Tree {
    Node(Some(P(10)), Some(P(20)), Leaf(P(5)), Leaf(P(15)), Two(25, 30))
  }

  lemma RightSplitTreeValid()
    ensures Balanced(RightSplitTree(), 2)
    ensures InOrder(RightSplitTree()) == [P(5), P(10), P(15), P(20), P(25), P(30)]
    ensures StrictlySorted(InOrder(RightSplitTree()))
  {
    var s := [P(5), P(10), P(15), P(20), P(25), P(30)];
    assert InOrder(RightSplitTree()) == s;
    assert forall i :: 0 <= i < |s| ==> s[i].key == 5 * i + 5;
  }

  lemma RightSplitAsWritten()
    ensures TreeInsert(RightSplitTree(), P(22)) ==
            Node(Some(P(20)), None, Node(Some(P(10)), None, Leaf(P(5)), Leaf(P(15)), Nil),
                 Node(Some(P(25)), None, Leaf(P(30)), Leaf(P(30)), Nil), Nil)
    ensures InOrder(TreeInsert(RightSplitTree(), P(22))) == [P(5), P(10), P(15), P(20), P(30), P(25), P(30)]
  {
    assert InsertHelp(Two(25, 30), P(22)) == AddResult(Node(Some(P(25)), None, Leaf(P(22)), Leaf(P(30)), Nil), Leaf(P(30)), true);
  }

  lemma RightSplitFixed()
    ensures TreeInsertFixed(RightSplitTree(), P(22)) ==
            Node(Some(P(20)), None, Node(Some(P(10)), None, Leaf(P(5)), Leaf(P(15)), Nil),
                 Node(Some(P(25)), None, Leaf(P(22)), Leaf(P(30)), Nil), Nil)
    ensures InOrder(TreeInsertFixed(RightSplitTree(), P(22))) == [P(5), P(10), P(15), P(20), P(22), P(25), P(30)]
  {
    assert InsertHelpFixed(Two(25, 30), P(22)) == AddResult(Node(Some(P(25)), None, Leaf(P(22)), Leaf(P(30)), Nil), Leaf(P(30)), true);
  }

  /**
   * add, two-key node, split child on the right (TTNode.java 524-533):
   * inserting 22 into [10, 20] / [5], [15], [25, 30] splits the right
   * leaf; the node handed up gets the stale right child [30] in place of
   * its own left child, so 22 is lost and 30 appears twice.
   */
  lemma RightSplitLosesPair()
    ensures Balanced(RightSplitTree(), 2) && StrictlySorted(InOrder(RightSplitTree()))
    ensures InOrder(TreeInsert(RightSplitTree(), P(22))) == [P(5), P(10), P(15), P(20), P(30), P(25), P(30)]
    ensures InOrder(TreeInsertFixed(RightSplitTree(), P(22))) == [P(5), P(10), P(15), P(20), P(22), P(25), P(30)]
  {
    RightSplitTreeValid();
    RightSplitAsWritten();
    RightSplitFixed();
  }

  // ---------------------------------------------------------------
  // removeHelper, right key of an internal node
  // ---------------------------------------------------------------

  function RightKeyTree(): Tree {
    Node(Some(P(10)), Some(P(20)), Leaf(P(5)), Leaf(P(15)), Leaf(P(25)))
  }

  lemma RightKeyTreeValid()
    ensures Balanced(RightKeyTree(), 2)
    ensures InOrder(RightKeyTree()) == [P(5), P(10), P(15), P(20), P(25)]
    ensures StrictKeys(InOrder(RightKeyTree()))
  {
    var s := [P(5), P(10), P(15), P(20), P(25)];
    assert InOrder(RightKeyTree()) == s;
    assert forall i :: 0 <= i < |s| ==> s[i].key == 5 * i + 5;
  }

  lemma RemoveTwenty(y: seq<Pair>)
    requires y == [P(20), P(25)]
    ensures Lookup(y, 20) == Some(20) && RemoveKey(y, 20) == [P(25)]
  {
    assert y[0].key == 20 && y[1..] == [P(25)];
  }

  lemma RemoveTwentyAfter(s: seq<Pair>, x: seq<Pair>, y: seq<Pair>)
    requires x == [P(5), P(10), P(15)] && y == [P(20), P(25)] && s == x + y
    ensures Lookup(s, 20) == Some(20) && RemoveKey(s, 20) == x + [P(25)]
  {
    RemoveKeyAfter(x, y, 20);
    RemoveTwenty(y);
  }

  lemma RightKeyTreeRemoveKey()
    ensures Lookup([P(5), P(10), P(15), P(20), P(25)], 20) == Some(20)
    ensures RemoveKey([P(5), P(10), P(15), P(20), P(25)], 20) == [P(5), P(10), P(15), P(25)]
  {
    var x, y := [P(5), P(10), P(15)], [P(20), P(25)];
    assert x + [P(25)] == [P(5), P(10), P(15), P(25)] && x + y == [P(5), P(10), P(15), P(20), P(25)];
    RemoveTwentyAfter([P(5), P(10), P(15), P(20), P(25)], x, y);
  }

  /**
   * removeHelper, right key of an internal node (TTNode.java 313-326):
   * removing 20 from [10, 20] / [5], [15], [25] returns null, keeps 20,
   * puts 25 in front of it and gives key 10 the value of 20.
   */
  lemma RightKeyRemovalMisses()
    ensures RemoveHelper(RightKeyTree(), 20) ==
            RemoveResult(None, Node(Some(P(25)), Some(P(20)), Leaf(P(5)), Leaf(P(15)), Leaf(Pair(10, 20))))
  {
    assert RemoveHelper(Leaf(Pair(10, 20)), 20) == RemoveResult(None, Leaf(Pair(10, 20)));
  }

  /** The corrected removal on the same tree returns 20's value and drops only that pair. */
  lemma RightKeyRemovalFixed()
    ensures Balanced(RightKeyTree(), 2) && StrictKeys(InOrder(RightKeyTree()))
    ensures RemoveHelperFixed(RightKeyTree(), 20).value == Some(20)
    ensures InOrder(RemoveHelperFixed(RightKeyTree(), 20).self) == [P(5), P(10), P(15), P(25)]
  {
    RightKeyTreeValid();
    RightKeyTreeRemoveKey();
    RemoveFixedContents(RightKeyTree(), 2, 20);
  }
}
