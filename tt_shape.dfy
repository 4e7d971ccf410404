/**
 * Shape facts about the 2-3 tree of src/TTNode.java: a balanced tree is
 * well shaped and its height is its depth, the successor leaf holds the
 * first pair of a subtree, every repair rebalanceChildren chooses leaves
 * the in-order sequence alone and gives back a balanced node (or one
 * empty node above a balanced subtree), and the range search returns the
 * values whose keys lie in the range.
 */
module TTShapes {
  import opened Wrappers
  import opened TTNodes
  import opened TTOrder

  /** What a removal leaves a subtree of height h as. */
  predicate BalancedOrUnderfull(t: Tree, h: nat) {
    Balanced(t, h) || Underfull(t, h)
  }

  lemma {:induction false} BalancedWellShaped(t: Tree, h: nat)
    requires Balanced(t, h)
    ensures WellShaped(t)
  {
    if h > 1 {
      BalancedWellShaped(t.left, h - 1);
      BalancedWellShaped(t.center, h - 1);
      if t.rkv.Some? {
        BalancedWellShaped(t.right, h - 1);
      }
    }
  }

  /** height returns the depth of every leaf of a balanced tree. */
  lemma {:induction false} HeightBalanced(t: Tree, h: nat)
    requires Balanced(t, h)
    ensures WellShaped(t) && Height(t) == h
  {
    BalancedWellShaped(t, h);
    if h > 1 {
      HeightBalanced(t.left, h - 1);
    }
  }

  /** A balanced tree holds 2^(h-1) to 3^(h-1) nodes' worth of pairs: at least h of them. */
  lemma {:induction false} BalancedNonEmpty(t: Tree, h: nat)
    requires Balanced(t, h)
    ensures |InOrder(t)| >= h
  {
    if h > 1 {
      BalancedNonEmpty(t.left, h - 1);
    }
  }

  /** The successor leaf's left pair is the first pair of the subtree. */
  lemma {:induction false} LeftmostLeafFirst(t: Tree, h: nat)
    requires Balanced(t, h)
    ensures WellShaped(t) && |InOrder(t)| > 0 && LeftmostLeaf(t).lkv == Some(InOrder(t)[0])
  {
    BalancedWellShaped(t, h);
    InOrderSplitLeft(t);
    var rest := Keys(t.lkv) + InOrder(t.center) + Keys(t.rkv) + InOrder(t.right);
    if h > 1 {
      LeftmostLeafFirst(t.left, h - 1);
      assert (InOrder(t.left) + rest)[0] == InOrder(t.left)[0];
    } else {
      assert InOrder(t.left) == [] && rest[0] == t.lkv.value;
    }
  }

  /** Replacing the successor leaf's left pair keeps the subtree balanced. */
  lemma {:induction false} SetLeftmostBalanced(t: Tree, h: nat, p: Pair)
    requires Balanced(t, h)
    ensures WellShaped(t) && Balanced(SetLeftmost(t, p), h)
  {
    BalancedWellShaped(t, h);
    if h > 1 {
      SetLeftmostBalanced(t.left, h - 1, p);
      assert SetLeftmost(t, p) == t.(left := SetLeftmost(t.left, p));
    }
  }

  /** Replacing the successor leaf's left pair replaces the first pair of the subtree. */
  lemma {:induction false} SetLeftmostInOrder(t: Tree, h: nat, p: Pair)
    requires Balanced(t, h)
    ensures WellShaped(t) && InOrder(SetLeftmost(t, p)) == [p] + InOrder(t)[1..]
  {
    BalancedWellShaped(t, h);
    var Node(l, r, a, b, c) := t;
    if h > 1 {
      SetLeftmostInOrder(a, h - 1, p);
      BalancedNonEmpty(a, h - 1);
      var a' := SetLeftmost(a, p);
      var rest := Keys(l) + InOrder(b) + Keys(r) + InOrder(c);
      assert SetLeftmost(t, p) == Node(l, r, a', b, c);
      InOrderSplitLeft(Node(l, r, a', b, c));
      InOrderSplitLeft(t);
      ReplaceHead(InOrder(a), rest, p);
    }
  }

  lemma InOrderSplitLeft(t: Tree)
    requires t.Node?
    ensures InOrder(t) == InOrder(t.left) + (Keys(t.lkv) + InOrder(t.center) + Keys(t.rkv) + InOrder(t.right))
  {
  }

  lemma InOrderSplitCenter(t: Tree)
    requires t.Node?
    ensures InOrder(t) == (InOrder(t.left) + Keys(t.lkv)) + (InOrder(t.center) + (Keys(t.rkv) + InOrder(t.right)))
  {
    RegroupCenter(InOrder(t.left), Keys(t.lkv), InOrder(t.center), Keys(t.rkv), InOrder(t.right));
  }

  lemma RegroupCenter(a: seq<Pair>, l: seq<Pair>, b: seq<Pair>, r: seq<Pair>, c: seq<Pair>)
    ensures a + l + b + r + c == (a + l) + (b + (r + c))
  {
  }

  lemma ReplaceHead(x: seq<Pair>, rest: seq<Pair>, p: Pair)
    requires |x| > 0
    ensures [p] + x[1..] + rest == [p] + (x + rest)[1..]
  {
    assert (x + rest)[1..] == x[1..] + rest;
  }

  // ---------------------------------------------------------------
  // Rebalancing
  // ---------------------------------------------------------------

  /** The children a node may have after one of them was removed from. */
  predicate ChildrenAfterRemoval(t: Tree, h: nat) {
    h >= 2 && t.Node? && t.lkv.Some? &&
    BalancedOrUnderfull(t.left, h - 1) && BalancedOrUnderfull(t.center, h - 1) &&
    (if t.rkv.Some? then BalancedOrUnderfull(t.right, h - 1) else t.right == Nil) &&
    !(Underfull(t.left, h - 1) && Underfull(t.center, h - 1)) &&
    !(Underfull(t.left, h - 1) && Underfull(t.right, h - 1)) &&
    !(Underfull(t.center, h - 1) && Underfull(t.right, h - 1))
  }

  /** Rebalancing a node with no empty child changes nothing. */
  lemma RebalanceNoEmpty(t: Tree)
    requires t.Node? && !IsEmpty(t.left) && !IsEmpty(t.center) && !IsEmpty(t.right)
    ensures RebalanceChildren(t) == t
  {
  }

  /**
   * rebalanceChildren repairs a node whose one child was left empty by a
   * removal: the node comes back balanced at its height, or empty above a
   * balanced subtree, with its in-order sequence unchanged.
   */
  lemma RebalanceCorrect(t: Tree, h: nat)
    requires ChildrenAfterRemoval(t, h)
    ensures RebalanceShape(t)
    ensures BalancedOrUnderfull(RebalanceChildren(t), h)
    ensures InOrder(RebalanceChildren(t)) == InOrder(t)
  {
    if Underfull(t.left, h - 1) {
      RebalanceLeftEmpty(t, h);
    } else if Underfull(t.center, h - 1) {
      RebalanceCenterEmpty(t, h);
    } else if t.rkv.Some? && Underfull(t.right, h - 1) {
      RebalanceRightEmpty(t, h);
    } else {
      RebalanceNoEmpty(t);
    }
  }

  /** A node emptied by a removal: no keys and at most a left child. */
  predicate EmptyShape(n: Tree) {
    n.Node? && n.lkv.None? && n.rkv.None? && n.center == Nil && n.right == Nil
  }

  /** A node with one key: no right key and no right child. */
  predicate OneKey(n: Tree) {
    n.Node? && n.lkv.Some? && n.rkv.None? && n.right == Nil
  }

  lemma InOrderEmptyShape(n: Tree)
    requires EmptyShape(n)
    ensures InOrder(n) == InOrder(n.left)
  {
    assert InOrder(n) == InOrder(n.left) + [] + [] + [] + [];
  }

  lemma InOrderTwoNode(n: Tree)
    requires n.Node? && n.rkv.None? && n.right == Nil
    ensures InOrder(n) == InOrder(n.left) + Keys(n.lkv) + InOrder(n.center)
  {
    assert InOrder(n) == InOrder(n.left) + Keys(n.lkv) + InOrder(n.center) + [] + [];
  }

  /** Turning a key counter-clockwise into an empty left child keeps the in-order sequence. */
  lemma RotateCounterClockwiseCenterInOrder(t: Tree)
    requires t.Node? && EmptyShape(t.left) && t.center.Node?
    ensures InOrder(RotateCounterClockwise(t, true)) == InOrder(t)
  {
    var Node(l, r, a, b, c) := t;
    var t' := RotateCounterClockwise(t, true);
    InOrderEmptyShape(a);
    InOrderTwoNode(t'.left);
    InOrderTwoNode(t'.center);
    Regroup1(InOrder(a.left), Keys(l), InOrder(b.left), Keys(b.lkv), InOrder(b.center), Keys(b.rkv), InOrder(b.right),
             Keys(r), InOrder(c));
  }

  lemma Regroup1(x: seq<Pair>, l: seq<Pair>, b1: seq<Pair>, bl: seq<Pair>, b2: seq<Pair>, br: seq<Pair>, b3: seq<Pair>,
                 r: seq<Pair>, c: seq<Pair>)
    ensures x + l + (b1 + bl + b2 + br + b3) + r + c == (x + l + b1) + bl + (b2 + br + b3) + r + c
  {
  }

  /** Turning a key counter-clockwise into an empty center child keeps the in-order sequence. */
  lemma RotateCounterClockwiseRightInOrder(t: Tree)
    requires t.Node? && EmptyShape(t.center) && t.right.Node?
    ensures InOrder(RotateCounterClockwise(t, false)) == InOrder(t)
  {
    var Node(l, r, a, b, c) := t;
    var t' := RotateCounterClockwise(t, false);
    InOrderEmptyShape(b);
    InOrderTwoNode(t'.center);
    InOrderTwoNode(t'.right);
    Regroup2(InOrder(a) + Keys(l), InOrder(b.left), Keys(r), InOrder(c.left), Keys(c.lkv), InOrder(c.center), Keys(c.rkv),
             InOrder(c.right));
  }

  lemma Regroup2(front: seq<Pair>, x: seq<Pair>, r: seq<Pair>, c1: seq<Pair>, cl: seq<Pair>, c2: seq<Pair>, cr: seq<Pair>, c3: seq<Pair>)
    ensures front + x + r + (c1 + cl + c2 + cr + c3) == front + (x + r + c1) + cl + (c2 + cr + c3)
  {
  }

  /** Turning a key clockwise into an empty right child keeps the in-order sequence. */
  lemma RotateClockwiseCenterInOrder(t: Tree)
    requires t.Node? && EmptyShape(t.right) && HasKey(t.center)
    requires t.center.rkv.None? ==> t.center.right == Nil
    ensures InOrder(RotateClockwise(t, true)) == InOrder(t)
  {
    var Node(l, r, a, b, c) := t;
    var t' := RotateClockwise(t, true);
    InOrderEmptyShape(c);
    InOrderTwoNode(t'.right);
    var front := InOrder(a) + Keys(l);
    if b.rkv.Some? {
      InOrderTwoNode(t'.center);
      Regroup3(front, InOrder(b.left), Keys(b.lkv), InOrder(b.center), Keys(b.rkv), InOrder(b.right), Keys(r), InOrder(c.left));
    } else {
      assert InOrder(t'.center) == InOrder(b.left) + [] + [] + [] + [];
      Regroup4(front, InOrder(b.left), Keys(b.lkv), InOrder(b.center), Keys(r), InOrder(c.left));
    }
  }

  lemma Regroup3(front: seq<Pair>, b1: seq<Pair>, bl: seq<Pair>, b2: seq<Pair>, br: seq<Pair>, b3: seq<Pair>, r: seq<Pair>, x: seq<Pair>)
    ensures front + (b1 + bl + b2 + br + b3) + r + x == front + (b1 + bl + b2) + br + (b3 + r + x)
  {
  }

  lemma Regroup4(front: seq<Pair>, b1: seq<Pair>, bl: seq<Pair>, b2: seq<Pair>, r: seq<Pair>, x: seq<Pair>)
    ensures front + (b1 + bl + b2 + [] + []) + r + x == front + (b1 + [] + [] + [] + []) + bl + (b2 + r + x)
  {
  }

  /** Turning a key clockwise into an empty center child keeps the in-order sequence. */
  lemma RotateClockwiseLeftInOrder(t: Tree)
    requires t.Node? && EmptyShape(t.center) && t.left.Node?
    ensures InOrder(RotateClockwise(t, false)) == InOrder(t)
  {
    var Node(l, r, a, b, c) := t;
    var t' := RotateClockwise(t, false);
    InOrderEmptyShape(b);
    InOrderTwoNode(t'.left);
    InOrderTwoNode(t'.center);
    Regroup5(InOrder(a.left), Keys(a.lkv), InOrder(a.center), Keys(a.rkv), InOrder(a.right), Keys(l), InOrder(b.left),
             Keys(r), InOrder(c));
  }

  lemma Regroup5(a1: seq<Pair>, al: seq<Pair>, a2: seq<Pair>, ar: seq<Pair>, a3: seq<Pair>, l: seq<Pair>, x: seq<Pair>,
                 r: seq<Pair>, c: seq<Pair>)
    ensures (a1 + al + a2 + ar + a3) + l + x + r + c == (a1 + al + a2) + ar + (a3 + l + x) + r + c
  {
  }

  /** Merging an empty center child into a one-key left sibling keeps the in-order sequence. */
  lemma MergeCenterIntoLeftInOrder(t: Tree)
    requires t.Node? && OneKey(t.left) && EmptyShape(t.center)
    ensures InOrder(Node(t.rkv, None, Node(t.left.lkv, t.lkv, t.left.left, t.left.center, t.center.left), t.right, Nil)) == InOrder(t)
    ensures InOrder(Node(None, t.rkv, Node(t.left.lkv, t.lkv, t.left.left, t.left.center, t.center.left), Nil, t.right)) == InOrder(t)
  {
    var Node(l, r, a, b, c) := t;
    InOrderEmptyShape(b);
    InOrderTwoNode(a);
    Regroup6(InOrder(a.left), Keys(a.lkv), InOrder(a.center), Keys(l), InOrder(b.left), Keys(r), InOrder(c));
  }

  lemma Regroup6(a1: seq<Pair>, al: seq<Pair>, a2: seq<Pair>, l: seq<Pair>, x: seq<Pair>, r: seq<Pair>, c: seq<Pair>)
    ensures (a1 + al + a2) + l + x + r + c == (a1 + al + a2 + l + x) + r + c + [] + []
    ensures (a1 + al + a2) + l + x + r + c == (a1 + al + a2 + l + x) + [] + [] + r + c
  {
  }

  /** Merging an empty left child with a one-key center sibling keeps the in-order sequence. */
  lemma MergeLeftIntoCenterInOrder(t: Tree)
    requires t.Node? && EmptyShape(t.left) && OneKey(t.center)
    ensures InOrder(Node(None, t.rkv, Node(t.lkv, t.center.lkv, t.left.left, t.center.left, t.center.center), Nil, t.right)) == InOrder(t)
  {
    var Node(l, r, a, b, c) := t;
    InOrderEmptyShape(a);
    InOrderTwoNode(b);
    Regroup7(InOrder(a.left), Keys(l), InOrder(b.left), Keys(b.lkv), InOrder(b.center), Keys(r), InOrder(c));
  }

  lemma Regroup7(x: seq<Pair>, l: seq<Pair>, b1: seq<Pair>, bl: seq<Pair>, b2: seq<Pair>, r: seq<Pair>, c: seq<Pair>)
    ensures x + l + (b1 + bl + b2) + r + c == (x + l + b1 + bl + b2) + [] + [] + r + c
  {
  }

  lemma UnderfullEmptyShape(n: Tree, h: nat)
    requires Underfull(n, h)
    ensures EmptyShape(n)
  {
  }

  lemma RebalanceLeftEmpty(t: Tree, h: nat)
    requires ChildrenAfterRemoval(t, h) && Underfull(t.left, h - 1)
    ensures RebalanceShape(t)
    ensures BalancedOrUnderfull(RebalanceChildren(t), h)
    ensures InOrder(RebalanceChildren(t)) == InOrder(t)
  {
    if IsFull(t.center) {
      LeftEmptyFullCenter(t, h);
    } else if IsFull(t.right) {
      LeftEmptyFullRight(t, h);
    } else if t.rkv.Some? {
      LeftEmptyMergeTwoKeys(t, h);
    } else {
      LeftEmptyMergeOneKey(t, h);
    }
  }

  /** The empty left child takes the left key, which the full center child replaces. */
  lemma LeftEmptyFullCenter(t: Tree, h: nat)
    requires ChildrenAfterRemoval(t, h) && Underfull(t.left, h - 1) && IsFull(t.center)
    ensures RebalanceShape(t)
    ensures BalancedOrUnderfull(RebalanceChildren(t), h)
    ensures InOrder(RebalanceChildren(t)) == InOrder(t)
  {
    var Node(l, r, a, b, c) := t;
    var x := a.left;
    var g := h - 1;
    var t' := Node(b.lkv, r, Node(l, None, x, b.left, Nil), Node(b.rkv, None, b.center, b.right, Nil), c);
    assert RebalanceChildren(t) == t' == RotateCounterClockwise(t, true);
    RotateCounterClockwiseCenterInOrder(t);
    assert Balanced(t'.left, g) && Balanced(t'.center, g);
    assert Balanced(t', h);
  }

  /** A full right child passes a key through the center child to the empty left child. */
  lemma LeftEmptyFullRight(t: Tree, h: nat)
    requires ChildrenAfterRemoval(t, h) && Underfull(t.left, h - 1) && !IsFull(t.center) && IsFull(t.right)
    ensures RebalanceShape(t)
    ensures BalancedOrUnderfull(RebalanceChildren(t), h)
    ensures InOrder(RebalanceChildren(t)) == InOrder(t)
  {
    var Node(l, r, a, b, c) := t;
    var x := a.left;
    var g := h - 1;
    var t1 := Node(b.lkv, r, Node(l, None, x, b.left, Nil), Node(None, None, b.center, Nil, Nil), c);
    assert RotateCounterClockwise(t, true) == t1;
    RotateCounterClockwiseCenterInOrder(t);
    var t' := Node(b.lkv, c.lkv, t1.left, Node(r, None, b.center, c.left, Nil), Node(c.rkv, None, c.center, c.right, Nil));
    assert RotateCounterClockwise(t1, false) == t';
    RotateCounterClockwiseRightInOrder(t1);
    assert BalanceSiblingWithTwoKeys(t1) == t';
    assert RebalanceChildren(t) == t';
    assert Balanced(t'.left, g) && Balanced(t'.center, g) && Balanced(t'.right, g);
    assert Balanced(t', h);
  }

  /** In a two-key node whose siblings have one key each, the empty left child merges with the center child. */
  lemma LeftEmptyMergeTwoKeys(t: Tree, h: nat)
    requires ChildrenAfterRemoval(t, h) && Underfull(t.left, h - 1) && !IsFull(t.center) && !IsFull(t.right) && t.rkv.Some?
    ensures RebalanceShape(t)
    ensures BalancedOrUnderfull(RebalanceChildren(t), h)
    ensures InOrder(RebalanceChildren(t)) == InOrder(t)
  {
    var Node(l, r, a, b, c) := t;
    var x := a.left;
    var g := h - 1;
    var t1 := Node(b.lkv, r, Node(l, None, x, b.left, Nil), Node(None, None, b.center, Nil, Nil), c);
    assert RotateCounterClockwise(t, true) == t1;
    RotateCounterClockwiseCenterInOrder(t);
    var t' := Node(r, None, Node(l, b.lkv, x, b.left, b.center), c, Nil);
    MergeCenterIntoLeftInOrder(t1);
    assert BalanceTwoSingletonSiblings(t1) == t';
    assert RebalanceChildren(t) == t';
    assert Balanced(t'.left, g);
    assert Balanced(t', h);
  }

  /** In a one-key node over a one-key center child, the two merge and the node is left empty. */
  lemma LeftEmptyMergeOneKey(t: Tree, h: nat)
    requires ChildrenAfterRemoval(t, h) && Underfull(t.left, h - 1) && !IsFull(t.center) && t.rkv.None?
    ensures RebalanceShape(t)
    ensures BalancedOrUnderfull(RebalanceChildren(t), h)
    ensures InOrder(RebalanceChildren(t)) == InOrder(t)
  {
    var Node(l, r, a, b, c) := t;
    var x := a.left;
    var g := h - 1;
    var t' := Node(None, None, Node(l, b.lkv, x, b.left, b.center), Nil, Nil);
    MergeLeftIntoCenterInOrder(t);
    assert RebalanceChildren(t) == t';
    assert Balanced(t'.left, g);
    assert Underfull(t', h);
  }

  lemma RebalanceCenterEmpty(t: Tree, h: nat)
    requires ChildrenAfterRemoval(t, h) && Underfull(t.center, h - 1)
    ensures RebalanceShape(t)
    ensures BalancedOrUnderfull(RebalanceChildren(t), h)
    ensures InOrder(RebalanceChildren(t)) == InOrder(t)
  {
    var Node(l, r, a, b, c) := t;
    var x := b.left;
    var g := h - 1;
    if IsFull(a) {
      var t' := Node(a.rkv, r, Node(a.lkv, None, a.left, a.center, Nil), Node(l, None, a.right, x, Nil), c);
      RotateClockwiseLeftInOrder(t);
      assert RebalanceChildren(t) == t' == RotateClockwise(t, false);
      assert Balanced(t'.left, g) && Balanced(t'.center, g);
      assert Balanced(t', h);
    } else if IsFull(c) {
      var t' := Node(l, c.lkv, a, Node(r, None, x, c.left, Nil), Node(c.rkv, None, c.center, c.right, Nil));
      RotateCounterClockwiseRightInOrder(t);
      assert RebalanceChildren(t) == t' == RotateCounterClockwise(t, false);
      assert Balanced(t'.center, g) && Balanced(t'.right, g);
      assert Balanced(t', h);
    } else if r.Some? {
      var t' := Node(r, None, Node(a.lkv, l, a.left, a.center, x), c, Nil);
      MergeCenterIntoLeftInOrder(t);
      assert RebalanceChildren(t) == t';
      assert Balanced(t'.left, g);
      assert Balanced(t', h);
    } else {
      var t' := Node(None, None, Node(a.lkv, l, a.left, a.center, x), Nil, Nil);
      MergeCenterIntoLeftInOrder(t);
      assert RebalanceChildren(t) == t';
      assert Balanced(t'.left, g);
      assert Underfull(t', h);
    }
  }

  lemma RebalanceRightEmpty(t: Tree, h: nat)
    requires ChildrenAfterRemoval(t, h) && t.rkv.Some? && Underfull(t.right, h - 1)
    ensures RebalanceShape(t)
    ensures BalancedOrUnderfull(RebalanceChildren(t), h)
    ensures InOrder(RebalanceChildren(t)) == InOrder(t)
  {
    var Node(l, r, a, b, c) := t;
    var x := c.left;
    var g := h - 1;
    if IsFull(b) {
      var t' := Node(l, b.rkv, a, Node(b.lkv, None, b.left, b.center, Nil), Node(r, None, b.right, x, Nil));
      RotateClockwiseCenterInOrder(t);
      assert RebalanceChildren(t) == t' == RotateClockwise(t, true);
      assert Balanced(t'.center, g) && Balanced(t'.right, g);
      assert Balanced(t', h);
    } else if IsFull(a) {
      var t1 := Node(l, b.lkv, a, Node(None, None, b.left, Nil, Nil), Node(r, None, b.center, x, Nil));
      assert RotateClockwise(t, true) == t1;
      RotateClockwiseCenterInOrder(t);
      var t' := Node(a.rkv, b.lkv, Node(a.lkv, None, a.left, a.center, Nil), Node(l, None, a.right, b.left, Nil), t1.right);
      assert RotateClockwise(t1, false) == t';
      RotateClockwiseLeftInOrder(t1);
      assert BalanceSiblingWithTwoKeys(t1) == t';
      assert RebalanceChildren(t) == t';
      assert Balanced(t'.left, g) && Balanced(t'.center, g) && Balanced(t'.right, g);
      assert Balanced(t', h);
    } else {
      var t1 := Node(l, b.lkv, a, Node(None, None, b.left, Nil, Nil), Node(r, None, b.center, x, Nil));
      assert RotateClockwise(t, true) == t1;
      RotateClockwiseCenterInOrder(t);
      var t' := Node(b.lkv, None, Node(a.lkv, l, a.left, a.center, b.left), t1.right, Nil);
      MergeCenterIntoLeftInOrder(t1);
      assert BalanceTwoSingletonSiblings(t1) == t';
      assert RebalanceChildren(t) == t';
      assert Balanced(t'.left, g) && Balanced(t'.center, g);
      assert Balanced(t', h);
    }
  }

  // ---------------------------------------------------------------
  // Range search
  // ---------------------------------------------------------------

  lemma KeySortedAround(x: seq<Pair>, m: Pair, y: seq<Pair>)
    requires KeySorted(x + [m] + y)
    ensures KeySorted(x) && KeySorted(y)
    ensures forall e :: e in x ==> e.key <= m.key
    ensures forall e :: e in y ==> m.key <= e.key
  {
    var s := x + [m] + y;
    forall i, j | 0 <= i < j < |x|
      ensures x[i].key <= x[j].key
    {
      assert s[i] == x[i] && s[j] == x[j];
    }
    forall i, j | 0 <= i < j < |y|
      ensures y[i].key <= y[j].key
    {
      assert s[|x| + 1 + i] == y[i] && s[|x| + 1 + j] == y[j];
    }
    forall e | e in x
      ensures e.key <= m.key
    {
      var i :| 0 <= i < |x| && x[i] == e;
      assert s[i] == e && s[|x|] == m;
    }
    forall e | e in y
      ensures m.key <= e.key
    {
      var j :| 0 <= j < |y| && y[j] == e;
      assert s[|x| + 1 + j] == e && s[|x|] == m;
    }
  }

  lemma RegroupOneKey(a: seq<Pair>, l: Pair, b: seq<Pair>)
    ensures a + [l] + b + [] + [] == a + [l] + b
  {
  }

  lemma RegroupTwoKeys(a: seq<Pair>, l: Pair, b: seq<Pair>, r: Pair, c: seq<Pair>)
    ensures a + [l] + b + [r] + c == a + [l] + (b + [r] + c)
  {
  }

  /** In a key-sorted node, each part's keys lie between the keys around it. */
  lemma NodeKeyOrder(t: Tree)
    requires t.Node? && t.lkv.Some? && (t.rkv.None? ==> t.right == Nil) && KeySorted(InOrder(t))
    ensures KeySorted(InOrder(t.left)) && KeySorted(InOrder(t.center)) && KeySorted(InOrder(t.right))
    ensures forall e :: e in InOrder(t.left) ==> e.key <= t.lkv.value.key
    ensures forall e :: e in InOrder(t.center) ==> t.lkv.value.key <= e.key
    ensures t.rkv.Some? ==> t.lkv.value.key <= t.rkv.value.key
    ensures t.rkv.Some? ==> forall e :: e in InOrder(t.center) ==> e.key <= t.rkv.value.key
    ensures t.rkv.Some? ==> forall e :: e in InOrder(t.right) ==> t.rkv.value.key <= e.key
    ensures forall e :: e in InOrder(t.right) ==> t.lkv.value.key <= e.key
  {
    var A, l, B, C := InOrder(t.left), t.lkv.value, InOrder(t.center), InOrder(t.right);
    if t.rkv.None? {
      RegroupOneKey(A, l, B);
      KeySortedAround(A, l, B);
    } else {
      var r := t.rkv.value;
      RegroupTwoKeys(A, l, B, r, C);
      KeySortedAround(A, l, B + [r] + C);
      KeySortedAround(B, r, C);
      assert r in B + [r] + C;
    }
  }

  lemma FilterRangeNode(t: Tree, lower: int, higher: int)
    requires t.Node?
    ensures FilterRange(InOrder(t), lower, higher) ==
            FilterRange(InOrder(t.left), lower, higher) + FilterRange(Keys(t.lkv), lower, higher) +
            FilterRange(InOrder(t.center), lower, higher) + FilterRange(Keys(t.rkv), lower, higher) +
            FilterRange(InOrder(t.right), lower, higher)
  {
    var A, L, B, R, C := InOrder(t.left), Keys(t.lkv), InOrder(t.center), Keys(t.rkv), InOrder(t.right);
    FilterRangeAppend(A + L + B + R, C, lower, higher);
    FilterRangeAppend(A + L + B, R, lower, higher);
    FilterRangeAppend(A + L, B, lower, higher);
    FilterRangeAppend(A, L, lower, higher);
  }

  /**
   * rangeSearchHelper appends to the list exactly the values, in key
   * order, of the subtree's pairs whose keys lie in [lower, higher].
   */
  lemma {:induction false} RangeSearchCorrect(t: Tree, lower: int, higher: int, list: seq<int>)
    requires t.Node? && WellShaped(t) && KeySorted(InOrder(t))
    ensures RangeSearchHelper(t, lower, higher, list) == list + FilterRange(InOrder(t), lower, higher)
    decreases t, 2
  {
    if IsLeaf(t) {
      RangeSearchLeaf(t, lower, higher, list);
    } else if lower <= t.lkv.value.key {
      RangeSearchFromLeft(t, lower, higher, list);
    } else if t.rkv.None? || lower <= t.rkv.value.key {
      RangeSearchFromCenter(t, lower, higher, list);
    } else {
      RangeSearchRightOnly(t, lower, higher, list);
    }
  }

  lemma AppendAssoc(w: seq<int>, x: seq<int>, y: seq<int>, z: seq<int>)
    ensures w + x + y + z == w + (x + y + z)
  {
  }

  lemma AppendAssoc6(u: seq<int>, v: seq<int>, w: seq<int>, x: seq<int>, y: seq<int>, z: seq<int>)
    ensures u + v + w + x + y + z == u + (v + w + x + y + z)
  {
  }

  lemma RangeSearchLeaf(t: Tree, lower: int, higher: int, list: seq<int>)
    requires t.Node? && WellShaped(t) && IsLeaf(t)
    ensures RangeSearchHelper(t, lower, higher, list) == list + FilterRange(InOrder(t), lower, higher)
  {
    FilterRangeNode(t, lower, higher);
  }

  lemma {:induction false} RangeSearchFromLeft(t: Tree, lower: int, higher: int, list: seq<int>)
    requires t.Node? && WellShaped(t) && !IsLeaf(t) && KeySorted(InOrder(t))
    requires lower <= t.lkv.value.key
    ensures RangeSearchHelper(t, lower, higher, list) == list + FilterRange(InOrder(t), lower, higher)
    decreases t, 1
  {
    NodeKeyOrder(t);
    RangeSearchCorrect(t.left, lower, higher, list);
    var fA := FilterRange(InOrder(t.left), lower, higher);
    if higher >= t.lkv.value.key {
      FilterRangeAroundLeftKey(t, lower, higher);
      SearchCenterAndRightCorrect(t, lower, higher, list + fA + [t.lkv.value.val]);
      AppendAssoc6(list, fA, [t.lkv.value.val], FilterRange(InOrder(t.center), lower, higher),
                   FilterRange(Keys(t.rkv), lower, higher), FilterRange(InOrder(t.right), lower, higher));
    } else {
      FilterRangeAboveLeftKey(t, lower, higher);
    }
  }

  /** When the left key lies in the range, every part may contribute and the left pair does. */
  lemma FilterRangeAroundLeftKey(t: Tree, lower: int, higher: int)
    requires t.Node? && t.lkv.Some? && lower <= t.lkv.value.key <= higher
    ensures FilterRange(InOrder(t), lower, higher) ==
            FilterRange(InOrder(t.left), lower, higher) + [t.lkv.value.val] +
            FilterRange(InOrder(t.center), lower, higher) + FilterRange(Keys(t.rkv), lower, higher) +
            FilterRange(InOrder(t.right), lower, higher)
  {
    FilterRangeNode(t, lower, higher);
    assert FilterRange(Keys(t.lkv), lower, higher) == [t.lkv.value.val];
  }

  /** When the upper bound is below the left key, only the left child contributes. */
  lemma FilterRangeAboveLeftKey(t: Tree, lower: int, higher: int)
    requires t.Node? && t.lkv.Some? && (t.rkv.None? ==> t.right == Nil) && KeySorted(InOrder(t)) && higher < t.lkv.value.key
    ensures FilterRange(InOrder(t), lower, higher) == FilterRange(InOrder(t.left), lower, higher)
  {
    NodeKeyOrder(t);
    FilterRangeNode(t, lower, higher);
    FilterRangeOutside(InOrder(t.center), lower, higher);
    FilterRangeOutside(InOrder(t.right), lower, higher);
    assert FilterRange(Keys(t.lkv), lower, higher) == [];
    assert FilterRange(Keys(t.rkv), lower, higher) == [];
    DropEmpty2([], [], FilterRange(InOrder(t.left), lower, higher));
  }

  lemma {:induction false} RangeSearchFromCenter(t: Tree, lower: int, higher: int, list: seq<int>)
    requires t.Node? && WellShaped(t) && !IsLeaf(t) && KeySorted(InOrder(t))
    requires lower > t.lkv.value.key && (t.rkv.None? || lower <= t.rkv.value.key)
    ensures RangeSearchHelper(t, lower, higher, list) == list + FilterRange(InOrder(t), lower, higher)
    decreases t, 1
  {
    FilterRangeBelowLeftKey(t, lower, higher);
    SearchCenterAndRightCorrect(t, lower, higher, list);
    AppendAssoc(list, FilterRange(InOrder(t.center), lower, higher), FilterRange(Keys(t.rkv), lower, higher),
                FilterRange(InOrder(t.right), lower, higher));
  }

  /** When the lower bound exceeds the left key, the left child and the left pair contribute nothing. */
  lemma FilterRangeBelowLeftKey(t: Tree, lower: int, higher: int)
    requires t.Node? && t.lkv.Some? && (t.rkv.None? ==> t.right == Nil) && KeySorted(InOrder(t)) && lower > t.lkv.value.key
    ensures FilterRange(InOrder(t), lower, higher) ==
            FilterRange(InOrder(t.center), lower, higher) + FilterRange(Keys(t.rkv), lower, higher) +
            FilterRange(InOrder(t.right), lower, higher)
  {
    NodeKeyOrder(t);
    FilterRangeNode(t, lower, higher);
    FilterRangeOutside(InOrder(t.left), lower, higher);
    assert FilterRange(Keys(t.lkv), lower, higher) == [];
    DropEmpty2(FilterRange(InOrder(t.center), lower, higher), FilterRange(Keys(t.rkv), lower, higher),
               FilterRange(InOrder(t.right), lower, higher));
  }

  lemma {:induction false} RangeSearchRightOnly(t: Tree, lower: int, higher: int, list: seq<int>)
    requires t.Node? && WellShaped(t) && !IsLeaf(t) && KeySorted(InOrder(t))
    requires lower > t.lkv.value.key && t.rkv.Some? && lower > t.rkv.value.key
    ensures RangeSearchHelper(t, lower, higher, list) == list + FilterRange(InOrder(t), lower, higher)
    decreases t, 1
  {
    NodeKeyOrder(t);
    assert FilterRange(InOrder(t), lower, higher) == FilterRange(InOrder(t.right), lower, higher) by {
      FilterRangeNode(t, lower, higher);
      FilterRangeOutside(InOrder(t.left), lower, higher);
      FilterRangeOutside(InOrder(t.center), lower, higher);
      assert FilterRange(Keys(t.lkv), lower, higher) == [];
      assert FilterRange(Keys(t.rkv), lower, higher) == [];
      DropEmpty(FilterRange(InOrder(t.right), lower, higher));
    }
    RangeSearchCorrect(t.right, lower, higher, list);
  }

  lemma DropEmpty(x: seq<int>)
    ensures [] + [] + [] + [] + x == x
  {
  }

  lemma DropEmpty2(x: seq<int>, y: seq<int>, z: seq<int>)
    ensures [] + [] + x + y + z == x + y + z
    ensures x + [] + [] + [] + [] == x
  {
  }

  /** The shared tail appends the filtered center, right pair and right child. */
  lemma {:induction false} SearchCenterAndRightCorrect(t: Tree, lower: int, higher: int, list: seq<int>)
    requires t.Node? && WellShaped(t) && !IsLeaf(t) && KeySorted(InOrder(t))
    requires t.rkv.Some? ==> lower <= t.rkv.value.key
    ensures SearchCenterAndRight(t, lower, higher, list) ==
            list + FilterRange(InOrder(t.center), lower, higher) + FilterRange(Keys(t.rkv), lower, higher) +
            FilterRange(InOrder(t.right), lower, higher)
    decreases t, 0
  {
    var Node(l, r, a, b, c) := t;
    NodeKeyOrder(t);
    RangeSearchCorrect(b, lower, higher, list);
    var list1 := list + FilterRange(InOrder(b), lower, higher);
    if r.Some? && higher >= r.value.key {
      assert FilterRange(Keys(r), lower, higher) == [r.value.val];
      RangeSearchCorrect(c, lower, higher, list1 + [r.value.val]);
    } else if r.Some? {
      FilterRangeOutside(InOrder(c), lower, higher);
      assert FilterRange(Keys(r), lower, higher) == [];
    } else {
      assert c == Nil;
    }
  }
}
