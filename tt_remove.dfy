/**
 * Removal from the 2-3 tree of src/TTNode.java.
 *
 * As written, removing the right key of an internal node swaps the
 * successor with the node's LEFT pair, so the key asked for never reaches
 * the successor leaf (see TTFindings). RemoveHelperFixed swaps the
 * successor with the right pair instead, and is proved to keep the tree a
 * 2-3 tree (possibly with an empty root), to return the value stored under
 * the key and to drop exactly that pair.
 */
module TTRemoval {
  import opened Wrappers
  import opened TTNodes
  import opened TTOrder
  import opened TTShapes

  /** removeHelper with the right key swapped with its successor. */
  function RemoveHelperFixed(t: Tree, k: int): (res: RemoveResult)
    requires t.Node? && WellShaped(t)
    ensures res.self.Node?
    decreases Depth(t)
  {
    var Node(l, r, a, b, c) := t;
    if CompareInt(l.value.key, k) == 0 then
      if IsLeaf(t) then
        RemoveResult(Some(l.value.val), RebalanceChildren(Node(r, None, a, b, c)))
      else
        var successor := LeftmostLeaf(b);
        var sub := RemoveHelperFixed(SetLeftmost(b, l.value), k);
        RemoveResult(sub.value, RebalanceChildren(Node(successor.lkv, r, a, sub.self, c)))
    else if r.Some? && CompareInt(r.value.key, k) == 0 then
      if IsLeaf(t) then
        RemoveResult(Some(r.value.val), RebalanceChildren(Node(l, None, a, b, c)))
      else
        var successor := LeftmostLeaf(c);
        var sub := RemoveHelperFixed(SetLeftmost(c, r.value), k);
        RemoveResult(sub.value, RebalanceChildren(Node(l, successor.lkv, a, b, sub.self)))
    else if IsLeaf(t) then
      RemoveResult(None, t)
    else if CompareInt(k, l.value.key) < 0 then
      var sub := RemoveHelperFixed(a, k);
      RemoveResult(sub.value, RebalanceChildren(Node(l, r, sub.self, b, c)))
    else if r.None? || (CompareInt(k, l.value.key) > 0 && CompareInt(k, r.value.key) < 0) then
      var sub := RemoveHelperFixed(b, k);
      RemoveResult(sub.value, RebalanceChildren(Node(l, r, a, sub.self, c)))
    else
      var sub := RemoveHelperFixed(c, k);
      RemoveResult(sub.value, RebalanceChildren(Node(l, r, a, b, sub.self)))
  }

  /** TTTree.remove on a non-empty root with the corrected removal. */
  function TreeRemoveFixed(root: Tree, k: int): (Option<int>, Tree)
    requires root.Node? && WellShaped(root)
  {
    var res := RemoveHelperFixed(root, k);
    (res.value, if res.self.lkv.None? then res.self.left else res.self)
  }

  /** The removal handed back the value under k and dropped exactly that pair. */
  predicate RemovesKey(t: Tree, res: RemoveResult, k: int) {
    res.value == Lookup(InOrder(t), k) && InOrder(res.self) == RemoveKey(InOrder(t), k)
  }

  // ---------------------------------------------------------------
  // Shape
  // ---------------------------------------------------------------

  /** Whatever the key, the removal leaves a 2-3 tree of the same height, or an empty node above one of height h - 1. */
  lemma {:induction false} RemoveFixedShape(t: Tree, h: nat, k: int)
    requires Balanced(t, h)
    ensures WellShaped(t) && BalancedOrUnderfull(RemoveHelperFixed(t, k).self, h)
    decreases h
  {
    BalancedWellShaped(t, h);
    var Node(l, r, a, b, c) := t;
    if h == 1 {
      var res := RemoveHelperFixed(t, k);
      if CompareInt(l.value.key, k) == 0 {
        RebalanceNoEmpty(Node(r, None, a, b, c));
      } else if r.Some? && CompareInt(r.value.key, k) == 0 {
        RebalanceNoEmpty(Node(l, None, a, b, c));
      }
    } else if CompareInt(l.value.key, k) == 0 {
      var b1 := SetLeftmost(b, l.value);
      SetLeftmostBalanced(b, h - 1, l.value);
      RemoveFixedShape(b1, h - 1, k);
      RebalanceCorrect(Node(LeftmostLeaf(b).lkv, r, a, RemoveHelperFixed(b1, k).self, c), h);
    } else if r.Some? && CompareInt(r.value.key, k) == 0 {
      var c1 := SetLeftmost(c, r.value);
      SetLeftmostBalanced(c, h - 1, r.value);
      RemoveFixedShape(c1, h - 1, k);
      RebalanceCorrect(Node(l, LeftmostLeaf(c).lkv, a, b, RemoveHelperFixed(c1, k).self), h);
    } else if CompareInt(k, l.value.key) < 0 {
      RemoveFixedShape(a, h - 1, k);
      RebalanceCorrect(t.(left := RemoveHelperFixed(a, k).self), h);
    } else if r.None? || (CompareInt(k, l.value.key) > 0 && CompareInt(k, r.value.key) < 0) {
      RemoveFixedShape(b, h - 1, k);
      RebalanceCorrect(t.(center := RemoveHelperFixed(b, k).self), h);
    } else {
      RemoveFixedShape(c, h - 1, k);
      RebalanceCorrect(t.(right := RemoveHelperFixed(c, k).self), h);
    }
  }

  // ---------------------------------------------------------------
  // One step of removeHelper
  // ---------------------------------------------------------------

  /** The removal of a key below the left key goes into the left child. */
  lemma UnfoldFromLeft(t: Tree, k: int)
    requires t.Node? && WellShaped(t) && !IsLeaf(t) && k < t.lkv.value.key && (t.rkv.Some? ==> t.rkv.value.key != k)
    ensures RemoveHelperFixed(t, k) ==
            RemoveResult(RemoveHelperFixed(t.left, k).value, RebalanceChildren(t.(left := RemoveHelperFixed(t.left, k).self)))
  {
  }

  /** The removal of a key between the keys goes into the center child. */
  lemma UnfoldFromCenter(t: Tree, k: int)
    requires t.Node? && WellShaped(t) && !IsLeaf(t) && t.lkv.value.key < k && (t.rkv.Some? ==> k < t.rkv.value.key)
    ensures RemoveHelperFixed(t, k) ==
            RemoveResult(RemoveHelperFixed(t.center, k).value, RebalanceChildren(t.(center := RemoveHelperFixed(t.center, k).self)))
  {
  }

  /** The removal of a key above the right key goes into the right child. */
  lemma UnfoldFromRight(t: Tree, k: int)
    requires t.Node? && WellShaped(t) && !IsLeaf(t) && t.rkv.Some? && t.lkv.value.key < k && t.rkv.value.key < k
    ensures RemoveHelperFixed(t, k) ==
            RemoveResult(RemoveHelperFixed(t.right, k).value, RebalanceChildren(t.(right := RemoveHelperFixed(t.right, k).self)))
  {
  }

  /** The removal of the left key of an internal node goes through its successor in the center child. */
  lemma UnfoldLeftKey(t: Tree, k: int)
    requires t.Node? && WellShaped(t) && !IsLeaf(t) && t.lkv.value.key == k
    ensures var sub := RemoveHelperFixed(SetLeftmost(t.center, t.lkv.value), k);
            RemoveHelperFixed(t, k) ==
            RemoveResult(sub.value, RebalanceChildren(Node(LeftmostLeaf(t.center).lkv, t.rkv, t.left, sub.self, t.right)))
  {
  }

  /** The removal of the right key of an internal node goes through its successor in the right child. */
  lemma UnfoldRightKey(t: Tree, k: int)
    requires t.Node? && WellShaped(t) && !IsLeaf(t) && t.rkv.Some? && t.lkv.value.key != k && t.rkv.value.key == k
    ensures var sub := RemoveHelperFixed(SetLeftmost(t.right, t.rkv.value), k);
            RemoveHelperFixed(t, k) ==
            RemoveResult(sub.value, RebalanceChildren(Node(t.lkv, LeftmostLeaf(t.right).lkv, t.left, t.center, sub.self)))
  {
  }

  // ---------------------------------------------------------------
  // Key order facts
  // ---------------------------------------------------------------

  lemma StrictKeysAround(x: seq<Pair>, m: Pair, y: seq<Pair>)
    requires StrictKeys(x + [m] + y)
    ensures StrictKeys(x) && StrictKeys(y)
    ensures forall e :: e in x ==> e.key < m.key
    ensures forall e :: e in y ==> m.key < e.key
  {
    var s := x + [m] + y;
    forall i, j | 0 <= i < j < |x|
      ensures x[i].key < x[j].key
    {
      assert s[i] == x[i] && s[j] == x[j];
    }
    forall i, j | 0 <= i < j < |y|
      ensures y[i].key < y[j].key
    {
      assert s[|x| + 1 + i] == y[i] && s[|x| + 1 + j] == y[j];
    }
    forall e | e in x
      ensures e.key < m.key
    {
      var i :| 0 <= i < |x| && x[i] == e;
      assert s[i] == e && s[|x|] == m;
    }
    forall e | e in y
      ensures m.key < e.key
    {
      var j :| 0 <= j < |y| && y[j] == e;
      assert s[|x| + 1 + j] == e && s[|x|] == m;
    }
  }

  /** In a node with unique keys each part's keys lie strictly between the keys around it. */
  lemma NodeStrictKeys(t: Tree)
    requires t.Node? && t.lkv.Some? && (t.rkv.None? ==> t.right == Nil) && StrictKeys(InOrder(t))
    ensures StrictKeys(InOrder(t.left)) && StrictKeys(InOrder(t.center)) && StrictKeys(InOrder(t.right))
    ensures forall e :: e in InOrder(t.left) ==> e.key < t.lkv.value.key
    ensures forall e :: e in InOrder(t.center) ==> t.lkv.value.key < e.key
    ensures forall e :: e in InOrder(t.right) ==> t.lkv.value.key < e.key
    ensures t.rkv.Some? ==> t.lkv.value.key < t.rkv.value.key
    ensures t.rkv.Some? ==> forall e :: e in InOrder(t.center) ==> e.key < t.rkv.value.key
    ensures t.rkv.Some? ==> forall e :: e in InOrder(t.right) ==> t.rkv.value.key < e.key
  {
    var A, l, B, C := InOrder(t.left), t.lkv.value, InOrder(t.center), InOrder(t.right);
    if t.rkv.None? {
      RegroupOneKey(A, l, B);
      StrictKeysAround(A, l, B);
    } else {
      var r := t.rkv.value;
      RegroupTwoKeys(A, l, B, r, C);
      StrictKeysAround(A, l, B + [r] + C);
      StrictKeysAround(B, r, C);
      assert r in B + [r] + C;
    }
  }

  /** Putting the key k in front of larger unique keys: k is found first and removed first. */
  lemma PutInFront(p: Pair, s: seq<Pair>)
    requires StrictKeys(s) && forall e :: e in s ==> p.key < e.key
    ensures StrictKeys([p] + s)
    ensures Lookup([p] + s, p.key) == Some(p.val) && RemoveKey([p] + s, p.key) == s
  {
    var s' := [p] + s;
    assert s'[0] == p && s'[1..] == s;
    forall i, j | 0 <= i < j < |s'|
      ensures s'[i].key < s'[j].key
    {
      assert s'[j] == s[j - 1];
      if i > 0 {
        assert s'[i] == s[i - 1];
      } else {
        assert s[j - 1] in s;
      }
    }
  }

  /** The subtree after its first pair, with the successor leaf holding p: unique keys again. */
  lemma SuccessorSwap(t: Tree, h: nat, p: Pair)
    requires Balanced(t, h) && StrictKeys(InOrder(t)) && forall e :: e in InOrder(t) ==> p.key < e.key
    ensures WellShaped(t) && |InOrder(t)| > 0 && LeftmostLeaf(t).lkv == Some(InOrder(t)[0])
    ensures Balanced(SetLeftmost(t, p), h) && InOrder(SetLeftmost(t, p)) == [p] + InOrder(t)[1..]
    ensures StrictKeys(InOrder(SetLeftmost(t, p)))
    ensures Lookup(InOrder(SetLeftmost(t, p)), p.key) == Some(p.val)
    ensures RemoveKey(InOrder(SetLeftmost(t, p)), p.key) == InOrder(t)[1..]
  {
    LeftmostLeafFirst(t, h);
    SetLeftmostBalanced(t, h, p);
    SetLeftmostInOrder(t, h, p);
    var s := InOrder(t);
    forall i, j | 0 <= i < j < |s[1..]|
      ensures s[1..][i].key < s[1..][j].key
    {
      assert s[1..][i] == s[i + 1] && s[1..][j] == s[j + 1];
    }
    forall e | e in s[1..]
      ensures p.key < e.key
    {
      assert e in s;
    }
    PutInFront(p, s[1..]);
  }

  // ---------------------------------------------------------------
  // Contents, one lemma per case of removeHelper
  // ---------------------------------------------------------------

  /**
   * With unique keys, the removal returns the value stored under k (None
   * when there is none) and leaves the other pairs in order.
   */
  lemma {:induction false} RemoveFixedContents(t: Tree, h: nat, k: int)
    requires Balanced(t, h) && StrictKeys(InOrder(t))
    ensures WellShaped(t) && RemovesKey(t, RemoveHelperFixed(t, k), k)
    decreases h, 2
  {
    BalancedWellShaped(t, h);
    var Node(l, r, a, b, c) := t;
    NodeStrictKeys(t);
    if h == 1 {
      RemoveLeafContents(t, k);
    } else if l.value.key == k {
      RemoveLeftKeyContents(t, h, k);
    } else if r.Some? && r.value.key == k {
      RemoveRightKeyContents(t, h, k);
    } else if k < l.value.key {
      RemoveFromLeft(t, h, k);
    } else if r.None? || k < r.value.key {
      RemoveFromCenter(t, h, k);
    } else {
      RemoveFromRight(t, h, k);
    }
  }

  lemma RemoveLeafContents(t: Tree, k: int)
    requires Balanced(t, 1) && StrictKeys(InOrder(t))
    ensures WellShaped(t) && RemovesKey(t, RemoveHelperFixed(t, k), k)
  {
    var Node(l, r, a, b, c) := t;
    assert InOrder(t) == [l.value] + Keys(r) by {
      assert InOrder(t) == [] + [l.value] + [] + Keys(r) + [];
    }
    var res := RemoveHelperFixed(t, k);
    if l.value.key == k {
      RebalanceNoEmpty(Node(r, None, a, b, c));
      assert res.self == Node(r, None, Nil, Nil, Nil);
      assert InOrder(res.self) == [] + Keys(r) + [] + [] + [];
      assert ([l.value] + Keys(r))[1..] == Keys(r);
    } else if r.Some? && r.value.key == k {
      RebalanceNoEmpty(Node(l, None, a, b, c));
      assert res.self == Node(l, None, Nil, Nil, Nil);
      assert InOrder(res.self) == [] + [l.value] + [] + [] + [];
      RemoveKeyAfter([l.value], [r.value], k);
      assert [r.value][1..] == [];
    } else {
      assert res == RemoveResult(None, t);
      assert Lookup(InOrder(t), k).None?;
    }
  }

  /** The pair p with key k placed on the successor leaf of a subtree of larger keys is removed again, and only it. */
  lemma {:induction false} RemoveFromSuccessor(t: Tree, h: nat, p: Pair, k: int)
    requires Balanced(t, h) && StrictKeys(InOrder(t)) && p.key == k && forall e :: e in InOrder(t) ==> k < e.key
    ensures WellShaped(t) && |InOrder(t)| > 0 && LeftmostLeaf(t).lkv == Some(InOrder(t)[0])
    ensures var sub := RemoveHelperFixed(SetLeftmost(t, p), k);
            sub.value == Some(p.val) && InOrder(sub.self) == InOrder(t)[1..] && BalancedOrUnderfull(sub.self, h)
    decreases h, 3
  {
    SuccessorSwap(t, h, p);
    RemoveFixedContents(SetLeftmost(t, p), h, k);
    RemoveFixedShape(SetLeftmost(t, p), h, k);
  }

  lemma RegroupSuccessorLeft(a: seq<Pair>, s: Pair, rest: seq<Pair>, r: seq<Pair>, c: seq<Pair>, b: seq<Pair>)
    requires b == [s] + rest
    ensures a + [s] + rest + r + c == a + (b + r + c)
  {
  }

  /** The key is this node's left key: it is swapped with its successor and removed from the center child. */
  lemma {:induction false} RemoveLeftKeyContents(t: Tree, h: nat, k: int)
    requires Balanced(t, h) && h >= 2 && t.lkv.value.key == k
    requires StrictKeys(InOrder(t.center)) && forall e :: e in InOrder(t.center) ==> k < e.key
    requires forall e :: e in InOrder(t.left) ==> e.key < k
    ensures WellShaped(t) && RemovesKey(t, RemoveHelperFixed(t, k), k)
    decreases h, 1
  {
    BalancedWellShaped(t, h);
    RemoveFromSuccessor(t.center, h - 1, t.lkv.value, k);
    LeftKeyStep(t, h, k);
    LeftKeyRemoved(t, k);
  }

  /** In the in-order sequence, the left key is the first pair with key k. */
  lemma LeftKeyRemoved(t: Tree, k: int)
    requires t.Node? && t.lkv.Some? && t.lkv.value.key == k
    requires forall e :: e in InOrder(t.left) ==> e.key < k
    ensures RemoveKey(InOrder(t), k) == InOrder(t.left) + (InOrder(t.center) + Keys(t.rkv) + InOrder(t.right))
    ensures Lookup(InOrder(t), k) == Some(t.lkv.value.val)
  {
    var A, B, R, C := InOrder(t.left), InOrder(t.center), Keys(t.rkv), InOrder(t.right);
    assert InOrder(t) == A + [t.lkv.value] + B + R + C;
    RemoveFirstKey(A, t.lkv.value, B, R, C, k);
  }

  /** The left key's removal, once its successor has been removed from the center child. */
  lemma LeftKeyStep(t: Tree, h: nat, k: int)
    requires Balanced(t, h) && WellShaped(t) && h >= 2 && t.lkv.value.key == k
    requires |InOrder(t.center)| > 0 && LeftmostLeaf(t.center).lkv == Some(InOrder(t.center)[0])
    requires var sub := RemoveHelperFixed(SetLeftmost(t.center, t.lkv.value), k);
             sub.value == Some(t.lkv.value.val) && InOrder(sub.self) == InOrder(t.center)[1..] &&
             BalancedOrUnderfull(sub.self, h - 1)
    ensures RemoveHelperFixed(t, k).value == Some(t.lkv.value.val)
    ensures InOrder(RemoveHelperFixed(t, k).self) == InOrder(t.left) + (InOrder(t.center) + Keys(t.rkv) + InOrder(t.right))
  {
    var sub := RemoveHelperFixed(SetLeftmost(t.center, t.lkv.value), k);
    UnfoldLeftKey(t, k);
    SuccessorRebalanced(t, h, sub.self);
  }

  /** The successor moved up into the left key's place, over the center child without it, rebalances to the same pairs. */
  lemma SuccessorRebalanced(t: Tree, h: nat, mid: Tree)
    requires Balanced(t, h) && h >= 2 && |InOrder(t.center)| > 0
    requires BalancedOrUnderfull(mid, h - 1) && InOrder(mid) == InOrder(t.center)[1..]
    ensures var t' := Node(Some(InOrder(t.center)[0]), t.rkv, t.left, mid, t.right);
            RebalanceShape(t') &&
            InOrder(RebalanceChildren(t')) == InOrder(t.left) + (InOrder(t.center) + Keys(t.rkv) + InOrder(t.right))
  {
    var A, B, R, C := InOrder(t.left), InOrder(t.center), Keys(t.rkv), InOrder(t.right);
    var t' := Node(Some(B[0]), t.rkv, t.left, mid, t.right);
    ReplacedCenter(t, h, B[0], mid);
    RebalanceCorrect(t', h);
    RegroupSuccessorLeft(A, B[0], B[1..], R, C, B);
  }

  /**
   * A node of a 2-3 tree with a new left key and its center child
   * replaced by a tree of the same height or an empty node has children
   * rebalancing can mend.
   */
  lemma ReplacedCenter(t: Tree, h: nat, key: Pair, mid: Tree)
    requires Balanced(t, h) && h >= 2 && BalancedOrUnderfull(mid, h - 1)
    ensures ChildrenAfterRemoval(Node(Some(key), t.rkv, t.left, mid, t.right), h)
  {
  }

  /** The same for a new right key and the right child of a node with two keys. */
  lemma ReplacedRight(t: Tree, h: nat, key: Pair, last: Tree)
    requires Balanced(t, h) && h >= 2 && t.rkv.Some? && BalancedOrUnderfull(last, h - 1)
    ensures ChildrenAfterRemoval(Node(t.lkv, Some(key), t.left, t.center, last), h)
  {
  }

  /** Removing the key of the left pair of a node from its in-order sequence. */
  lemma RemoveFirstKey(a: seq<Pair>, x: Pair, b: seq<Pair>, r: seq<Pair>, c: seq<Pair>, k: int)
    requires x.key == k && forall e :: e in a ==> e.key != k
    ensures RemoveKey(a + [x] + b + r + c, k) == a + (b + r + c)
    ensures Lookup(a + [x] + b + r + c, k) == Some(x.val)
  {
    var s := [x] + (b + r + c);
    assert a + [x] + b + r + c == a + s;
    assert s[0] == x && s[1..] == b + r + c;
    RemoveKeyAfter(a, s, k);
  }

  lemma RegroupSuccessorRight(f: seq<Pair>, s: Pair, rest: seq<Pair>, c: seq<Pair>)
    requires c == [s] + rest
    ensures f + [s] + rest == f + c
  {
  }

  /** The key is this node's right key: it is swapped with its successor and removed from the right child. */
  lemma {:induction false} RemoveRightKeyContents(t: Tree, h: nat, k: int)
    requires Balanced(t, h) && h >= 2 && t.rkv.Some? && t.rkv.value.key == k && t.lkv.value.key != k
    requires StrictKeys(InOrder(t.right)) && forall e :: e in InOrder(t.right) ==> k < e.key
    requires forall e :: e in InOrder(t.left) + Keys(t.lkv) + InOrder(t.center) ==> e.key != k
    ensures WellShaped(t) && RemovesKey(t, RemoveHelperFixed(t, k), k)
    decreases h, 1
  {
    BalancedWellShaped(t, h);
    RemoveFromSuccessor(t.right, h - 1, t.rkv.value, k);
    RightKeyStep(t, h, k);
  }

  /** The right key's removal, once its successor has been removed from the right child. */
  lemma RightKeyStep(t: Tree, h: nat, k: int)
    requires Balanced(t, h) && WellShaped(t) && h >= 2 && t.rkv.Some? && t.rkv.value.key == k && t.lkv.value.key != k
    requires forall e :: e in InOrder(t.left) + Keys(t.lkv) + InOrder(t.center) ==> e.key != k
    requires |InOrder(t.right)| > 0 && LeftmostLeaf(t.right).lkv == Some(InOrder(t.right)[0])
    requires var sub := RemoveHelperFixed(SetLeftmost(t.right, t.rkv.value), k);
             sub.value == Some(t.rkv.value.val) && InOrder(sub.self) == InOrder(t.right)[1..] &&
             BalancedOrUnderfull(sub.self, h - 1)
    ensures RemovesKey(t, RemoveHelperFixed(t, k), k)
  {
    var sub := RemoveHelperFixed(SetLeftmost(t.right, t.rkv.value), k);
    UnfoldRightKey(t, k);
    RightSuccessorRebalanced(t, h, sub.self);
    RightKeyRemoved(t, k);
  }

  /** The successor moved up into the right key's place, over the right child without it, rebalances to the same pairs. */
  lemma RightSuccessorRebalanced(t: Tree, h: nat, last: Tree)
    requires Balanced(t, h) && h >= 2 && t.rkv.Some? && |InOrder(t.right)| > 0
    requires BalancedOrUnderfull(last, h - 1) && InOrder(last) == InOrder(t.right)[1..]
    ensures var t' := Node(t.lkv, Some(InOrder(t.right)[0]), t.left, t.center, last);
            RebalanceShape(t') &&
            InOrder(RebalanceChildren(t')) == InOrder(t.left) + Keys(t.lkv) + InOrder(t.center) + InOrder(t.right)
  {
    var F, C := InOrder(t.left) + Keys(t.lkv) + InOrder(t.center), InOrder(t.right);
    var t' := Node(t.lkv, Some(C[0]), t.left, t.center, last);
    ReplacedRight(t, h, C[0], last);
    RebalanceCorrect(t', h);
    RegroupSuccessorRight(F, C[0], C[1..], C);
  }

  /** Removing the right key's pair from the pairs of t leaves the pairs on either side of it. */
  lemma RightKeyRemoved(t: Tree, k: int)
    requires t.Node? && t.rkv.Some? && t.rkv.value.key == k
    requires forall e :: e in InOrder(t.left) + Keys(t.lkv) + InOrder(t.center) ==> e.key != k
    ensures RemoveKey(InOrder(t), k) == InOrder(t.left) + Keys(t.lkv) + InOrder(t.center) + InOrder(t.right)
    ensures Lookup(InOrder(t), k) == Some(t.rkv.value.val)
  {
    var F, C := InOrder(t.left) + Keys(t.lkv) + InOrder(t.center), InOrder(t.right);
    var s := [t.rkv.value] + C;
    assert InOrder(t) == F + s;
    RemoveKeyAfter(F, s, k);
    assert s[0] == t.rkv.value && s[1..] == C;
  }

  /** The key lies below the left key: it is removed from the left child. */
  lemma {:induction false} RemoveFromLeft(t: Tree, h: nat, k: int)
    requires Balanced(t, h) && h >= 2 && k < t.lkv.value.key
    requires StrictKeys(InOrder(t.left))
    requires forall e :: e in Keys(t.lkv) + InOrder(t.center) + Keys(t.rkv) + InOrder(t.right) ==> e.key != k
    ensures WellShaped(t) && RemovesKey(t, RemoveHelperFixed(t, k), k)
    decreases h, 0
  {
    BalancedWellShaped(t, h);
    var Node(l, r, a, b, c) := t;
    var rest := Keys(l) + InOrder(b) + Keys(r) + InOrder(c);
    var sub := RemoveHelperFixed(a, k);
    assert RemovesKey(a, sub, k) && BalancedOrUnderfull(sub.self, h - 1) by {
      RemoveFixedContents(a, h - 1, k);
      RemoveFixedShape(a, h - 1, k);
    }
    var t' := t.(left := sub.self);
    assert RemoveHelperFixed(t, k) == RemoveResult(sub.value, RebalanceChildren(t')) by {
      UnfoldFromLeft(t, k);
    }
    assert InOrder(RebalanceChildren(t')) == InOrder(sub.self) + rest by {
      RebalanceCorrect(t', h);
      InOrderSplitLeft(t');
    }
    assert RemoveKey(InOrder(t), k) == RemoveKey(InOrder(a), k) + rest &&
           Lookup(InOrder(t), k) == Lookup(InOrder(a), k) by {
      InOrderSplitLeft(t);
      RemoveKeyBefore(InOrder(a), rest, k);
    }
  }

  /** The key lies between the keys: it is removed from the center child. */
  lemma {:induction false} RemoveFromCenter(t: Tree, h: nat, k: int)
    requires Balanced(t, h) && h >= 2 && t.lkv.value.key < k
    requires t.rkv.Some? ==> k < t.rkv.value.key
    requires StrictKeys(InOrder(t.center))
    requires forall e :: e in InOrder(t.left) + Keys(t.lkv) ==> e.key != k
    requires forall e :: e in Keys(t.rkv) + InOrder(t.right) ==> e.key != k
    ensures WellShaped(t) && RemovesKey(t, RemoveHelperFixed(t, k), k)
    decreases h, 0
  {
    BalancedWellShaped(t, h);
    var Node(l, r, a, b, c) := t;
    var front, tail := InOrder(a) + Keys(l), Keys(r) + InOrder(c);
    var sub := RemoveHelperFixed(b, k);
    assert RemovesKey(b, sub, k) && BalancedOrUnderfull(sub.self, h - 1) by {
      RemoveFixedContents(b, h - 1, k);
      RemoveFixedShape(b, h - 1, k);
    }
    var t' := t.(center := sub.self);
    assert RemoveHelperFixed(t, k) == RemoveResult(sub.value, RebalanceChildren(t')) by {
      UnfoldFromCenter(t, k);
    }
    assert InOrder(RebalanceChildren(t')) == front + (InOrder(sub.self) + tail) by {
      RebalanceCorrect(t', h);
      InOrderSplitCenter(t');
    }
    assert RemoveKey(InOrder(t), k) == front + (RemoveKey(InOrder(b), k) + tail) &&
           Lookup(InOrder(t), k) == Lookup(InOrder(b), k) by {
      InOrderSplitCenter(t);
      RemoveKeyAfter(front, InOrder(b) + tail, k);
      RemoveKeyBefore(InOrder(b), tail, k);
    }
  }

  /** The key lies above the right key: it is removed from the right child. */
  lemma {:induction false} RemoveFromRight(t: Tree, h: nat, k: int)
    requires Balanced(t, h) && h >= 2 && t.rkv.Some? && t.lkv.value.key < k && t.rkv.value.key < k
    requires StrictKeys(InOrder(t.right))
    requires forall e :: e in InOrder(t.left) + Keys(t.lkv) + InOrder(t.center) + Keys(t.rkv) ==> e.key != k
    ensures WellShaped(t) && RemovesKey(t, RemoveHelperFixed(t, k), k)
    decreases h, 0
  {
    BalancedWellShaped(t, h);
    var Node(l, r, a, b, c) := t;
    var front := InOrder(a) + Keys(l) + InOrder(b) + Keys(r);
    var sub := RemoveHelperFixed(c, k);
    assert RemovesKey(c, sub, k) && BalancedOrUnderfull(sub.self, h - 1) by {
      RemoveFixedContents(c, h - 1, k);
      RemoveFixedShape(c, h - 1, k);
    }
    var t' := t.(right := sub.self);
    assert RemoveHelperFixed(t, k) == RemoveResult(sub.value, RebalanceChildren(t')) by {
      UnfoldFromRight(t, k);
    }
    assert InOrder(RebalanceChildren(t')) == front + InOrder(sub.self) by {
      RebalanceCorrect(t', h);
    }
    assert RemoveKey(InOrder(t), k) == front + RemoveKey(InOrder(c), k) &&
           Lookup(InOrder(t), k) == Lookup(InOrder(c), k) by {
      RemoveKeyAfter(front, InOrder(c), k);
    }
  }
}
