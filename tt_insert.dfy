/**
 * Insertion into the 2-3 tree of src/TTNode.java.
 *
 * As written, `add` keeps the parent's pointer to the child it descended
 * into when that child split, instead of the split's left half; when the
 * child's split put the new pair on the left, that pointer leads to a
 * stale node and pairs are lost (see TTFindings). AddFixed and
 * InsertHelpFixed replace the stale pointer by the split's left half and
 * are proved to insert the pair at its sorted place and keep the tree
 * balanced. The as-written functions are proved to keep the tree
 * balanced, which the loss of pairs does not disturb.
 */
module TTInsertion {
  import opened Wrappers
  import opened TTNodes
  import opened TTOrder
  import opened TTShapes

  /** add with the descended child's pointer replaced by the split's left half. */
  function AddFixed(t: Tree, node: Tree): (res: AddResult)
    requires t.Node? && t.lkv.Some? && node.Node? && node.lkv.Some? && node.rkv.None?
    ensures res.root.Node? && res.root.lkv.Some?
    ensures res.split ==> res.root.rkv.None?
    ensures !res.split ==> res.root == res.self
  {
    var Node(l, r, a, b, c) := t;
    if r.None? then
      if ComparePairs(l.value, node.lkv.value) < 0 then
        var t' := Node(l, node.lkv, a, node.left, node.center);
        AddResult(t', t', false)
      else
        var t' := Node(node.lkv, l, node.left, node.center, b);
        AddResult(t', t', false)
    else if ComparePairs(l.value, node.lkv.value) >= 0 then
      var self' := Node(r, None, b, c, Nil);
      AddResult(Node(l, None, node, self', Nil), self', true)
    else if ComparePairs(r.value, node.lkv.value) >= 0 then
      var self' := Node(l, None, a, node.left, Nil);
      AddResult(Node(node.lkv, node.rkv, self', Node(r, None, node.center, c, Nil), node.right), self', true)
    else
      var self' := Node(l, None, a, b, Nil);
      AddResult(Node(r, None, self', node, Nil), self', true)
  }

  /** insertHelp using AddFixed. */
  function InsertHelpFixed(t: Tree, p: Pair): (res: AddResult)
    requires t.Node? && WellShaped(t)
    ensures res.root.Node? && res.root.lkv.Some?
    ensures res.split ==> res.root.rkv.None?
    ensures !res.split ==> res.root == res.self
    decreases t
  {
    var Node(l, r, a, b, c) := t;
    if a == Nil then AddFixed(t, Leaf(p))
    else if ComparePairs(p, l.value) <= 0 then
      var sub := InsertHelpFixed(a, p);
      var t' := Node(l, r, sub.self, b, c);
      if !sub.split then AddResult(t', t', false) else AddFixed(t', sub.root)
    else if c == Nil || ComparePairs(p, r.value) <= 0 then
      var sub := InsertHelpFixed(b, p);
      var t' := Node(l, r, a, sub.self, c);
      if !sub.split then AddResult(t', t', false) else AddFixed(t', sub.root)
    else
      var sub := InsertHelpFixed(c, p);
      var t' := Node(l, r, a, b, sub.self);
      if !sub.split then AddResult(t', t', false) else AddFixed(t', sub.root)
  }

  /** TTTree.insert on the root with the corrected add: the root is never empty afterwards. */
  function TreeInsertFixed(root: Tree, p: Pair): (t: Tree)
    requires WellShaped(root)
    ensures t.Node? && t.lkv.Some?
  {
    if root == Nil then Leaf(p) else InsertHelpFixed(root, p).root
  }

  /**
   * An insertion into a subtree of height h hands back a subtree of height
   * h, or a one-key node of height h + 1 whose left half is the old node.
   */
  predicate InsertShape(res: AddResult, h: nat) {
    if res.split then Balanced(res.root, h + 1) && res.root.rkv.None? && Balanced(res.self, h)
    else Balanced(res.root, h)
  }

  // ---------------------------------------------------------------
  // Order facts about a node
  // ---------------------------------------------------------------

  lemma SortedAround(x: seq<Pair>, m: Pair, y: seq<Pair>)
    requires StrictlySorted(x + [m] + y)
    ensures StrictlySorted(x) && StrictlySorted(y)
    ensures forall e :: e in x ==> Lt(e, m)
    ensures forall e :: e in y ==> Lt(m, e)
  {
    var s := x + [m] + y;
    forall i, j | 0 <= i < j < |x|
      ensures Lt(x[i], x[j])
    {
      assert s[i] == x[i] && s[j] == x[j];
    }
    forall i, j | 0 <= i < j < |y|
      ensures Lt(y[i], y[j])
    {
      assert s[|x| + 1 + i] == y[i] && s[|x| + 1 + j] == y[j];
    }
    forall e | e in x
      ensures Lt(e, m)
    {
      var i :| 0 <= i < |x| && x[i] == e;
      assert s[i] == e && s[|x|] == m;
    }
    forall e | e in y
      ensures Lt(m, e)
    {
      var j :| 0 <= j < |y| && y[j] == e;
      assert s[|x| + 1 + j] == e && s[|x|] == m;
    }
  }

  /** In a strictly sorted node each part lies strictly between the pairs around it. */
  lemma NodeOrder(t: Tree)
    requires t.Node? && t.lkv.Some? && (t.rkv.None? ==> t.right == Nil) && StrictlySorted(InOrder(t))
    ensures StrictlySorted(InOrder(t.left)) && StrictlySorted(InOrder(t.center)) && StrictlySorted(InOrder(t.right))
    ensures forall e :: e in InOrder(t.left) ==> Lt(e, t.lkv.value)
    ensures forall e :: e in InOrder(t.center) ==> Lt(t.lkv.value, e)
    ensures forall e :: e in InOrder(t.right) ==> Lt(t.lkv.value, e)
    ensures t.rkv.Some? ==> Lt(t.lkv.value, t.rkv.value)
    ensures t.rkv.Some? ==> forall e :: e in InOrder(t.center) ==> Lt(e, t.rkv.value)
    ensures t.rkv.Some? ==> forall e :: e in InOrder(t.right) ==> Lt(t.rkv.value, e)
  {
    var A, l, B, C := InOrder(t.left), t.lkv.value, InOrder(t.center), InOrder(t.right);
    if t.rkv.None? {
      assert C == [];
      RegroupOneKey(A, l, B);
      SortedAround(A, l, B);
    } else {
      var r := t.rkv.value;
      RegroupTwoKeys(A, l, B, r, C);
      SortedAround(A, l, B + [r] + C);
      SortedAround(B, r, C);
      assert r in B + [r] + C;
    }
  }

  /** The middle pair of a split comes from the subtree it split off or is the new pair. */
  lemma SplitKeyFrom(n: Tree, h: nat, s: seq<Pair>, p: Pair)
    requires Balanced(n, h) && InOrder(n) == InsertSorted(s, p)
    ensures n.lkv.value in s || n.lkv.value == p
  {
    assert n.lkv.value in InOrder(n);
    InsertSortedElements(s, p);
    assert n.lkv.value in multiset(InsertSorted(s, p));
  }

  // ---------------------------------------------------------------
  // The corrected add, one lemma per child the insertion went into
  // ---------------------------------------------------------------

  lemma RegroupLeftOne(n: seq<Pair>, l: seq<Pair>, b: seq<Pair>)
    ensures n + l + b == n + (l + b + [] + [])
  {
  }

  lemma RegroupLeftTwo(n: seq<Pair>, l: seq<Pair>, b: seq<Pair>, r: seq<Pair>, c: seq<Pair>)
    ensures n + l + (b + r + c + [] + []) + [] + [] == n + (l + b + r + c)
  {
  }

  /** A split of the left child goes to the left of this node's pairs. */
  lemma AddFixedLeft(t: Tree, stale: Tree, n: Tree, h: nat)
    requires h >= 2 && Balanced(t, h) && Balanced(n, h) && n.rkv.None?
    requires Le(n.lkv.value, t.lkv.value)
    ensures InsertShape(AddFixed(t.(left := stale), n), h)
    ensures InOrder(AddFixed(t.(left := stale), n).root) ==
            InOrder(n) + (Keys(t.lkv) + InOrder(t.center) + Keys(t.rkv) + InOrder(t.right))
  {
    var Node(l, r, a, b, c) := t;
    var res := AddFixed(t.(left := stale), n);
    InOrderTwoNode(n);
    if r.None? {
      assert res.root == Node(n.lkv, l, n.left, n.center, b);
      assert InOrder(res.root) == InOrder(n) + Keys(l) + InOrder(b) + [] + [];
      RegroupLeftOne(InOrder(n), Keys(l), InOrder(b));
    } else {
      var self' := Node(r, None, b, c, Nil);
      assert res.root == Node(l, None, n, self', Nil);
      assert Balanced(self', h);
      RegroupLeftTwo(InOrder(n), Keys(l), InOrder(b), Keys(r), InOrder(c));
    }
  }

  lemma RegroupCenterOne(a: seq<Pair>, l: seq<Pair>, n1: seq<Pair>, x: seq<Pair>, n2: seq<Pair>)
    ensures a + l + n1 + x + n2 == (a + l) + ((n1 + x + n2) + ([] + []))
  {
  }

  lemma RegroupCenterTwo(a: seq<Pair>, l: seq<Pair>, n1: seq<Pair>, x: seq<Pair>, n2: seq<Pair>, r: seq<Pair>, c: seq<Pair>)
    ensures (a + l + n1 + [] + []) + x + (n2 + r + c + [] + []) + [] + [] == (a + l) + ((n1 + x + n2) + (r + c))
  {
  }

  /** A split of the center child goes between this node's pairs. */
  lemma AddFixedCenter(t: Tree, stale: Tree, n: Tree, h: nat)
    requires h >= 2 && Balanced(t, h) && Balanced(n, h) && n.rkv.None?
    requires Lt(t.lkv.value, n.lkv.value)
    requires t.rkv.Some? ==> Le(n.lkv.value, t.rkv.value)
    ensures InsertShape(AddFixed(t.(center := stale), n), h)
    ensures InOrder(AddFixed(t.(center := stale), n).root) ==
            (InOrder(t.left) + Keys(t.lkv)) + (InOrder(n) + (Keys(t.rkv) + InOrder(t.right)))
  {
    var Node(l, r, a, b, c) := t;
    var res := AddFixed(t.(center := stale), n);
    InOrderTwoNode(n);
    if r.None? {
      assert res.root == Node(l, n.lkv, a, n.left, n.center);
      RegroupCenterOne(InOrder(a), Keys(l), InOrder(n.left), Keys(n.lkv), InOrder(n.center));
    } else {
      var self' := Node(l, None, a, n.left, Nil);
      var right' := Node(r, None, n.center, c, Nil);
      assert res.root == Node(n.lkv, None, self', right', Nil);
      assert Balanced(self', h) && Balanced(right', h);
      RegroupCenterTwo(InOrder(a), Keys(l), InOrder(n.left), Keys(n.lkv), InOrder(n.center), Keys(r), InOrder(c));
    }
  }

  lemma RegroupRight(a: seq<Pair>, l: seq<Pair>, b: seq<Pair>, r: seq<Pair>, n: seq<Pair>)
    ensures (a + l + b + [] + []) + r + n + [] + [] == (a + l + b + r) + n
  {
  }

  /** A split of the right child goes to the right of this node's pairs. */
  lemma AddFixedRight(t: Tree, stale: Tree, n: Tree, h: nat)
    requires h >= 2 && Balanced(t, h) && Balanced(n, h) && n.rkv.None? && t.rkv.Some?
    requires Lt(t.lkv.value, n.lkv.value) && Lt(t.rkv.value, n.lkv.value)
    ensures InsertShape(AddFixed(t.(right := stale), n), h)
    ensures InOrder(AddFixed(t.(right := stale), n).root) ==
            (InOrder(t.left) + Keys(t.lkv) + InOrder(t.center) + Keys(t.rkv)) + InOrder(n)
  {
    var Node(l, r, a, b, c) := t;
    var res := AddFixed(t.(right := stale), n);
    var self' := Node(l, None, a, b, Nil);
    assert res.root == Node(r, None, self', n, Nil);
    assert Balanced(self', h);
    RegroupRight(InOrder(a), Keys(l), InOrder(b), Keys(r), InOrder(n));
  }

  /** At a leaf, add puts the new pair at its sorted place among the leaf's one or two pairs. */
  lemma AddFixedLeaf(t: Tree, p: Pair)
    requires Balanced(t, 1)
    ensures InsertShape(AddFixed(t, Leaf(p)), 1)
    ensures InOrder(AddFixed(t, Leaf(p)).root) == InsertSorted(InOrder(t), p)
  {
    if t.rkv.None? {
      AddFixedLeafOne(t, p);
    } else {
      AddFixedLeafTwo(t, p);
    }
  }

  lemma AddFixedLeafOne(t: Tree, p: Pair)
    requires Balanced(t, 1) && t.rkv.None?
    ensures InsertShape(AddFixed(t, Leaf(p)), 1)
    ensures InOrder(AddFixed(t, Leaf(p)).root) == InsertSorted(InOrder(t), p)
  {
    var l := t.lkv.value;
    assert InOrder(t) == [l];
    assert InsertSorted([l], p) == if Le(p, l) then [p, l] else [l, p];
    LtIsCompare(l, p);
    var res := AddFixed(t, Leaf(p));
    if Lt(l, p) {
      assert res.root == Node(Some(l), Some(p), Nil, Nil, Nil);
    } else {
      assert res.root == Node(Some(p), Some(l), Nil, Nil, Nil);
    }
  }

  lemma InsertSortedTwo(l: Pair, r: Pair, p: Pair)
    ensures InsertSorted([l, r], p) == if Le(p, l) then [p, l, r] else if Le(p, r) then [l, p, r] else [l, r, p]
  {
    var s := [l, r];
    if !Le(p, l) {
      assert s[0] == l && s[1..] == [r];
      assert InsertSorted(s, p) == [l] + InsertSorted([r], p);
      if !Le(p, r) {
        assert [r][1..] == [];
        assert InsertSorted([r], p) == [r] + InsertSorted([], p);
      }
    }
  }

  lemma LeafFacts(x: Pair)
    ensures Balanced(Leaf(x), 1) && InOrder(Leaf(x)) == [x]
  {
    assert InOrder(Leaf(x)) == [] + [x] + [] + [] + [];
  }

  /** A one-key node over two leaves. */
  lemma TwoLeaves(x: Pair, y: Pair, z: Pair)
    ensures Balanced(Node(Some(y), None, Leaf(x), Leaf(z), Nil), 2)
    ensures InOrder(Node(Some(y), None, Leaf(x), Leaf(z), Nil)) == [x, y, z]
  {
    LeafFacts(x);
    LeafFacts(z);
    assert InOrder(Node(Some(y), None, Leaf(x), Leaf(z), Nil)) == [x] + [y] + [z] + [] + [];
  }

  lemma AddFixedLeafTwoResult(l: Pair, r: Pair, p: Pair)
    ensures AddFixed(Node(Some(l), Some(r), Nil, Nil, Nil), Leaf(p)) ==
            if Le(p, l) then AddResult(Node(Some(l), None, Leaf(p), Leaf(r), Nil), Leaf(r), true)
            else if Le(p, r) then AddResult(Node(Some(p), None, Leaf(l), Leaf(r), Nil), Leaf(l), true)
            else AddResult(Node(Some(r), None, Leaf(l), Leaf(p), Nil), Leaf(l), true)
  {
    LtIsCompare(p, l);
    LtIsCompare(p, r);
  }

  lemma AddFixedLeafTwo(t: Tree, p: Pair)
    requires Balanced(t, 1) && t.rkv.Some?
    ensures InsertShape(AddFixed(t, Leaf(p)), 1)
    ensures InOrder(AddFixed(t, Leaf(p)).root) == InsertSorted(InOrder(t), p)
  {
    var l, r := t.lkv.value, t.rkv.value;
    assert t == Node(Some(l), Some(r), Nil, Nil, Nil);
    assert InOrder(t) == [l, r] by {
      assert InOrder(t) == [] + [l] + [] + [r] + [];
    }
    InsertSortedTwo(l, r, p);
    AddFixedLeafTwoResult(l, r, p);
    LeafFacts(l);
    if Le(p, l) {
      TwoLeaves(p, l, r);
    } else if Le(p, r) {
      TwoLeaves(l, p, r);
    } else {
      TwoLeaves(l, r, p);
    }
  }

  // ---------------------------------------------------------------
  // The corrected insertion
  // ---------------------------------------------------------------

  /**
   * insertHelp with the corrected add keeps the tree balanced, grows it by
   * at most one level, and puts the pair at its sorted place.
   */
  lemma InsertHelpFixedCorrect(t: Tree, h: nat, p: Pair)
    requires Balanced(t, h) && StrictlySorted(InOrder(t))
    ensures WellShaped(t) && InsertShape(InsertHelpFixed(t, p), h)
    ensures WellShaped(t) && InOrder(InsertHelpFixed(t, p).root) == InsertSorted(InOrder(t), p)
  {
    InsertHelpFixedShape(t, h, p);
    InsertHelpFixedContents(t, h, p);
  }

  /** The corrected insertHelp puts the pair at its sorted place. */
  lemma {:induction false} InsertHelpFixedContents(t: Tree, h: nat, p: Pair)
    requires Balanced(t, h) && WellShaped(t) && StrictlySorted(InOrder(t))
    ensures InOrder(InsertHelpFixed(t, p).root) == InsertSorted(InOrder(t), p)
    decreases t
  {
    var Node(l, r, a, b, c) := t;
    if a == Nil {
      AddFixedLeaf(t, p);
    } else {
      NodeOrder(t);
      LtIsCompare(p, l.value);
      if ComparePairs(p, l.value) <= 0 {
        InsertFixedLeft(t, h, p);
      } else if c == Nil || ComparePairs(p, r.value) <= 0 {
        if r.Some? {
          LtIsCompare(p, r.value);
        }
        InsertFixedCenter(t, h, p);
      } else {
        LtIsCompare(p, r.value);
        InsertFixedRight(t, h, p);
      }
    }
  }

  lemma {:induction false} InsertFixedLeft(t: Tree, h: nat, p: Pair)
    requires Balanced(t, h) && WellShaped(t) && t.left != Nil && Le(p, t.lkv.value)
    requires StrictlySorted(InOrder(t.left)) && forall e :: e in InOrder(t.left) ==> Lt(e, t.lkv.value)
    ensures InOrder(InsertHelpFixed(t, p).root) == InsertSorted(InOrder(t), p)
    decreases t, 0
  {
    LeftInput(t, p);
    LtIsCompare(p, t.lkv.value);
    InsertHelpFixedShape(t.left, h - 1, p);
    InsertHelpFixedContents(t.left, h - 1, p);
    var sub := InsertHelpFixed(t.left, p);
    if sub.split {
      SplitKeyFrom(sub.root, h, InOrder(t.left), p);
    }
    LeftStep(t, h, p, sub);
  }

  /** A pair at or below the left pair lands among the left child's pairs. */
  lemma LeftInput(t: Tree, p: Pair)
    requires t.Node? && t.lkv.Some? && Le(p, t.lkv.value)
    ensures InsertSorted(InOrder(t), p) ==
            InsertSorted(InOrder(t.left), p) + (Keys(t.lkv) + InOrder(t.center) + Keys(t.rkv) + InOrder(t.right))
  {
    var rest := Keys(t.lkv) + InOrder(t.center) + Keys(t.rkv) + InOrder(t.right);
    assert rest[0] == t.lkv.value;
    InOrderSplitLeft(t);
    InsertSortedBefore(InOrder(t.left), rest, p);
  }

  /** The left child's insertion result, put back into the node. */
  lemma LeftStep(t: Tree, h: nat, p: Pair, sub: AddResult)
    requires Balanced(t, h) && WellShaped(t) && t.left != Nil && ComparePairs(p, t.lkv.value) <= 0
    requires sub == InsertHelpFixed(t.left, p) && InsertShape(sub, h - 1)
    requires sub.split ==> Le(sub.root.lkv.value, t.lkv.value)
    ensures InOrder(InsertHelpFixed(t, p).root) ==
            InOrder(sub.root) + (Keys(t.lkv) + InOrder(t.center) + Keys(t.rkv) + InOrder(t.right))
  {
    var t' := t.(left := sub.self);
    if sub.split {
      assert InsertHelpFixed(t, p) == AddFixed(t', sub.root);
      AddFixedLeft(t, sub.self, sub.root, h);
    } else {
      assert InsertHelpFixed(t, p) == AddResult(t', t', false);
      InOrderSplitLeft(t');
    }
  }

  lemma {:induction false} InsertFixedCenter(t: Tree, h: nat, p: Pair)
    requires Balanced(t, h) && WellShaped(t) && t.left != Nil && Lt(t.lkv.value, p)
    requires t.rkv.Some? ==> Le(p, t.rkv.value)
    requires StrictlySorted(InOrder(t.center)) && forall e :: e in InOrder(t.center) ==> Lt(t.lkv.value, e)
    requires t.rkv.Some? ==> forall e :: e in InOrder(t.center) ==> Lt(e, t.rkv.value)
    requires forall e :: e in InOrder(t.left) + Keys(t.lkv) ==> !Le(p, e)
    ensures InOrder(InsertHelpFixed(t, p).root) == InsertSorted(InOrder(t), p)
    decreases t, 0
  {
    CenterInput(t, p);
    LtIsCompare(p, t.lkv.value);
    if t.rkv.Some? {
      LtIsCompare(p, t.rkv.value);
    }
    InsertHelpFixedShape(t.center, h - 1, p);
    InsertHelpFixedContents(t.center, h - 1, p);
    var sub := InsertHelpFixed(t.center, p);
    if sub.split {
      SplitKeyFrom(sub.root, h, InOrder(t.center), p);
    }
    CenterStep(t, h, p, sub);
  }

  /** A pair above everything left of the center child, and at or below the right pair, lands among the center child's pairs. */
  lemma CenterInput(t: Tree, p: Pair)
    requires t.Node? && (t.rkv.Some? ==> Le(p, t.rkv.value)) && (t.rkv.None? ==> t.right == Nil)
    requires forall e :: e in InOrder(t.left) + Keys(t.lkv) ==> !Le(p, e)
    ensures InsertSorted(InOrder(t), p) ==
            (InOrder(t.left) + Keys(t.lkv)) + (InsertSorted(InOrder(t.center), p) + (Keys(t.rkv) + InOrder(t.right)))
  {
    var front, B, tail := InOrder(t.left) + Keys(t.lkv), InOrder(t.center), Keys(t.rkv) + InOrder(t.right);
    InOrderSplitCenter(t);
    InsertSortedAfter(front, B + tail, p);
    if t.rkv.Some? {
      assert tail[0] == t.rkv.value;
    } else {
      assert tail == [];
    }
    InsertSortedBefore(B, tail, p);
  }

  /** The center child's insertion result, put back into the node. */
  lemma CenterStep(t: Tree, h: nat, p: Pair, sub: AddResult)
    requires Balanced(t, h) && WellShaped(t) && t.left != Nil && !(ComparePairs(p, t.lkv.value) <= 0) && (t.right == Nil || ComparePairs(p, t.rkv.value) <= 0)
    requires sub == InsertHelpFixed(t.center, p) && InsertShape(sub, h - 1)
    requires sub.split ==> Lt(t.lkv.value, sub.root.lkv.value) && (t.rkv.Some? ==> Le(sub.root.lkv.value, t.rkv.value))
    ensures InOrder(InsertHelpFixed(t, p).root) ==
            (InOrder(t.left) + Keys(t.lkv)) + (InOrder(sub.root) + (Keys(t.rkv) + InOrder(t.right)))
  {
    var t' := t.(center := sub.self);
    if sub.split {
      assert InsertHelpFixed(t, p) == AddFixed(t', sub.root);
      AddFixedCenter(t, sub.self, sub.root, h);
    } else {
      assert InsertHelpFixed(t, p) == AddResult(t', t', false);
      InOrderSplitCenter(t');
    }
  }

  lemma AboveBoth(l: Pair, r: Pair, p: Pair)
    requires Lt(l, r) && Lt(r, p)
    ensures ComparePairs(p, l) > 0 && ComparePairs(p, r) > 0
  {
    LtIsCompare(p, l);
    LtIsCompare(p, r);
  }

  lemma {:induction false} InsertFixedRight(t: Tree, h: nat, p: Pair)
    requires Balanced(t, h) && WellShaped(t) && t.left != Nil && t.rkv.Some? && Lt(t.lkv.value, t.rkv.value) && Lt(t.rkv.value, p)
    requires StrictlySorted(InOrder(t.right)) && forall e :: e in InOrder(t.right) ==> Lt(t.rkv.value, e)
    requires forall e :: e in InOrder(t.left) ==> Lt(e, t.lkv.value)
    requires forall e :: e in InOrder(t.center) ==> Lt(e, t.rkv.value)
    ensures InOrder(InsertHelpFixed(t, p).root) == InsertSorted(InOrder(t), p)
    decreases t, 0
  {
    RightInput(t, p);
    AboveBoth(t.lkv.value, t.rkv.value, p);
    InsertHelpFixedShape(t.right, h - 1, p);
    InsertHelpFixedContents(t.right, h - 1, p);
    var sub := InsertHelpFixed(t.right, p);
    if sub.split {
      SplitKeyFrom(sub.root, h, InOrder(t.right), p);
    }
    RightStep(t, h, p, sub);
  }

  /** A pair above both pairs of a two-key node lands among the right child's pairs. */
  lemma RightInput(t: Tree, p: Pair)
    requires t.Node? && t.lkv.Some? && t.rkv.Some? && Lt(t.lkv.value, t.rkv.value) && Lt(t.rkv.value, p)
    requires forall e :: e in InOrder(t.left) ==> Lt(e, t.lkv.value)
    requires forall e :: e in InOrder(t.center) ==> Lt(e, t.rkv.value)
    ensures InsertSorted(InOrder(t), p) ==
            (InOrder(t.left) + Keys(t.lkv) + InOrder(t.center) + Keys(t.rkv)) + InsertSorted(InOrder(t.right), p)
  {
    var front := InOrder(t.left) + Keys(t.lkv) + InOrder(t.center) + Keys(t.rkv);
    assert forall e :: e in front ==> !Le(p, e);
    InsertSortedAfter(front, InOrder(t.right), p);
  }

  /** The right child's insertion result, put back into the node. */
  lemma RightStep(t: Tree, h: nat, p: Pair, sub: AddResult)
    requires Balanced(t, h) && WellShaped(t) && t.left != Nil && t.rkv.Some? && ComparePairs(p, t.lkv.value) > 0 && ComparePairs(p, t.rkv.value) > 0
    requires sub == InsertHelpFixed(t.right, p) && InsertShape(sub, h - 1)
    requires sub.split ==> Lt(t.lkv.value, sub.root.lkv.value) && Lt(t.rkv.value, sub.root.lkv.value)
    ensures InOrder(InsertHelpFixed(t, p).root) ==
            (InOrder(t.left) + Keys(t.lkv) + InOrder(t.center) + Keys(t.rkv)) + InOrder(sub.root)
  {
    var t' := t.(right := sub.self);
    if sub.split {
      assert InsertHelpFixed(t, p) == AddFixed(t', sub.root);
      AddFixedRight(t, sub.self, sub.root, h);
    } else {
      assert InsertHelpFixed(t, p) == AddResult(t', t', false);
    }
  }

  // ---------------------------------------------------------------
  // The insertion as written keeps the shape
  // ---------------------------------------------------------------

  /** add as written still hands back a balanced node: only pairs go missing, never levels. */
  lemma AddShape(t: Tree, n: Tree, h: nat)
    requires Balanced(t, h) && Balanced(n, h) && n.rkv.None?
    ensures InsertShape(Add(t, n), h)
  {
  }

  /** insertHelp as written keeps the tree balanced and grows it by at most one level. */
  lemma {:induction false} InsertHelpShape(t: Tree, h: nat, p: Pair)
    requires Balanced(t, h)
    ensures WellShaped(t) && InsertShape(InsertHelp(t, p), h)
    decreases t
  {
    BalancedWellShaped(t, h);
    var Node(l, r, a, b, c) := t;
    if a == Nil {
      AddShape(t, Leaf(p), 1);
    } else if ComparePairs(p, l.value) <= 0 {
      var sub := InsertHelp(a, p);
      assert InsertShape(sub, h - 1) by {
        InsertHelpShape(a, h - 1, p);
      }
      var t' := t.(left := sub.self);
      if sub.split {
        assert InsertHelp(t, p) == Add(t', sub.root);
        AddShape(t', sub.root, h);
      }
    } else if c == Nil || ComparePairs(p, r.value) <= 0 {
      var sub := InsertHelp(b, p);
      assert InsertShape(sub, h - 1) by {
        InsertHelpShape(b, h - 1, p);
      }
      var t' := t.(center := sub.self);
      if sub.split {
        assert InsertHelp(t, p) == Add(t', sub.root);
        AddShape(t', sub.root, h);
      }
    } else {
      var sub := InsertHelp(c, p);
      assert InsertShape(sub, h - 1) by {
        InsertHelpShape(c, h - 1, p);
      }
      var t' := t.(right := sub.self);
      if sub.split {
        assert InsertHelp(t, p) == Add(t', sub.root);
        AddShape(t', sub.root, h);
      }
    }
  }
  lemma AddFixedShape(t: Tree, n: Tree, h: nat)
    requires Balanced(t, h) && Balanced(n, h) && n.rkv.None?
    ensures InsertShape(AddFixed(t, n), h)
  {
  }

  /** The corrected insertHelp keeps any 2-3 tree balanced, whatever order its pairs are in. */
  lemma {:induction false} InsertHelpFixedShape(t: Tree, h: nat, p: Pair)
    requires Balanced(t, h)
    ensures WellShaped(t) && InsertShape(InsertHelpFixed(t, p), h)
    decreases t
  {
    BalancedWellShaped(t, h);
    var Node(l, r, a, b, c) := t;
    if a == Nil {
      AddFixedShape(t, Leaf(p), 1);
    } else if ComparePairs(p, l.value) <= 0 {
      var sub := InsertHelpFixed(a, p);
      assert InsertShape(sub, h - 1) by {
        InsertHelpFixedShape(a, h - 1, p);
      }
      var t' := t.(left := sub.self);
      if sub.split {
        assert InsertHelpFixed(t, p) == AddFixed(t', sub.root);
        AddFixedShape(t', sub.root, h);
      }
    } else if c == Nil || ComparePairs(p, r.value) <= 0 {
      var sub := InsertHelpFixed(b, p);
      assert InsertShape(sub, h - 1) by {
        InsertHelpFixedShape(b, h - 1, p);
      }
      var t' := t.(center := sub.self);
      if sub.split {
        assert InsertHelpFixed(t, p) == AddFixed(t', sub.root);
        AddFixedShape(t', sub.root, h);
      }
    } else {
      var sub := InsertHelpFixed(c, p);
      assert InsertShape(sub, h - 1) by {
        InsertHelpFixedShape(c, h - 1, p);
      }
      var t' := t.(right := sub.self);
      if sub.split {
        assert InsertHelpFixed(t, p) == AddFixed(t', sub.root);
        AddFixedShape(t', sub.root, h);
      }
    }
  }
}
