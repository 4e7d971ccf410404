/**
 * The 2-3 tree node of src/TTNode.java, on values.
 *
 * A node holds a left and a right key/value pair, either of which may be
 * missing (null in the source), and three child pointers, each of which
 * may be Nil. Keys and values are integers compared as `Integer.compareTo`
 * compares them. Every operation that updates a node in place is a
 * function from the node's value before to its value after; where the
 * source goes on using an object after changing it, the function also
 * returns that object's new value (`self`), so a parent that still points
 * at a changed child sees the change.
 */
module TTNodes {
  import opened Wrappers
  import KVPairs

  datatype Pair = Pair(key: int, val: int)

  datatype Tree =
    | Nil
    | Node(lkv: Option<Pair>, rkv: Option<Pair>, left: Tree, center: Tree, right: Tree)

  /** What add and insertHelp return: the node handed back, the new value of `this`, and whether they differ. */
  datatype AddResult = AddResult(root: Tree, self: Tree, split: bool)

  /** What removeHelper returns: the value removed (or None) and the new value of `this`. */
  datatype RemoveResult = RemoveResult(value: Option<int>, self: Tree)

  function Leaf(p: Pair): Tree {
    Node(Some(p), None, Nil, Nil, Nil)
  }

  // ---------------------------------------------------------------
  // Comparison
  // ---------------------------------------------------------------

  /** Integer.compareTo */
  function CompareInt(a: int, b: int): (r: int)
    ensures r < 0 <==> a < b
    ensures r == 0 <==> a == b
  {
    if a < b then -1 else if a == b then 0 else 1
  }

  /** compareKVPair: keys first, values only when the keys are equal. */
  function CompareKVPair(thisKey: int, thisVal: int, otherKey: int, otherVal: int): (r: int)
    ensures r < 0 <==> thisKey < otherKey || (thisKey == otherKey && thisVal < otherVal)
    ensures r == 0 <==> thisKey == otherKey && thisVal == otherVal
  {
    KVPairs.Lexicographic(CompareInt(thisKey, otherKey), CompareInt(thisVal, otherVal))
  }

  function ComparePairs(p: Pair, q: Pair): int {
    CompareKVPair(p.key, p.val, q.key, q.val)
  }

  /** The order compareKVPair induces on pairs. */
  predicate Le(p: Pair, q: Pair) {
    p.key < q.key || (p.key == q.key && p.val <= q.val)
  }

  // ---------------------------------------------------------------
  // Shape and contents
  // ---------------------------------------------------------------

  /**
   * The shape every node reached by the operations has: a left pair; a
   * leaf has no children; an internal node has a left and a center child,
   * and a right child exactly when it has a right pair.
   */
  predicate WellShaped(t: Tree) {
    t.Nil? ||
    (t.lkv.Some? &&
     if t.left == Nil then t.center == Nil && t.right == Nil
     else HasKey(t.left) && HasKey(t.center) && (if t.rkv.Some? then HasKey(t.right) else t.right == Nil) &&
          WellShaped(t.left) && WellShaped(t.center) && WellShaped(t.right))
  }

  /** A 2-3 tree of height h: well shaped with every leaf at depth h. */
  predicate Balanced(t: Tree, h: nat) {
    t.Node? && t.lkv.Some? && h >= 1 &&
    if h == 1 then t.left == Nil && t.center == Nil && t.right == Nil
    else Balanced(t.left, h - 1) && Balanced(t.center, h - 1) && (if t.rkv.Some? then Balanced(t.right, h - 1) else t.right == Nil)
  }

  /** A node left without keys by a removal: it keeps at most its left child. */
  predicate Underfull(t: Tree, h: nat) {
    h >= 1 && t.Node? && t.lkv.None? && t.rkv.None? && t.center == Nil && t.right == Nil &&
    (if h == 1 then t.left == Nil else Balanced(t.left, h - 1))
  }

  function Keys(o: Option<Pair>): seq<Pair> {
    if o.Some? then [o.value] else []
  }

  /** The pairs of a subtree in order: left, left pair, center, right pair, right. */
  function InOrder(t: Tree): seq<Pair> {
    match t
    case Nil => []
    case Node(l, r, a, b, c) => InOrder(a) + Keys(l) + InOrder(b) + Keys(r) + InOrder(c)
  }

  /** Nodes on the longest downward path; it bounds every recursion below. */
  function Depth(t: Tree): nat {
    match t
    case Nil => 0
    case Node(_, _, a, b, c) => 1 + Max(Depth(a), Max(Depth(b), Depth(c)))
  }

  function Max(x: nat, y: nat): nat {
    if x < y then y else x
  }

  /** isLeaf: a well-shaped node is a leaf exactly when it has no center child either. */
  predicate IsLeaf(t: Tree): (leaf: bool)
    requires t.Node?
    ensures WellShaped(t) ==> (leaf <==> t.center == Nil)
    ensures WellShaped(t) && leaf ==> t.right == Nil
  {
    t.left == Nil
  }

  /** height: 1 at a leaf, else one more than the left child's height; it never exceeds the longest path. */
  function Height(t: Tree): (h: nat)
    requires t.Node? && WellShaped(t)
    ensures 1 <= h <= Depth(t)
  {
    if IsLeaf(t) then 1 else 1 + Height(t.left)
  }

  // ---------------------------------------------------------------
  // Insertion, as written
  // ---------------------------------------------------------------

  /**
   * add: puts the one-key node `node` into this node. With one key the
   * node absorbs it and is returned; with two keys the node splits and a
   * new one-key parent is returned.
   */
  function Add(t: Tree, node: Tree): (res: AddResult)
    requires t.Node? && t.lkv.Some? && node.Node? && node.lkv.Some? && node.rkv.None?
    ensures res.root.Node? && res.root.lkv.Some?
    ensures res.split ==> res.root.rkv.None?
    ensures !res.split ==> res.root == res.self
  {
    var Node(l, r, a, b, c) := t;
    if r.None? then
      if ComparePairs(l.value, node.lkv.value) < 0 then
        var t' := Node(l, node.lkv, a, node.left, node.center);
        AddResult(t', t', false)
      else
        // the left child is not replaced by node.left
        var t' := Node(node.lkv, l, a, node.center, b);
        AddResult(t', t', false)
    else if ComparePairs(l.value, node.lkv.value) >= 0 then
      var self' := Node(r, None, b, c, Nil);
      AddResult(Node(l, None, node, self', Nil), self', true)
    else if ComparePairs(r.value, node.lkv.value) >= 0 then
      // the center child is not replaced by node.left
      var self' := Node(l, None, a, b, Nil);
      AddResult(Node(node.lkv, node.rkv, self', Node(r, None, node.center, c, Nil), node.right), self', true)
    else
      // node.left is overwritten with the old right child
      var self' := Node(l, None, a, b, Nil);
      AddResult(Node(r, None, self', Node(node.lkv, node.rkv, c, node.center, node.right), Nil), self', true)
  }

  /**
   * insertHelp: at a leaf, adds a new leaf holding the pair; otherwise
   * inserts into the child the pair belongs to and, when that child hands
   * back a different node, adds that node here.
   */
  function InsertHelp(t: Tree, p: Pair): (res: AddResult)
    requires t.Node? && WellShaped(t)
    ensures res.root.Node? && res.root.lkv.Some?
    ensures res.split ==> res.root.rkv.None?
    ensures !res.split ==> res.root == res.self
    decreases t
  {
    var Node(l, r, a, b, c) := t;
    if a == Nil then Add(t, Leaf(p))
    else if ComparePairs(p, l.value) <= 0 then
      var sub := InsertHelp(a, p);
      var t' := Node(l, r, sub.self, b, c);
      if !sub.split then AddResult(t', t', false) else Add(t', sub.root)
    else if c == Nil || ComparePairs(p, r.value) <= 0 then
      var sub := InsertHelp(b, p);
      var t' := Node(l, r, a, sub.self, c);
      if !sub.split then AddResult(t', t', false) else Add(t', sub.root)
    else
      var sub := InsertHelp(c, p);
      var t' := Node(l, r, a, b, sub.self);
      if !sub.split then AddResult(t', t', false) else Add(t', sub.root)
  }

  /** TTTree.insert on the root, as written: the root is never empty afterwards. */
  function TreeInsert(root: Tree, p: Pair): (t: Tree)
    requires WellShaped(root)
    ensures t.Node? && t.lkv.Some?
  {
    if root == Nil then Leaf(p) else InsertHelp(root, p).root
  }

  // ---------------------------------------------------------------
  // The successor leaf
  // ---------------------------------------------------------------

  /** The leaf reached from t by following left children. */
  function LeftmostLeaf(t: Tree): (s: Tree)
    requires t.Node? && WellShaped(t)
    ensures s.Node? && s.lkv.Some?
    decreases t
  {
    if IsLeaf(t) then t else LeftmostLeaf(t.left)
  }

  /** The successor loop of removeHelper, walking left children down to a leaf. */
  method FindSuccessor(start: Tree) returns (successor: Tree)
    requires start.Node? && WellShaped(start)
    ensures successor == LeftmostLeaf(start)
  {
    successor := start;
    while !IsLeaf(successor)
      invariant successor.Node? && WellShaped(successor)
      invariant LeftmostLeaf(successor) == LeftmostLeaf(start)
      decreases Depth(successor)
    {
      successor := successor.left;
    }
  }

  /** successor.setLeft(p): t with the left pair of its leftmost leaf replaced. */
  function SetLeftmost(t: Tree, p: Pair): (t': Tree)
    requires t.Node? && WellShaped(t)
    ensures t'.Node? && WellShaped(t') && Depth(t') == Depth(t)
    decreases t
  {
    if IsLeaf(t) then t.(lkv := Some(p))
    else t.(left := SetLeftmost(t.left, p))
  }

  // ---------------------------------------------------------------
  // Rotations
  // ---------------------------------------------------------------

  /** rotateCounterClockwise: a key moves left, from the center (aboutCenter) or the right child through this node. */
  function RotateCounterClockwise(t: Tree, aboutCenter: bool): (t': Tree)
    requires t.Node?
    requires aboutCenter ==> t.left.Node? && t.center.Node?
    requires !aboutCenter ==> t.center.Node? && t.right.Node?
    ensures t'.Node?
    ensures aboutCenter ==> t'.rkv == t.rkv && t'.right == t.right
    ensures !aboutCenter ==> t'.lkv == t.lkv && t'.left == t.left
  {
    var Node(l, r, a, b, c) := t;
    if aboutCenter then
      Node(b.lkv, r,
           Node(l, a.rkv, a.left, b.left, a.right),
           Node(b.rkv, None, b.center, b.right, Nil),
           c)
    else
      Node(l, c.lkv,
           a,
           Node(r, b.rkv, b.left, c.left, b.right),
           Node(c.rkv, None, c.center, c.right, Nil))
  }

  /** rotateClockwise: a key moves right, into the right (aboutCenter) or the center child through this node. */
  function RotateClockwise(t: Tree, aboutCenter: bool): (t': Tree)
    requires t.Node?
    requires aboutCenter ==> t.center.Node? && t.right.Node?
    requires !aboutCenter ==> t.left.Node? && t.center.Node?
    ensures t'.Node?
    ensures aboutCenter ==> t'.lkv == t.lkv && t'.left == t.left
    ensures !aboutCenter ==> t'.rkv == t.rkv && t'.right == t.right
  {
    var Node(l, r, a, b, c) := t;
    if aboutCenter then
      if b.rkv.Some? then
        Node(l, b.rkv,
             a,
             Node(b.lkv, None, b.left, b.center, Nil),
             Node(r, c.rkv, b.right, c.left, c.right))
      else
        Node(l, b.lkv,
             a,
             Node(None, b.rkv, b.left, Nil, b.right),
             Node(r, c.rkv, b.center, c.left, c.right))
    else
      Node(a.rkv, r,
           Node(a.lkv, None, a.left, a.center, Nil),
           Node(l, b.rkv, a.right, b.left, b.right),
           c)
  }

  // ---------------------------------------------------------------
  // Rebalancing after a removal
  // ---------------------------------------------------------------

  /** A child that exists but has lost its keys (lkey() == null). */
  predicate IsEmpty(n: Tree) {
    n.Node? && n.lkv.None?
  }

  /** A child that exists and has a left key. */
  predicate HasKey(n: Tree) {
    n.Node? && n.lkv.Some?
  }

  /** A child that exists and has both keys. */
  predicate IsFull(n: Tree) {
    n.Node? && n.lkv.Some? && n.rkv.Some?
  }

  function EmptyEnds(t: Tree): nat
    requires t.Node?
  {
    (if IsEmpty(t.left) then 1 else 0) + (if IsEmpty(t.right) then 1 else 0)
  }

  /**
   * Where the rebalancing methods are called: no child is empty, or this
   * node has its left key (and its right key when it has a right child)
   * and at most one child is empty.
   */
  predicate RebalanceShape(t: Tree) {
    t.Node? &&
    ((!IsEmpty(t.left) && !IsEmpty(t.center) && !IsEmpty(t.right)) ||
     (t.lkv.Some? && (t.right != Nil ==> t.rkv.Some?) &&
      !(IsEmpty(t.left) && IsEmpty(t.center)) && !(IsEmpty(t.left) && IsEmpty(t.right)) &&
      !(IsEmpty(t.center) && IsEmpty(t.right))))
  }

  /** balanceSiblingWithTwoKeys: an empty child borrows a key from a sibling with two. */
  function BalanceSiblingWithTwoKeys(t: Tree): (t': Tree)
    requires RebalanceShape(t)
    ensures t'.Node?
    decreases EmptyEnds(t)
  {
    var Node(_, _, a, b, c) := t;
    var leftToCenter := IsEmpty(b) && IsFull(a);
    var centerToLeft := IsEmpty(a) && IsFull(b);
    var rightToCenter := IsEmpty(b) && IsFull(c);
    var centerToRight := IsEmpty(c) && IsFull(b);
    var rightToLeft := b != Nil && IsEmpty(a) && IsFull(c);
    var leftToRight := b != Nil && IsEmpty(c) && IsFull(a);
    if leftToCenter then RotateClockwise(t, false)
    else if centerToLeft then RotateCounterClockwise(t, true)
    else if rightToCenter then RotateCounterClockwise(t, false)
    else if centerToRight then RotateClockwise(t, true)
    else if rightToLeft then BalanceSiblingWithTwoKeys(RotateCounterClockwise(t, true))
    else if leftToRight then BalanceSiblingWithTwoKeys(RotateClockwise(t, true))
    else t
  }

  /** balanceTwoSingletonSiblings: with three children, an empty one merges into its neighbours. */
  function BalanceTwoSingletonSiblings(t: Tree): (t': Tree)
    requires RebalanceShape(t)
    ensures t'.Node?
    decreases EmptyEnds(t)
  {
    var Node(l, r, a, b, c) := t;
    var middleUnbalanced := HasKey(a) && IsEmpty(b) && HasKey(c);
    var rightUnbalanced := HasKey(a) && HasKey(b) && IsEmpty(c);
    var leftUnbalanced := IsEmpty(a) && HasKey(b) && HasKey(c);
    if middleUnbalanced then
      Node(r, None, Node(a.lkv, l, a.left, a.center, b.left), c, Nil)
    else if rightUnbalanced then BalanceTwoSingletonSiblings(RotateClockwise(t, true))
    else if leftUnbalanced then BalanceTwoSingletonSiblings(RotateCounterClockwise(t, true))
    else t
  }

  /** balanceOneSingletonSibling: with two children, the two merge and this node becomes empty. */
  function BalanceOneSingletonSibling(t: Tree): (t': Tree)
    requires t.Node?
    ensures t'.Node?
  {
    var Node(l, r, a, b, c) := t;
    var centerUnbalanced := HasKey(a) && IsEmpty(b);
    var leftUnbalanced := IsEmpty(a) && HasKey(b);
    if centerUnbalanced then
      Node(None, r, Node(a.lkv, l, a.left, a.center, b.left), Nil, c)
    else if leftUnbalanced then
      Node(None, r, Node(l, b.lkv, a.left, b.left, b.center), Nil, c)
    else t
  }

  /** rebalanceChildren: picks the repair for an empty child from its siblings' sizes. */
  function RebalanceChildren(t: Tree): (t': Tree)
    requires RebalanceShape(t)
    ensures t'.Node?
  {
    var Node(_, r, a, b, c) := t;
    var leftIsFull := IsFull(a);
    var centerIsFull := IsFull(b);
    var rightIsFull := IsFull(c);
    var leftCenterSingletons := r.Some? && HasKey(a) && HasKey(b);
    var leftRightSingletons := HasKey(a) && HasKey(c);
    var centerRightSingletons := HasKey(b) && HasKey(c);
    var leftSingletonOnly := HasKey(a) && IsEmpty(b);
    var centerSingletonOnly := IsEmpty(a) && HasKey(b);
    if leftIsFull || centerIsFull || rightIsFull then BalanceSiblingWithTwoKeys(t)
    else if leftCenterSingletons || leftRightSingletons || centerRightSingletons then BalanceTwoSingletonSiblings(t)
    else if leftSingletonOnly || centerSingletonOnly then BalanceOneSingletonSibling(t)
    else t
  }

  // ---------------------------------------------------------------
  // Removal, as written
  // ---------------------------------------------------------------

  /**
   * removeHelper: a key found in a leaf is dropped there; a key found in an
   * internal node is swapped with its successor leaf's left pair and removed
   * from the subtree holding that leaf; otherwise the search goes down by
   * key. On the way back each node rebalances its children.
   */
  function RemoveHelper(t: Tree, k: int): (res: RemoveResult)
    requires t.Node? && WellShaped(t)
    ensures res.self.Node?
    decreases Depth(t)
  {
    var Node(l, r, a, b, c) := t;
    if CompareInt(l.value.key, k) == 0 then
      if IsLeaf(t) then
        RemoveResult(Some(l.value.val), RebalanceChildren(Node(r, None, a, b, c)))
      else
        var successor := LeftmostLeaf(b);
        var sub := RemoveHelper(SetLeftmost(b, l.value), k);
        RemoveResult(sub.value, RebalanceChildren(Node(successor.lkv, r, a, sub.self, c)))
    else if r.Some? && CompareInt(r.value.key, k) == 0 then
      if IsLeaf(t) then
        RemoveResult(Some(r.value.val), RebalanceChildren(Node(l, None, a, b, c)))
      else
        // the successor is swapped with the LEFT pair: the left key moves
        // down with the right value, and the right pair stays
        var successor := LeftmostLeaf(c);
        var sub := RemoveHelper(SetLeftmost(c, Pair(l.value.key, r.value.val)), k);
        RemoveResult(sub.value, RebalanceChildren(Node(successor.lkv, r, a, b, sub.self)))
    else if IsLeaf(t) then
      RemoveResult(None, t)
    else if CompareInt(k, l.value.key) < 0 then
      var sub := RemoveHelper(a, k);
      RemoveResult(sub.value, RebalanceChildren(Node(l, r, sub.self, b, c)))
    else if r.None? || (CompareInt(k, l.value.key) > 0 && CompareInt(k, r.value.key) < 0) then
      var sub := RemoveHelper(b, k);
      RemoveResult(sub.value, RebalanceChildren(Node(l, r, a, sub.self, c)))
    else
      var sub := RemoveHelper(c, k);
      RemoveResult(sub.value, RebalanceChildren(Node(l, r, a, b, sub.self)))
  }

  /** TTTree.remove on a non-empty root, as written: a root left empty gives way to its left child. */
  function TreeRemove(root: Tree, k: int): (Option<int>, Tree)
    requires root.Node? && WellShaped(root)
  {
    var res := RemoveHelper(root, k);
    (res.value, if res.self.lkv.None? then res.self.left else res.self)
  }

  // ---------------------------------------------------------------
  // Range search
  // ---------------------------------------------------------------

  /**
   * rangeSearchHelper: appends to `list` the values whose keys lie in
   * [lower, higher], skipping the subtrees the keys rule out.
   */
  function RangeSearchHelper(t: Tree, lower: int, higher: int, list: seq<int>): (r: seq<int>)
    requires t.Node? && WellShaped(t)
    ensures list <= r
    decreases t, 1
  {
    var Node(l, r, a, _, _) := t;
    var lk := l.value.key;
    if IsLeaf(t) then
      var list1 := if CompareInt(lower, lk) <= 0 && CompareInt(higher, lk) >= 0 then list + [l.value.val] else list;
      if r.Some? && CompareInt(lower, r.value.key) <= 0 && CompareInt(higher, r.value.key) >= 0
      then list1 + [r.value.val] else list1
    else if CompareInt(lower, lk) <= 0 then
      var list1 := RangeSearchHelper(a, lower, higher, list);
      if CompareInt(higher, lk) >= 0 then SearchCenterAndRight(t, lower, higher, list1 + [l.value.val])
      else list1
    else if r.None? || CompareInt(lower, r.value.key) <= 0 then
      SearchCenterAndRight(t, lower, higher, list)
    else
      RangeSearchHelper(t.right, lower, higher, list)
  }

  /**
   * The tail both inner branches of rangeSearchHelper share: search the
   * center child, then, when the right key is at most `higher`, add its
   * value and search the right child.
   */
  function SearchCenterAndRight(t: Tree, lower: int, higher: int, list: seq<int>): (r: seq<int>)
    requires t.Node? && WellShaped(t) && !IsLeaf(t)
    ensures list <= r
    decreases t, 0
  {
    var list1 := RangeSearchHelper(t.center, lower, higher, list);
    if t.rkv.Some? && CompareInt(higher, t.rkv.value.key) >= 0
    then RangeSearchHelper(t.right, lower, higher, list1 + [t.rkv.value.val])
    else list1
  }
}
