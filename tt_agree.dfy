/**
 * Where the 2-3 tree of src/TTNode.java, as written, does what the
 * corrected functions of TTInsertion and TTRemoval do. add goes wrong
 * only where it keeps the parent's pointer to the child the split came
 * from instead of the split's left half; removeHelper goes wrong only
 * where it removes the right key of an internal node.
 */
module TTAgreement {
  import opened Wrappers
  import opened TTNodes
  import opened TTShapes
  import opened TTInsertion
  import opened TTRemoval

  // ---------------------------------------------------------------
  // add
  // ---------------------------------------------------------------

  /**
   * The child add as written keeps where the corrected add puts the
   * split's left half differs from that half: with one key, the left
   * child when the split key goes left; with two keys, the center child
   * when the split key goes between them and the right child when it goes
   * past both. When the split key goes left of a two-key node, both put
   * the split node in whole.
   */
  predicate Stale(t: Tree, node: Tree)
    requires t.Node? && t.lkv.Some? && node.Node? && node.lkv.Some?
  {
    var l := t.lkv.value;
    if t.rkv.None? then ComparePairs(l, node.lkv.value) >= 0 && t.left != node.left
    else if ComparePairs(l, node.lkv.value) >= 0 then false
    else if ComparePairs(t.rkv.value, node.lkv.value) >= 0 then t.center != node.left
    else t.right != node.left
  }

  /** add as written gives what the corrected add gives exactly when it keeps no stale child. */
  lemma AddAgrees(t: Tree, node: Tree)
    requires t.Node? && t.lkv.Some? && node.Node? && node.lkv.Some? && node.rkv.None?
    ensures Add(t, node) == AddFixed(t, node) <==> !Stale(t, node)
  {
    var Node(l, r, a, b, c) := t;
    if r.None? && ComparePairs(l.value, node.lkv.value) >= 0 && a != node.left {
      assert Add(t, node).self.left == a;
    } else if r.Some? && ComparePairs(l.value, node.lkv.value) < 0 {
      if ComparePairs(r.value, node.lkv.value) >= 0 && b != node.left {
        assert Add(t, node).self.center == b;
      } else if ComparePairs(r.value, node.lkv.value) < 0 && c != node.left {
        assert Add(t, node).root.center.left == c;
      }
    }
  }

  /** A one-key parent whose split key goes right of its key: both versions give the same node. */
  lemma AddCenterAgrees(t: Tree, node: Tree)
    requires t.Node? && t.lkv.Some? && t.rkv.None? && node.Node? && node.lkv.Some? && node.rkv.None?
    requires node.right == Nil && ComparePairs(t.lkv.value, node.lkv.value) < 0
    ensures Add(t, node) == AddFixed(t, node)
    ensures !Add(t, node).split && InOrder(Add(t, node).root) == InOrder(t.left) + [t.lkv.value] + InOrder(node)
  {
    AddAgrees(t, node);
    var n := Node(t.lkv, node.lkv, t.left, node.left, node.center);
    assert Add(t, node).root == n;
    var x, y, z := InOrder(t.left), InOrder(node.left), InOrder(node.center);
    assert InOrder(node) == y + [node.lkv.value] + z + [] + [];
    assert InOrder(n) == x + [t.lkv.value] + y + [node.lkv.value] + z;
  }

  /** A new leaf added to a leaf: a leaf has no child to go stale, so both versions agree. */
  lemma AddLeafAgrees(t: Tree, p: Pair)
    requires Balanced(t, 1)
    ensures Add(t, Leaf(p)) == AddFixed(t, Leaf(p))
  {
    AddAgrees(t, Leaf(p));
  }

  /** Insertion into a tree that is one leaf agrees, at the node and at the root. */
  lemma InsertLeafAgrees(t: Tree, p: Pair)
    requires Balanced(t, 1)
    ensures InsertHelp(t, p) == InsertHelpFixed(t, p)
    ensures TreeInsert(t, p) == TreeInsertFixed(t, p)
  {
    AddLeafAgrees(t, p);
  }

  // ---------------------------------------------------------------
  // removeHelper
  // ---------------------------------------------------------------

  /** No internal node of t holds a right pair with key k. */
  predicate RightKeyOnlyInLeaves(t: Tree, k: int) {
    match t
    case Nil => true
    case Node(_, r, a, b, c) =>
      (a != Nil && r.Some? ==> r.value.key != k) &&
      RightKeyOnlyInLeaves(a, k) && RightKeyOnlyInLeaves(b, k) && RightKeyOnlyInLeaves(c, k)
  }

  /** Replacing the left pair of the leftmost leaf changes no internal node. */
  lemma {:induction false} SetLeftmostKeeps(t: Tree, p: Pair, k: int)
    requires t.Node? && WellShaped(t) && RightKeyOnlyInLeaves(t, k)
    ensures RightKeyOnlyInLeaves(SetLeftmost(t, p), k)
    decreases t
  {
    if !IsLeaf(t) {
      SetLeftmostKeeps(t.left, p, k);
    }
  }

  /**
   * Unless k is the right key of an internal node, removeHelper as
   * written gives what the corrected removal gives, at the node and at
   * the root.
   */
  lemma {:induction false} RemoveAgrees(t: Tree, k: int)
    requires t.Node? && WellShaped(t) && RightKeyOnlyInLeaves(t, k)
    ensures RemoveHelper(t, k) == RemoveHelperFixed(t, k)
    ensures TreeRemove(t, k) == TreeRemoveFixed(t, k)
    decreases Depth(t)
  {
    var Node(l, r, a, b, c) := t;
    if CompareInt(l.value.key, k) == 0 {
      if !IsLeaf(t) {
        SetLeftmostKeeps(b, l.value, k);
        RemoveAgrees(SetLeftmost(b, l.value), k);
      }
    } else if r.Some? && CompareInt(r.value.key, k) == 0 {
    } else if IsLeaf(t) {
    } else if CompareInt(k, l.value.key) < 0 {
      RemoveAgrees(a, k);
    } else if r.None? || (CompareInt(k, l.value.key) > 0 && CompareInt(k, r.value.key) < 0) {
      RemoveAgrees(b, k);
    } else {
      RemoveAgrees(c, k);
    }
  }

  /** Removal from a tree that is one leaf agrees. */
  lemma RemoveLeafAgrees(t: Tree, k: int)
    requires Balanced(t, 1)
    ensures RemoveHelper(t, k) == RemoveHelperFixed(t, k)
    ensures TreeRemove(t, k) == TreeRemoveFixed(t, k)
  {
    RemoveAgrees(t, k);
  }
}
