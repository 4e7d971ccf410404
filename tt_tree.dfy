/**
 * The tree object of src/TTTree.java: it holds the root node and replaces
 * it when an insertion splits the root or a removal leaves the root
 * without keys. It uses the corrected insertion and removal (see
 * TTInsertion and TTRemoval); the ghost height records the number of
 * levels.
 */
module TTTrees {
  import opened Wrappers
  import opened TTNodes
  import opened TTOrder
  import opened TTShapes
  import opened TTInsertion
  import opened TTRemoval

  /** What TTTree needs of the corrected insertion: a 2-3 tree again, at most one level taller. */
  lemma InsertFixedValid(t: Tree, h: nat, p: Pair) returns (h': nat)
    requires WellShaped(t) && if t == Nil then h == 0 else Balanced(t, h)
    ensures WellShaped(TreeInsertFixed(t, p)) && Balanced(TreeInsertFixed(t, p), h')
    ensures h' == h || h' == h + 1
    ensures StrictlySorted(InOrder(t)) ==> InOrder(TreeInsertFixed(t, p)) == InsertSorted(InOrder(t), p)
  {
    if t == Nil {
      h' := 1;
    } else {
      var res := InsertHelpFixed(t, p);
      assert InsertShape(res, h) by {
        InsertHelpFixedShape(t, h, p);
      }
      if StrictlySorted(InOrder(t)) {
        InsertHelpFixedCorrect(t, h, p);
      }
      h' := if res.split then h + 1 else h;
      BalancedWellShaped(res.root, h');
    }
  }

  /**
   * What TTTree needs of the corrected removal: a 2-3 tree again, at most
   * one level shorter, and empty only when a one-leaf tree lost its key.
   */
  lemma RemoveFixedValid(t: Tree, h: nat, k: int) returns (h': nat)
    requires Balanced(t, h)
    ensures WellShaped(t)
    ensures WellShaped(TreeRemoveFixed(t, k).1)
    ensures if TreeRemoveFixed(t, k).1 == Nil then h' == 0 else Balanced(TreeRemoveFixed(t, k).1, h')
    ensures h' == h || h' + 1 == h
    ensures StrictKeys(InOrder(t)) ==>
              TreeRemoveFixed(t, k).0 == Lookup(InOrder(t), k) &&
              InOrder(TreeRemoveFixed(t, k).1) == RemoveKey(InOrder(t), k)
  {
    BalancedWellShaped(t, h);
    var res := RemoveHelperFixed(t, k);
    assert BalancedOrUnderfull(res.self, h) by {
      RemoveFixedShape(t, h, k);
    }
    if StrictKeys(InOrder(t)) {
      RemoveFixedContents(t, h, k);
    }
    if res.self.lkv.None? {
      assert InOrder(res.self) == InOrder(res.self.left);
      h' := h - 1;
      if h' > 0 {
        BalancedWellShaped(res.self.left, h');
      }
    } else {
      h' := h;
      BalancedWellShaped(res.self, h);
    }
  }

  class TTTree {
    var root: Tree
    /** The number of levels: 0 for the empty tree, 1 for a single leaf. */
    ghost var height: nat

    /** The root is Nil or a 2-3 tree with every leaf at depth `height`. */
    ghost predicate Valid()
      reads this
    {
      WellShaped(root) && if root == Nil then height == 0 else Balanced(root, height)
    }

    /** The pairs held, in order. */
    function Contents(): seq<Pair>
      reads this
    {
      InOrder(root)
    }

    constructor()
      ensures Valid() && root == Nil && Contents() == []
    {
      root := Nil;
      height := 0;
    }

    /**
     * insert: an empty tree gets a one-leaf root; otherwise the pair goes
     * in through the root, and a split root is replaced by the new node
     * above it.
     */
    method Insert(p: Pair)
      requires Valid()
      modifies this
      ensures Valid()
      ensures root == TreeInsertFixed(old(root), p)
      ensures height == old(height) || height == old(height) + 1
      ensures StrictlySorted(old(Contents())) ==> Contents() == InsertSorted(old(Contents()), p)
    {
      ghost var h' := InsertFixedValid(root, height, p);
      if root == Nil {
        root := Leaf(p);
      } else {
        root := InsertHelpFixed(root, p).root;
      }
      height := h';
    }

    /**
     * remove: removes the key from the root down; a root left without keys
     * gives way to its only child, and the tree becomes empty when that was
     * its last pair.
     */
    method Remove(k: int) returns (v: Option<int>)
      requires Valid() && root != Nil
      modifies this
      ensures Valid()
      ensures (v, root) == TreeRemoveFixed(old(root), k)
      ensures height == old(height) || height + 1 == old(height)
      ensures StrictKeys(old(Contents())) ==>
                v == Lookup(old(Contents()), k) && Contents() == RemoveKey(old(Contents()), k)
    {
      ghost var h' := RemoveFixedValid(root, height, k);
      var res := RemoveHelperFixed(root, k);
      v := res.value;
      if res.self.lkv.None? {
        root := res.self.left;
      } else {
        root := res.self;
      }
      height := h';
    }
  }
}
