/** Places where the tree's own bookkeeping disagrees with what it promises,
    each written out as the code does it together with an input that exposes
    it. The rest of the model uses the corrected behaviour
    (`AvlTreeApi.AVLTree.Insert`, `AvlTreeApi.AVLTree.Remove`,
    `AvlRemove.Shrank`, `AvlRemove.DeleteNode` and `AvlRotations.Zig`). */
module AvlFindings {
  import opened AvlDefs
  import opened AvlRotations
  import opened AvlRemove

  /** What `insert` reports, and by how much it changes the `size` of the
      node it was called on, as written: an empty node takes the item and
      returns true without touching `size`; an equivalent item at this node
      returns false; otherwise, whatever the recursive call into the child
      found, `size` grows by one and the result is true. */
  function InsertReportAsWritten<V>(t: Tree<V>, x: Item<V>): (res: (bool, nat))
    ensures t.Empty? ==> res == (true, 0)
    ensures t.Node? ==> (res.0 <==> Compare(x, t.data) != 0)
  {
    if t.Empty? then (true, 0)
    else if Compare(x, t.data) == 0 then (false, 0)
    else (true, 1)
  }

  /** Inserting into an empty tree reports success but leaves its size at
      zero, although the tree now holds one item. */
  lemma InsertIntoEmptyKeepsSizeZero(x: Item<int>)
    ensures InsertReportAsWritten(Empty, x).0
    ensures 0 + InsertReportAsWritten(Empty, x).1 == 0
    ensures Count(Node(Empty, x, 0, Empty)) == 1
  {
  }

  /** Inserting a key that is already present below the root reports success
      and grows the size, although the tree is unchanged. */
  lemma InsertDuplicateBelowRootReportsTrue()
    ensures var t := Node(Node(Empty, Item(3, 0), 0, Empty), Item(5, 0), -1, Empty);
      Valid(t) && 3 in Keys(t) &&
      InsertReportAsWritten(t, Item(3, 1)) == (true, 1)
  {
    var t := Node(Node(Empty, Item(3, 0), 0, Empty), Item(5, 0), -1, Empty);
    assert Keys(t) == {3, 5};
  }

  /** Whether the right subtree shrank after the successor was removed from
      it, as the two-children case of `deleteSubTree` judges it: it became
      empty, or its balance factor changed at all. The factor changing to
      anything but zero does not mean the height dropped. */
  predicate ShrankAsWritten<V>(before: Tree<V>, after: Tree<V>)
  {
    after.Empty? || (before.Node? && after.diff != before.diff)
  }

  /** `DeleteNode` with the shrink test as written. */
  function DeleteNodeAsWritten<V>(t: Tree<V>): (r: Tree<V>)
    requires t.Node?
    ensures Keys(r) == Keys(DeleteNode(t))
  {
    if t.right.Empty? then t.left
    else if t.left.Empty? then t.right
    else
      var s := Leftmost(t.right);
      var r' := Remove(t.right, s).0;
      Node(t.left, s, if ShrankAsWritten(t.right, r') then t.diff - 1 else t.diff, r')
  }

  /** Removing the smallest item from a full subtree of height two leaves a
      right-leaning subtree of the same height. */
  lemma RemoveSuccessorStep()
    ensures Remove(Node(Node(Empty, Item(3, 0), 0, Empty), Item(4, 0), 0,
                        Node(Empty, Item(5, 0), 0, Empty)), Item(3, 0)).0 ==
      Node(Empty, Item(4, 0), 1, Node(Empty, Item(5, 0), 0, Empty))
  {
    var c := Node(Empty, Item(3, 0), 0, Empty);
    assert Remove(c, Item(3, 0)) == (Empty, true) by {
      assert DeleteNode(c) == Empty;
    }
  }

  /** The example tree for `DeleteShrinkMisjudged`. */
  function ShrinkExample(): Tree<int>
  {
    Node(Node(Empty, Item(1, 0), 0, Empty), Item(2, 0), 1,
         Node(Node(Empty, Item(3, 0), 0, Empty), Item(4, 0), 0, Node(Empty, Item(5, 0), 0, Empty)))
  }

  lemma ShrinkExampleValid()
    ensures Valid(ShrinkExample())
  {
    var t := ShrinkExample();
    var a, r, e := t.left, t.right, t.right.right;
    assert Ordered(t) by {
      assert Keys(r.left) == {3} && Keys(e) == {5} && Keys(a) == {1};
      assert Ordered(r);
      assert Keys(r) == {3, 4, 5};
    }
    assert Avl(t) by {
      assert Height(a) == 1 && Height(e) == 1 && Height(r.left) == 1;
      assert Avl(r) && Height(r) == 2;
    }
  }

  /** A valid tree whose root has a leaf on the left and a full subtree of
      height two on the right: removing the root takes the successor out of
      the right subtree, whose balance factor moves from 0 to 1 while its
      height stays 2. The code as written still lowers the root's factor, so
      the recorded factor no longer matches the heights; the corrected
      definition keeps it exact. */
  lemma DeleteShrinkMisjudged()
    ensures Valid(ShrinkExample())
    ensures !DiffOk(DeleteNodeAsWritten(ShrinkExample()))
    ensures DiffOk(DeleteNode(ShrinkExample()))
  {
    ShrinkExampleValid();
    var t := ShrinkExample();
    var e := Node(Empty, Item(5, 0), 0, Empty);
    var r' := Node(Empty, Item(4, 0), 1, e);
    assert Leftmost(t.right) == Item(3, 0);
    RemoveSuccessorStep();
    assert DeleteNodeAsWritten(t) == Node(t.left, Item(3, 0), 0, r');
    assert DeleteNode(t) == Node(t.left, Item(3, 0), 1, r');
  }

  /** What `remove` reports, and by how much it changes the `size` of the
      node it was called on, as written (with the item passed down to the
      child): only the node holding the equivalent item decrements its own
      `size`; a node that passes the call down to a child keeps its `size`. */
  function RemoveReportAsWritten<V>(t: Tree<V>, x: Item<V>): (res: (bool, int))
    ensures res.1 == (if t.Node? && Compare(t.data, x) == 0 then -1 else 0)
    ensures res.0 == Remove(t, x).1
  {
    match t
    case Empty => (false, 0)
    case Node(l, y, _, r) =>
      if Compare(y, x) > 0 then (Remove(l, x).1, 0)
      else if Compare(y, x) < 0 then (Remove(r, x).1, 0)
      else (true, -1)
  }

  /** Removing an item stored below the root reports success, but the
      root's `size`, which `getSize` returns, stays as it was. */
  lemma RemoveBelowRootKeepsSize()
    ensures var t := Node(Node(Empty, Item(3, 0), 0, Empty), Item(5, 0), -1, Empty);
      Valid(t) && Count(Remove(t, Item(3, 0)).0) == Count(t) - 1 &&
      RemoveReportAsWritten(t, Item(3, 0)) == (true, 0)
  {
    var t := Node(Node(Empty, Item(3, 0), 0, Empty), Item(5, 0), -1, Empty);
    assert Keys(t) == {3, 5};
    assert Remove(t.left, Item(3, 0)) == (Empty, true) by {
      assert DeleteNode(t.left) == Empty;
    }
  }

  /** The balance factor the code reads from a node; an empty node has 0. */
  function DiffOf<V>(t: Tree<V>): int
  {
    if t.Node? then t.diff else 0
  }

  /** Whether a child shrank through a removal, as `remove` judges it: it is
      empty afterwards, or its factor changed to zero. A child that was
      already empty, which is where the search for an absent item ends, counts
      as shrunk. */
  predicate ShrankOnRemoveAsWritten<V>(before: Tree<V>, after: Tree<V>)
  {
    after.Empty? || (DiffOf(after) != DiffOf(before) && DiffOf(after) == 0)
  }

  /** `Remove` with the shrink test as written (and the item passed down to
      the child). */
  function RemoveAsWritten<V>(t: Tree<V>, x: Item<V>): (res: (Tree<V>, bool))
    ensures res.1 == Remove(t, x).1
  {
    match t
    case Empty => (Empty, false)
    case Node(l, y, d, r) =>
      if Compare(y, x) > 0 then
        var (l', ok) := RemoveAsWritten(l, x);
        (Rebalance(Node(l', y, if ShrankOnRemoveAsWritten(l, l') then d + 1 else d, r)), ok)
      else if Compare(y, x) < 0 then
        var (r', ok) := RemoveAsWritten(r, x);
        (Rebalance(Node(l, y, if ShrankOnRemoveAsWritten(r, r') then d - 1 else d, r')), ok)
      else
        (Rebalance(DeleteNode(t)), true)
  }

  /** The example tree for `AbsentRemoveRestructures`: 5 with a right leaf 8. */
  function AbsentExample(): Tree<int>
  {
    Node(Empty, Item(5, 0), 1, Node(Empty, Item(8, 0), 0, Empty))
  }

  /** Removing the absent key 3 from a valid tree: the code as written
      reports failure but bumps the root's factor, rotates, and leaves a tree
      that is no longer an AVL tree; the corrected removal leaves it as it
      was. */
  lemma AbsentRemoveRestructures()
    ensures Valid(AbsentExample())
    ensures !RemoveAsWritten(AbsentExample(), Item(3, 0)).1
    ensures RemoveAsWritten(AbsentExample(), Item(3, 0)).0 ==
      Node(Node(Empty, Item(5, 0), 1, Empty), Item(8, 0), -1, Empty)
    ensures !Avl(RemoveAsWritten(AbsentExample(), Item(3, 0)).0)
    ensures Remove(AbsentExample(), Item(3, 0)) == (AbsentExample(), false)
  {
    AbsentExampleValid();
    AbsentRemoveAsWritten();
    AbsentRemoveCorrected();
  }

  lemma AbsentExampleValid()
    ensures Valid(AbsentExample())
  {
    var t := AbsentExample();
    assert Keys(t.right) == {8};
    assert Height(t.right) == 1;
  }

  /** The as-written half of `AbsentRemoveRestructures`. */
  lemma AbsentRemoveAsWritten()
    ensures var res := RemoveAsWritten(AbsentExample(), Item(3, 0));
      !res.1 && res.0 == Node(Node(Empty, Item(5, 0), 1, Empty), Item(8, 0), -1, Empty) &&
      !Avl(res.0)
  {
    var t := AbsentExample();
    var n := Node(Empty, Item(5, 0), 2, t.right);
    assert RemoveAsWritten(t, Item(3, 0)) == (Rebalance(n), false);
    assert Rebalance(n) == Zag(n);
    var bad := Node(Node(Empty, Item(5, 0), 1, Empty), Item(8, 0), -1, Empty);
    assert !DiffOk(bad.left);
  }

  /** The corrected half of `AbsentRemoveRestructures`. */
  lemma AbsentRemoveCorrected()
    ensures Remove(AbsentExample(), Item(3, 0)) == (AbsentExample(), false)
  {
    var t := AbsentExample();
    assert Remove(t, Item(3, 0)) == (Rebalance(t), false);
  }

  /** A right rotation as written: besides the empty left child it also
      refuses to rotate when the right child is empty. */
  function ZigAsWritten<V>(t: Tree<V>): (r: Tree<V>)
    ensures t.Node? && t.right.Empty? ==> r == t
    ensures t.Node? && t.right.Node? ==> r == Zig(t)
  {
    if t.Empty? || t.left.Empty? || t.right.Empty? then t else Zig(t)
  }

  /** The example tree for `ZigGuardSkipsLeftLeft`: inserting 3, 2, 1 leaves
      the root 3 two levels heavier on the left, with no right child. */
  function LeftLeftExample(): Tree<int>
  {
    Node(Node(Node(Empty, Item(1, 0), 0, Empty), Item(2, 0), -1, Empty), Item(3, 0), -2, Empty)
  }

  /** In the left-left case after inserting 3, 2, 1 the rotation as written
      does nothing, leaving a node with factor -2; the corrected rotation
      gives an AVL tree. */
  lemma ZigGuardSkipsLeftLeft()
    ensures NearlyAvl(LeftLeftExample())
    ensures ZigAsWritten(LeftLeftExample()) == LeftLeftExample()
    ensures !Avl(ZigAsWritten(LeftLeftExample()))
    ensures Avl(Zig(LeftLeftExample()))
  {
    var t := LeftLeftExample();
    assert Height(t.left.left) == 1 && Height(t.left) == 2;
    ZigCase(t);
  }
}
