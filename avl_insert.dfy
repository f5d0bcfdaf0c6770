/** Insertion: descend by the comparator, reject an equivalent item, and on
    the way back up adjust the balance factor of each node on the path by the
    height change of the child it descended into, then rebalance it. */
module AvlInsert {
  import opened AvlDefs
  import opened AvlRotations

  /** Whether a child grew taller through an insertion, judged as the tree
      judges it: the child was empty, or its balance factor changed to a
      non-zero value. */
  predicate Grew<V>(before: Tree<V>, after: Tree<V>)
  {
    before.Empty? || (after.Node? && after.diff != before.diff && after.diff != 0)
  }

  /** Inserts `x` unless an equivalent item is present. Returns the rebuilt
      subtree and whether `x` was inserted. */
  function Insert<V>(t: Tree<V>, x: Item<V>): (Tree<V>, bool)
  {
    match t
    case Empty => (Node(Empty, x, 0, Empty), true)
    case Node(l, y, d, r) =>
      if Compare(x, y) == 0 then (t, false)
      else if Compare(y, x) > 0 then
        var (l', ok) := Insert(l, x);
        (Rebalance(Node(l', y, if Grew(l, l') then d - 1 else d, r)), ok)
      else
        var (r', ok) := Insert(r, x);
        (Rebalance(Node(l, y, if Grew(r, r') then d + 1 else d, r')), ok)
  }

  /** Insertion into a valid tree keeps it valid: the result is an ordered
      AVL tree; an empty node becomes a leaf holding `x`; and the height grows
      by one exactly when `Grew` says so, which is what the parent's balance
      factor relies on. */
  lemma {:induction false} InsertBalanced<V>(t: Tree<V>, x: Item<V>)
    requires Valid(t)
    ensures Valid(Insert(t, x).0) && Insert(t, x).0.Node?
    ensures t.Empty? ==> Insert(t, x).0 == Node(Empty, x, 0, Empty)
    ensures Height(Insert(t, x).0) == Height(t) + (if Grew(t, Insert(t, x).0) then 1 else 0)
  {
    match t
    case Empty =>
    case Node(l, y, d, r) =>
      if Compare(x, y) == 0 {
      } else if Compare(y, x) > 0 {
        InsertBalanced(l, x);
        InsertContents(l, x);
        LeftGrowth(t, Insert(l, x).0);
        InsertedLeft(t, x);
      } else {
        InsertBalanced(r, x);
        InsertContents(r, x);
        RightGrowth(t, Insert(r, x).0);
        InsertedRight(t, x);
      }
  }

  /** One step of `InsertBalanced`: the descent went left. */
  lemma InsertedLeft<V>(t: Tree<V>, x: Item<V>)
    requires t.Node? && Ordered(t) && Compare(x, t.data) < 0
    requires Ordered(Insert(t.left, x).0)
    requires Keys(Insert(t.left, x).0) == Keys(t.left) + {x.key}
    ensures var l' := Insert(t.left, x).0;
      Insert(t, x).0 == Rebalance(Node(l', t.data, if Grew(t.left, l') then t.diff - 1 else t.diff, t.right)) &&
      Ordered(Node(l', t.data, if Grew(t.left, l') then t.diff - 1 else t.diff, t.right))
  {
    var l' := Insert(t.left, x).0;
    assert Compare(t.data, x) > 0;
    forall k | k in Keys(l')
      ensures k < t.data.key
    {
      if k != x.key {
        assert k in Keys(t.left);
      }
    }
  }

  /** One step of `InsertBalanced`: the descent went right. */
  lemma InsertedRight<V>(t: Tree<V>, x: Item<V>)
    requires t.Node? && Ordered(t) && Compare(x, t.data) > 0
    requires Ordered(Insert(t.right, x).0)
    requires Keys(Insert(t.right, x).0) == Keys(t.right) + {x.key}
    ensures var r' := Insert(t.right, x).0;
      Insert(t, x).0 == Rebalance(Node(t.left, t.data, if Grew(t.right, r') then t.diff + 1 else t.diff, r')) &&
      Ordered(Node(t.left, t.data, if Grew(t.right, r') then t.diff + 1 else t.diff, r'))
  {
    var r' := Insert(t.right, x).0;
    assert Compare(x, t.data) != 0 && Compare(t.data, x) < 0;
    forall k | k in Keys(r')
      ensures t.data.key < k
    {
      if k != x.key {
        assert k in Keys(t.right);
      }
    }
  }

  /** What insertion does to the contents of a valid tree: `x` is inserted
      exactly when no equivalent item was present, in which case the items grow
      by exactly `x` and the count by one; otherwise the tree is unchanged. */
  lemma {:induction false} InsertContents<V>(t: Tree<V>, x: Item<V>)
    requires Valid(t)
    ensures Insert(t, x).1 <==> x.key !in Keys(t)
    ensures Keys(Insert(t, x).0) == Keys(t) + {x.key}
    ensures Insert(t, x).1 ==>
      Elems(Insert(t, x).0) == Elems(t) + {x} && Count(Insert(t, x).0) == Count(t) + 1
    ensures !Insert(t, x).1 ==> Insert(t, x).0 == t
  {
    match t
    case Empty =>
    case Node(l, y, d, r) =>
      if Compare(x, y) == 0 {
      } else if Compare(y, x) > 0 {
        InsertContents(l, x);
        InsertLeftStep(t, x);
        LeftInserted(t, x, Insert(l, x).0, Insert(l, x).1);
      } else {
        InsertContents(r, x);
        InsertRightStep(t, x);
        RightInserted(t, x, Insert(r, x).0, Insert(r, x).1);
      }
  }

  /** One unfolding of `Insert` at a node whose key orders after `x`. */
  lemma InsertLeftStep<V>(t: Tree<V>, x: Item<V>)
    requires t.Node? && x.key < t.data.key
    ensures var (l', ok) := Insert(t.left, x);
      Insert(t, x) == (Rebalance(Node(l', t.data, if Grew(t.left, l') then t.diff - 1 else t.diff, t.right)), ok)
  {
    assert Compare(x, t.data) != 0 && Compare(t.data, x) > 0;
  }

  /** One unfolding of `Insert` at a node whose key orders before `x`. */
  lemma InsertRightStep<V>(t: Tree<V>, x: Item<V>)
    requires t.Node? && t.data.key < x.key
    ensures var (r', ok) := Insert(t.right, x);
      Insert(t, x) == (Rebalance(Node(t.left, t.data, if Grew(t.right, r') then t.diff + 1 else t.diff, r')), ok)
  {
    assert Compare(x, t.data) != 0 && Compare(t.data, x) < 0;
  }

  /** The step of `InsertContents` when the descent went left: what the
      recursive call did to the left subtree `l'`, reported by `ok`, carries
      over to the rebalanced node. */
  lemma LeftInserted<V>(t: Tree<V>, x: Item<V>, l': Tree<V>, ok: bool)
    requires t.Node? && Ordered(t) && -1 <= t.diff <= 1 && x.key < t.data.key
    requires ok <==> x.key !in Keys(t.left)
    requires Keys(l') == Keys(t.left) + {x.key}
    requires ok ==> Elems(l') == Elems(t.left) + {x} && Count(l') == Count(t.left) + 1
    requires !ok ==> l' == t.left
    ensures var r := Rebalance(Node(l', t.data, if Grew(t.left, l') then t.diff - 1 else t.diff, t.right));
      (ok <==> x.key !in Keys(t)) && Keys(r) == Keys(t) + {x.key} &&
      (ok ==> Elems(r) == Elems(t) + {x} && Count(r) == Count(t) + 1) &&
      (!ok ==> r == t)
  {
    var n := Node(l', t.data, if Grew(t.left, l') then t.diff - 1 else t.diff, t.right);
    assert x.key !in Keys(t.right);
    if !ok {
      assert n == t;
    }
  }

  /** The mirror image of `LeftInserted`. */
  lemma RightInserted<V>(t: Tree<V>, x: Item<V>, r': Tree<V>, ok: bool)
    requires t.Node? && Ordered(t) && -1 <= t.diff <= 1 && t.data.key < x.key
    requires ok <==> x.key !in Keys(t.right)
    requires Keys(r') == Keys(t.right) + {x.key}
    requires ok ==> Elems(r') == Elems(t.right) + {x} && Count(r') == Count(t.right) + 1
    requires !ok ==> r' == t.right
    ensures var r := Rebalance(Node(t.left, t.data, if Grew(t.right, r') then t.diff + 1 else t.diff, r'));
      (ok <==> x.key !in Keys(t)) && Keys(r) == Keys(t) + {x.key} &&
      (ok ==> Elems(r) == Elems(t) + {x} && Count(r) == Count(t) + 1) &&
      (!ok ==> r == t)
  {
    var n := Node(t.left, t.data, if Grew(t.right, r') then t.diff + 1 else t.diff, r');
    assert x.key !in Keys(t.left);
    if !ok {
      assert n == t;
    }
  }

  /** The balance bookkeeping after the left child of an AVL node was replaced
      by an AVL tree that is at most one taller, as `Grew` reports: the node is
      nearly balanced, rebalancing makes it an AVL tree, and its own height grows
      exactly when `Grew` says so. */
  lemma LeftGrowth<V>(t: Tree<V>, l': Tree<V>)
    requires t.Node? && Avl(t) && Avl(l') && l'.Node?
    requires Height(l') == Height(t.left) + (if Grew(t.left, l') then 1 else 0)
    ensures var n := Node(l', t.data, if Grew(t.left, l') then t.diff - 1 else t.diff, t.right);
      NearlyAvl(n) && Avl(Rebalance(n)) &&
      Height(Rebalance(n)) == Height(t) + (if Grew(t, Rebalance(n)) then 1 else 0)
  {
    var n := Node(l', t.data, if Grew(t.left, l') then t.diff - 1 else t.diff, t.right);
    assert NearlyAvl(n);
    RebalanceCorrect(n);
  }

  /** The mirror image of `LeftGrowth`. */
  lemma RightGrowth<V>(t: Tree<V>, r': Tree<V>)
    requires t.Node? && Avl(t) && Avl(r') && r'.Node?
    requires Height(r') == Height(t.right) + (if Grew(t.right, r') then 1 else 0)
    ensures var n := Node(t.left, t.data, if Grew(t.right, r') then t.diff + 1 else t.diff, r');
      NearlyAvl(n) && Avl(Rebalance(n)) &&
      Height(Rebalance(n)) == Height(t) + (if Grew(t, Rebalance(n)) then 1 else 0)
  {
    var n := Node(t.left, t.data, if Grew(t.right, r') then t.diff + 1 else t.diff, r');
    assert NearlyAvl(n);
    RebalanceCorrect(n);
  }
}
