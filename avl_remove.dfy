/** Removal: descend by the comparator; at the matching node take out its
    item (a node with one empty side is replaced by its other child, a node
    with two children takes the in-order successor's item, which is then
    removed from the right subtree); on the way back up adjust each balance
    factor by the height change of the child, then rebalance. */
module AvlRemove {
  import opened AvlDefs
  import opened AvlRotations

  /** Whether a non-empty child shrank through a removal, judged as the tree
      judges it: it became empty, or its balance factor changed to zero. */
  predicate Shrank<V>(before: Tree<V>, after: Tree<V>)
  {
    before.Node? && (after.Empty? || (after.diff != before.diff && after.diff == 0))
  }

  /** The first item of a non-empty subtree in order: the item reached by
      following left children as far as they go. */
  function Leftmost<V>(t: Tree<V>): Item<V>
    requires t.Node?
  {
    if t.left.Empty? then t.data else Leftmost(t.left)
  }

  /** The successor walk of the two-children deletion: starting at the right
      subtree, step to the left child while it is occupied. */
  method InorderSuccessor<V>(t: Tree<V>) returns (s: Item<V>)
    requires t.Node?
    ensures s == InorderItems(t)[0]
    ensures Ordered(t) ==> s in Elems(t) && forall k :: k in Keys(t) ==> s.key <= k
  {
    var cur := t;
    while cur.left.Node?
      invariant cur.Node? && Leftmost(cur) == Leftmost(t)
      decreases cur
    {
      cur := cur.left;
    }
    s := cur.data;
    LeftmostFirst(t);
    if Ordered(t) {
      LeftmostMinimal(t);
    }
  }

  lemma {:induction false} LeftmostFirst<V>(t: Tree<V>)
    requires t.Node?
    ensures |InorderItems(t)| > 0 && Leftmost(t) == InorderItems(t)[0]
  {
    if t.left.Node? {
      LeftmostFirst(t.left);
    }
  }

  /** In an ordered tree the leftmost item is stored in the tree and has the
      smallest key. */
  lemma {:induction false} LeftmostMinimal<V>(t: Tree<V>)
    requires t.Node? && Ordered(t)
    ensures Leftmost(t) in Elems(t) && Leftmost(t).key in Keys(t)
    ensures forall k :: k in Keys(t) ==> Leftmost(t).key <= k
  {
    if t.left.Node? {
      LeftmostMinimal(t.left);
    }
  }

  /** Removes the item equivalent to `x`, if any. Returns the rebuilt subtree
      and whether an item was removed. */
  function Remove<V>(t: Tree<V>, x: Item<V>): (Tree<V>, bool)
    decreases t, 1
  {
    match t
    case Empty => (Empty, false)
    case Node(l, y, d, r) =>
      if Compare(y, x) > 0 then
        var (l', ok) := Remove(l, x);
        (Rebalance(Node(l', y, if Shrank(l, l') then d + 1 else d, r)), ok)
      else if Compare(y, x) < 0 then
        var (r', ok) := Remove(r, x);
        (Rebalance(Node(l, y, if Shrank(r, r') then d - 1 else d, r')), ok)
      else
        (Rebalance(DeleteNode(t)), true)
  }

  /** Takes the item out of an occupied node, before that node is rebalanced. */
  function DeleteNode<V>(t: Tree<V>): Tree<V>
    requires t.Node?
    decreases t, 0
  {
    if t.right.Empty? then t.left
    else if t.left.Empty? then t.right
    else
      var s := Leftmost(t.right);
      var r' := Remove(t.right, s).0;
      Node(t.left, s, if Shrank(t.right, r') then t.diff - 1 else t.diff, r')
  }

  /** What removal does to the contents of a valid tree: an item is removed
      exactly when an equivalent one was present, and then exactly the items
      equivalent to `x` disappear and the count drops by one; otherwise the
      tree is unchanged. The result is ordered. */
  lemma {:induction false} RemoveContents<V>(t: Tree<V>, x: Item<V>)
    requires Valid(t)
    ensures Remove(t, x).1 <==> x.key in Keys(t)
    ensures Keys(Remove(t, x).0) == Keys(t) - {x.key}
    ensures forall e :: e in Elems(Remove(t, x).0) <==> e in Elems(t) && e.key != x.key
    ensures Remove(t, x).1 ==> Count(Remove(t, x).0) == Count(t) - 1
    ensures !Remove(t, x).1 ==> Remove(t, x).0 == t
    ensures Ordered(Remove(t, x).0)
    decreases t, 1
  {
    match t
    case Empty =>
    case Node(l, y, d, r) =>
      if Compare(y, x) > 0 {
        RemoveContents(l, x);
        LeftRemoved(t, x);
      } else if Compare(y, x) < 0 {
        RemoveContents(r, x);
        RightRemoved(t, x);
      } else {
        DeleteContents(t);
        FoundContents(t, x);
      }
  }

  /** The step of `RemoveContents` when the descent went left. */
  lemma LeftRemoved<V>(t: Tree<V>, x: Item<V>)
    requires t.Node? && Valid(t) && Compare(t.data, x) > 0
    requires var (l', ok) := Remove(t.left, x);
      (ok <==> x.key in Keys(t.left)) && Keys(l') == Keys(t.left) - {x.key} &&
      (forall e :: e in Elems(l') <==> e in Elems(t.left) && e.key != x.key) &&
      (ok ==> Count(l') == Count(t.left) - 1) && (!ok ==> l' == t.left) && Ordered(l')
    ensures Remove(t, x).1 <==> x.key in Keys(t)
    ensures Keys(Remove(t, x).0) == Keys(t) - {x.key}
    ensures forall e :: e in Elems(Remove(t, x).0) <==> e in Elems(t) && e.key != x.key
    ensures Remove(t, x).1 ==> Count(Remove(t, x).0) == Count(t) - 1
    ensures !Remove(t, x).1 ==> Remove(t, x).0 == t
    ensures Ordered(Remove(t, x).0)
  {
    var Node(l, y, d, r) := t;
    var (l', ok) := Remove(l, x);
    var n := Node(l', y, if Shrank(l, l') then d + 1 else d, r);
    RemovedLeft(t, x);
    LeftReplaced(t, x, l', ok, n.diff);
    if !ok {
      assert n == t;
    }
  }

  /** The step of `RemoveContents` when the descent went right. */
  lemma RightRemoved<V>(t: Tree<V>, x: Item<V>)
    requires t.Node? && Valid(t) && Compare(t.data, x) < 0
    requires var (r', ok) := Remove(t.right, x);
      (ok <==> x.key in Keys(t.right)) && Keys(r') == Keys(t.right) - {x.key} &&
      (forall e :: e in Elems(r') <==> e in Elems(t.right) && e.key != x.key) &&
      (ok ==> Count(r') == Count(t.right) - 1) && (!ok ==> r' == t.right) && Ordered(r')
    ensures Remove(t, x).1 <==> x.key in Keys(t)
    ensures Keys(Remove(t, x).0) == Keys(t) - {x.key}
    ensures forall e :: e in Elems(Remove(t, x).0) <==> e in Elems(t) && e.key != x.key
    ensures Remove(t, x).1 ==> Count(Remove(t, x).0) == Count(t) - 1
    ensures !Remove(t, x).1 ==> Remove(t, x).0 == t
    ensures Ordered(Remove(t, x).0)
  {
    var Node(l, y, d, r) := t;
    var (r', ok) := Remove(r, x);
    var n := Node(l, y, if Shrank(r, r') then d - 1 else d, r');
    RemovedRight(t, x);
    RightReplaced(t, x, r', ok, n.diff);
    if !ok {
      assert n == t;
    }
  }

  /** The contents step of `RemoveContents` when the descent went left. */
  lemma LeftReplaced<V>(t: Tree<V>, x: Item<V>, l': Tree<V>, ok: bool, d: int)
    requires t.Node? && Ordered(t) && x.key < t.data.key
    requires ok <==> x.key in Keys(t.left)
    requires Keys(l') == Keys(t.left) - {x.key}
    requires forall e :: e in Elems(l') <==> e in Elems(t.left) && e.key != x.key
    requires ok ==> Count(l') == Count(t.left) - 1
    ensures ok <==> x.key in Keys(t)
    ensures Keys(Node(l', t.data, d, t.right)) == Keys(t) - {x.key}
    ensures forall e :: e in Elems(Node(l', t.data, d, t.right)) <==> e in Elems(t) && e.key != x.key
    ensures ok ==> Count(Node(l', t.data, d, t.right)) == Count(t) - 1
  {
    forall e | e in Elems(t.right) {
      KeysOfElems(t.right, e);
    }
  }

  /** The contents step of `RemoveContents` when the descent went right. */
  lemma RightReplaced<V>(t: Tree<V>, x: Item<V>, r': Tree<V>, ok: bool, d: int)
    requires t.Node? && Ordered(t) && t.data.key < x.key
    requires ok <==> x.key in Keys(t.right)
    requires Keys(r') == Keys(t.right) - {x.key}
    requires forall e :: e in Elems(r') <==> e in Elems(t.right) && e.key != x.key
    requires ok ==> Count(r') == Count(t.right) - 1
    ensures ok <==> x.key in Keys(t)
    ensures Keys(Node(t.left, t.data, d, r')) == Keys(t) - {x.key}
    ensures forall e :: e in Elems(Node(t.left, t.data, d, r')) <==> e in Elems(t) && e.key != x.key
    ensures ok ==> Count(Node(t.left, t.data, d, r')) == Count(t) - 1
  {
    forall e | e in Elems(t.left) {
      KeysOfElems(t.left, e);
    }
  }

  /** The contents step of `RemoveContents` when the node itself matched. */
  lemma FoundContents<V>(t: Tree<V>, x: Item<V>)
    requires t.Node? && Valid(t) && t.data.key == x.key
    requires Keys(DeleteNode(t)) == Keys(t) - {t.data.key}
    requires Elems(DeleteNode(t)) == Elems(t) - {t.data}
    requires Count(DeleteNode(t)) == Count(t) - 1
    requires Ordered(DeleteNode(t))
    ensures Remove(t, x) == (Rebalance(DeleteNode(t)), true)
    ensures forall e :: e in Elems(DeleteNode(t)) <==> e in Elems(t) && e.key != x.key
  {
    forall e | e in Elems(t) && e.key == x.key
      ensures e == t.data
    {
      UniqueKeys(t, e, t.data);
    }
  }

  /** Taking the item out of an occupied node of a valid tree removes exactly
      that item and keeps the keys ordered. */
  lemma {:induction false} DeleteContents<V>(t: Tree<V>)
    requires t.Node? && Valid(t)
    ensures Keys(DeleteNode(t)) == Keys(t) - {t.data.key}
    ensures Elems(DeleteNode(t)) == Elems(t) - {t.data}
    ensures Count(DeleteNode(t)) == Count(t) - 1
    ensures Ordered(DeleteNode(t))
    decreases t, 0
  {
    var Node(l, y, d, r) := t;
    if y in Elems(l) { KeysOfElems(l, y); }
    if y in Elems(r) { KeysOfElems(r, y); }
    if r.Node? && l.Node? {
      var s := Leftmost(r);
      LeftmostMinimal(r);
      RemoveContents(r, s);
      SuccessorMoved(t, Remove(r, s).0);
    }
  }

  /** The two-children step of `DeleteContents`: the successor `s` moves up
      into the node and `r'` is the right subtree without it. */
  lemma SuccessorMoved<V>(t: Tree<V>, r': Tree<V>)
    requires t.Node? && t.left.Node? && t.right.Node? && Ordered(t)
    requires var s := Leftmost(t.right);
      s in Elems(t.right) && s.key in Keys(t.right) &&
      (forall k :: k in Keys(t.right) ==> s.key <= k) &&
      Keys(r') == Keys(t.right) - {s.key} && Ordered(r') &&
      (forall e :: e in Elems(r') <==> e in Elems(t.right) && e.key != s.key) &&
      Count(r') == Count(t.right) - 1
    requires t.data !in Elems(t.left) && t.data !in Elems(t.right)
    ensures var n := Node(t.left, Leftmost(t.right), if Shrank(t.right, r') then t.diff - 1 else t.diff, r');
      Keys(n) == Keys(t) - {t.data.key} && Elems(n) == Elems(t) - {t.data} &&
      Count(n) == Count(t) - 1 && Ordered(n)
  {
    var s := Leftmost(t.right);
    var d' := if Shrank(t.right, r') then t.diff - 1 else t.diff;
    SuccessorKeys(t, s, d', r');
    SuccessorElems(t, s, d', r');
    SuccessorOrdered(t, s, d', r');
  }

  lemma SuccessorKeys<V>(t: Tree<V>, s: Item<V>, d': int, r': Tree<V>)
    requires t.Node? && Ordered(t) && s.key in Keys(t.right)
    requires Keys(r') == Keys(t.right) - {s.key}
    ensures Keys(Node(t.left, s, d', r')) == Keys(t) - {t.data.key}
  {
    assert t.data.key !in Keys(t.left) && t.data.key !in Keys(t.right);
  }

  lemma SuccessorElems<V>(t: Tree<V>, s: Item<V>, d': int, r': Tree<V>)
    requires t.Node? && Ordered(t.right) && s in Elems(t.right)
    requires forall e :: e in Elems(r') <==> e in Elems(t.right) && e.key != s.key
    requires t.data !in Elems(t.left) && t.data !in Elems(t.right)
    ensures Elems(Node(t.left, s, d', r')) == Elems(t) - {t.data}
  {
    forall e | e in Elems(t.right) && e.key == s.key
      ensures e == s
    {
      UniqueKeys(t.right, e, s);
    }
    OnlyEquivalent(Elems(t.right), Elems(r'), s);
  }

  lemma SuccessorOrdered<V>(t: Tree<V>, s: Item<V>, d': int, r': Tree<V>)
    requires t.Node? && Ordered(t) && s.key in Keys(t.right)
    requires forall k :: k in Keys(t.right) ==> s.key <= k
    requires Keys(r') == Keys(t.right) - {s.key} && Ordered(r')
    ensures Ordered(Node(t.left, s, d', r'))
  {
    forall k | k in Keys(r')
      ensures s.key < k
    {
      assert k in Keys(t.right) && k != s.key;
    }
    forall k | k in Keys(t.left)
      ensures k < s.key
    {
      assert k < t.data.key;
    }
  }

  /** One step of `RemoveContents`: the descent went left. */
  lemma RemovedLeft<V>(t: Tree<V>, x: Item<V>)
    requires t.Node? && Ordered(t) && Compare(t.data, x) > 0
    requires Ordered(Remove(t.left, x).0)
    requires Keys(Remove(t.left, x).0) == Keys(t.left) - {x.key}
    ensures var l' := Remove(t.left, x).0;
      var n := Node(l', t.data, if Shrank(t.left, l') then t.diff + 1 else t.diff, t.right);
      Remove(t, x) == (Rebalance(n), Remove(t.left, x).1) && Ordered(n)
  {
    var l' := Remove(t.left, x).0;
    assert forall k :: k in Keys(l') ==> k < t.data.key;
  }

  /** One step of `RemoveContents`: the descent went right. */
  lemma RemovedRight<V>(t: Tree<V>, x: Item<V>)
    requires t.Node? && Ordered(t) && Compare(t.data, x) < 0
    requires Ordered(Remove(t.right, x).0)
    requires Keys(Remove(t.right, x).0) == Keys(t.right) - {x.key}
    ensures var r' := Remove(t.right, x).0;
      var n := Node(t.left, t.data, if Shrank(t.right, r') then t.diff - 1 else t.diff, r');
      Remove(t, x) == (Rebalance(n), Remove(t.right, x).1) && Ordered(n)
  {
    var r' := Remove(t.right, x).0;
    assert forall k :: k in Keys(r') ==> t.data.key < k;
  }

  /** Removal keeps a valid tree an AVL tree, and its height drops by one
      exactly when `Shrank` says so, which is what the parent's balance factor
      relies on. */
  lemma {:induction false} RemoveBalanced<V>(t: Tree<V>, x: Item<V>)
    requires Valid(t)
    ensures Avl(Remove(t, x).0)
    ensures Height(Remove(t, x).0) == Height(t) - (if Shrank(t, Remove(t, x).0) then 1 else 0)
    decreases t, 1
  {
    match t
    case Empty =>
    case Node(l, y, d, r) =>
      if Compare(y, x) > 0 {
        RemoveBalanced(l, x);
        RemoveContents(l, x);
        RemovedLeft(t, x);
        LeftShrink(t, y, Remove(l, x).0);
      } else if Compare(y, x) < 0 {
        RemoveBalanced(r, x);
        RemoveContents(r, x);
        RemovedRight(t, x);
        RightShrink(t, y, Remove(r, x).0);
      } else {
        DeleteBalanced(t);
      }
  }

  /** Taking the item out of an occupied node of a valid tree and rebalancing
      gives an AVL tree whose height drops by one exactly when `Shrank` says
      so. */
  lemma {:induction false} DeleteBalanced<V>(t: Tree<V>)
    requires t.Node? && Valid(t)
    ensures Avl(Rebalance(DeleteNode(t)))
    ensures Height(Rebalance(DeleteNode(t))) ==
      Height(t) - (if Shrank(t, Rebalance(DeleteNode(t))) then 1 else 0)
    decreases t, 0
  {
    var Node(l, y, d, r) := t;
    if r.Empty? {
      assert DeleteNode(t) == l;
      if l.Node? {
        assert Height(l) == 1;
        assert Avl(l) && DiffOk(l);
        assert l.diff == 0;
      }
    } else if l.Empty? {
      assert DeleteNode(t) == r;
      assert Height(r) == 1;
      assert Avl(r) && DiffOk(r);
      assert r.diff == 0;
    } else {
      var s := Leftmost(r);
      RemoveBalanced(r, s);
      var r' := Remove(r, s).0;
      RightShrink(t, s, r');
    }
  }

  /** The balance bookkeeping after the left child of an AVL node was replaced
      by an AVL tree that is at most one shorter, as `Shrank` reports (the
      node's item may be replaced by `y` too): the node is nearly balanced,
      rebalancing makes it an AVL tree, and its own height drops exactly when
      `Shrank` says so. */
  lemma LeftShrink<V>(t: Tree<V>, y: Item<V>, l': Tree<V>)
    requires t.Node? && Avl(t) && Avl(l')
    requires Height(l') == Height(t.left) - (if Shrank(t.left, l') then 1 else 0)
    ensures var n := Node(l', y, if Shrank(t.left, l') then t.diff + 1 else t.diff, t.right);
      NearlyAvl(n) && Avl(Rebalance(n)) &&
      Height(Rebalance(n)) == Height(t) - (if Shrank(t, Rebalance(n)) then 1 else 0)
  {
    var n := Node(l', y, if Shrank(t.left, l') then t.diff + 1 else t.diff, t.right);
    assert NearlyAvl(n);
    RebalanceCorrect(n);
  }

  /** The mirror image of `LeftShrink`. */
  lemma RightShrink<V>(t: Tree<V>, y: Item<V>, r': Tree<V>)
    requires t.Node? && Avl(t) && Avl(r')
    requires Height(r') == Height(t.right) - (if Shrank(t.right, r') then 1 else 0)
    ensures var n := Node(t.left, y, if Shrank(t.right, r') then t.diff - 1 else t.diff, r');
      NearlyAvl(n) && Avl(Rebalance(n)) &&
      Height(Rebalance(n)) == Height(t) - (if Shrank(t, Rebalance(n)) then 1 else 0)
  {
    var n := Node(t.left, y, if Shrank(t.right, r') then t.diff - 1 else t.diff, r');
    assert NearlyAvl(n);
    RebalanceCorrect(n);
  }
}
