/** The four rotations and the rebalancing step that chooses among them.
    A rotation rebuilds the top one or two nodes of a subtree; the balance
    factors of the rebuilt nodes are computed from the old balance factors
    alone, and the lemmas show they equal the new height differences. */
module AvlRotations {
  import opened AvlDefs

  /** Right rotation: the left child becomes the root of the subtree and the
      old root becomes its right child. A subtree without a left child is left
      as it is. */
  function Zig<V>(t: Tree<V>): (r: Tree<V>)
    ensures Keys(r) == Keys(t) && Elems(r) == Elems(t) && Count(r) == Count(t)
    ensures Ordered(t) ==> Ordered(r)
  {
    if t.Empty? || t.left.Empty? then t
    else
      var Node(Node(a, y, l, b), x, p, c) := t;
      var p' := p + 1 - Min(l, 0);
      var l' := l + 1 + Max(0, p');
      assert Ordered(t) ==> Ordered(Node(a, y, l', Node(b, x, p', c))) by {
        if Ordered(t) { RightRotationOrdered(a, y, l, b, x, p, c, l', p'); }
      }
      Node(a, y, l', Node(b, x, p', c))
  }

  /** Left rotation, the mirror image of `Zig`. */
  function Zag<V>(t: Tree<V>): (r: Tree<V>)
    ensures Keys(r) == Keys(t) && Elems(r) == Elems(t) && Count(r) == Count(t)
    ensures Ordered(t) ==> Ordered(r)
  {
    if t.Empty? || t.right.Empty? then t
    else
      var Node(a, x, p, Node(b, y, q, c)) := t;
      var p' := p - 1 - Max(0, q);
      var q' := q - 1 + Min(p', 0);
      assert Ordered(t) ==> Ordered(Node(Node(a, x, p', b), y, q', c)) by {
        if Ordered(t) { LeftRotationOrdered(a, x, p, b, y, q, c, p', q'); }
      }
      Node(Node(a, x, p', b), y, q', c)
  }

  /** A right rotation keeps the items in the same inorder sequence. */
  lemma ZigInorder<V>(t: Tree<V>)
    ensures InorderItems(Zig(t)) == InorderItems(t)
  {
    if t.Node? && t.left.Node? {
      var Node(Node(a, y, _, b), x, _, c) := t;
      var A, B, C := InorderItems(a), InorderItems(b), InorderItems(c);
      Associative(A + [y], B, [x]);
      Associative(A + [y], B + [x], C);
      Associative(B, [x], C);
    }
  }

  /** A left rotation keeps the items in the same inorder sequence. */
  lemma ZagInorder<V>(t: Tree<V>)
    ensures InorderItems(Zag(t)) == InorderItems(t)
  {
    if t.Node? && t.right.Node? {
      var Node(a, x, _, Node(b, y, _, c)) := t;
      var A, B, C := InorderItems(a), InorderItems(b), InorderItems(c);
      Associative(A + [x], B, [y]);
      Associative(A + [x], B + [y], C);
      Associative(B, [y], C);
    }
  }

  /** Rebalancing, whichever rotation it picks, keeps the items in the same
      inorder sequence. */
  lemma RebalanceInorder<V>(t: Tree<V>)
    ensures InorderItems(Rebalance(t)) == InorderItems(t)
  {
    if t.Node? {
      ZigInorder(t);
      ZagInorder(t);
      ZagInorder(t.left);
      ZigInorder(t.(left := Zag(t.left)));
      ZigInorder(t.right);
      ZagInorder(t.(right := Zig(t.right)));
    }
  }

  /** Search-tree order survives a right rotation, whatever the balance
      factors. */
  lemma RightRotationOrdered<V>(a: Tree<V>, y: Item<V>, l: int, b: Tree<V>, x: Item<V>, p: int,
                                c: Tree<V>, l': int, p': int)
    requires Ordered(Node(Node(a, y, l, b), x, p, c))
    ensures Ordered(Node(a, y, l', Node(b, x, p', c)))
  {
    var L := Node(a, y, l, b);
    assert Ordered(L);
    assert y.key in Keys(L) && y.key < x.key;
    forall k | k in Keys(b)
      ensures y.key < k && k < x.key
    {
      assert k in Keys(L);
    }
    assert Ordered(Node(b, x, p', c));
  }

  /** Search-tree order survives a left rotation, whatever the balance
      factors. */
  lemma LeftRotationOrdered<V>(a: Tree<V>, x: Item<V>, p: int, b: Tree<V>, y: Item<V>, q: int,
                               c: Tree<V>, p': int, q': int)
    requires Ordered(Node(a, x, p, Node(b, y, q, c)))
    ensures Ordered(Node(Node(a, x, p', b), y, q', c))
  {
    var R := Node(b, y, q, c);
    assert Ordered(R);
    assert y.key in Keys(R) && x.key < y.key;
    forall k | k in Keys(b)
      ensures x.key < k && k < y.key
    {
      assert k in Keys(R);
    }
    assert Ordered(Node(a, x, p', b));
  }

  /** Left rotation of the left child, then right rotation of the node. */
  function ZigZag<V>(t: Tree<V>): (r: Tree<V>)
    ensures Keys(r) == Keys(t) && Elems(r) == Elems(t) && Count(r) == Count(t)
    ensures Ordered(t) ==> Ordered(r)
  {
    if t.Empty? then t else Zig(t.(left := Zag(t.left)))
  }

  /** Right rotation of the right child, then left rotation of the node. */
  function ZagZig<V>(t: Tree<V>): (r: Tree<V>)
    ensures Keys(r) == Keys(t) && Elems(r) == Elems(t) && Count(r) == Count(t)
    ensures Ordered(t) ==> Ordered(r)
  {
    if t.Empty? then t else Zag(t.(right := Zig(t.right)))
  }

  /** Restores balance at a node whose balance factor has reached +-2, choosing
      the rotation by the sign of the node's factor and its heavy child's. */
  function Rebalance<V>(t: Tree<V>): (r: Tree<V>)
    ensures Keys(r) == Keys(t) && Elems(r) == Elems(t) && Count(r) == Count(t)
    ensures Ordered(t) ==> Ordered(r)
  {
    if t.Empty? || (t.diff != 2 && t.diff != -2) then t
    else if t.diff < 0 then
      if t.left.Empty? || t.left.diff <= 0 then Zig(t) else ZigZag(t)
    else
      if t.right.Empty? || t.right.diff >= 0 then Zag(t) else ZagZig(t)
  }

  /** A right rotation keeps every balance factor exact. */
  lemma ZigDiffs<V>(t: Tree<V>)
    requires t.Node? && t.left.Node? && DiffOk(t) && DiffOk(t.left)
    ensures Zig(t).Node? && Zig(t).right.Node?
    ensures DiffOk(Zig(t)) && DiffOk(Zig(t).right)
    ensures Zig(t).left == t.left.left && Zig(t).right.left == t.left.right
    ensures Zig(t).right.right == t.right
  {
  }

  /** A left rotation keeps every balance factor exact. */
  lemma ZagDiffs<V>(t: Tree<V>)
    requires t.Node? && t.right.Node? && DiffOk(t) && DiffOk(t.right)
    ensures Zag(t).Node? && Zag(t).left.Node?
    ensures DiffOk(Zag(t)) && DiffOk(Zag(t).left)
    ensures Zag(t).right == t.right.right && Zag(t).left.right == t.right.left
    ensures Zag(t).left.left == t.left
  {
  }

  /** What rebalancing achieves for a node whose subtrees are AVL trees and
      whose exact balance factor lies in [-2, 2]: the result is an AVL tree (its
      items and their order are kept by every rebalancing); only a factor of +-2 triggers a
      rotation; and the height of the result, together with its new balance
      factor, is determined by the heavy child's balance factor. */
  lemma RebalanceCorrect<V>(t: Tree<V>)
    requires t.Node? && NearlyAvl(t)
    ensures Avl(Rebalance(t))
    ensures -1 <= t.diff <= 1 ==> Rebalance(t) == t
    ensures t.diff == -2 && t.left.diff == 0 ==>
      Rebalance(t).diff == 1 && Height(Rebalance(t)) == Height(t)
    ensures t.diff == -2 && t.left.diff != 0 ==>
      Rebalance(t).diff == 0 && Height(Rebalance(t)) == Height(t) - 1
    ensures t.diff == 2 && t.right.diff == 0 ==>
      Rebalance(t).diff == -1 && Height(Rebalance(t)) == Height(t)
    ensures t.diff == 2 && t.right.diff != 0 ==>
      Rebalance(t).diff == 0 && Height(Rebalance(t)) == Height(t) - 1
  {
    if t.diff == -2 {
      if t.left.diff <= 0 { ZigCase(t); } else { ZigZagCase(t); }
    } else if t.diff == 2 {
      if t.right.diff >= 0 { ZagCase(t); } else { ZagZigCase(t); }
    }
  }

  lemma ZigCase<V>(t: Tree<V>)
    requires t.Node? && NearlyAvl(t) && t.diff == -2 && t.left.diff <= 0
    ensures Avl(Zig(t))
    ensures t.left.diff == 0 ==> Zig(t).diff == 1 && Height(Zig(t)) == Height(t)
    ensures t.left.diff != 0 ==> Zig(t).diff == 0 && Height(Zig(t)) == Height(t) - 1
  {
    ZigDiffs(t);
  }

  lemma ZagCase<V>(t: Tree<V>)
    requires t.Node? && NearlyAvl(t) && t.diff == 2 && t.right.diff >= 0
    ensures Avl(Zag(t))
    ensures t.right.diff == 0 ==> Zag(t).diff == -1 && Height(Zag(t)) == Height(t)
    ensures t.right.diff != 0 ==> Zag(t).diff == 0 && Height(Zag(t)) == Height(t) - 1
  {
    ZagDiffs(t);
  }

  lemma ZigZagCase<V>(t: Tree<V>)
    requires t.Node? && NearlyAvl(t) && t.diff == -2 && t.left.diff > 0
    ensures Avl(ZigZag(t)) && ZigZag(t).diff == 0 && Height(ZigZag(t)) == Height(t) - 1
  {
    var h := Height(t.right);
    ZigZagInner(t);
    var t1 := t.(left := Zag(t.left));
    ZigDiffs(t1);
    var res := Zig(t1);
    assert res.right == Node(t1.left.right, t.data, res.right.diff, t.right);
    assert Height(res.left) == h + 1 && Height(res.right) == h + 1;
  }

  /** The first half of `ZigZagCase`: the left rotation of the left child. */
  lemma ZigZagInner<V>(t: Tree<V>)
    requires t.Node? && NearlyAvl(t) && t.diff == -2 && t.left.diff > 0
    ensures var L' := Zag(t.left); var h := Height(t.right);
      L'.Node? && L'.left.Node? && Height(L') == Height(t.left) &&
      DiffOk(L') && Avl(L'.left) && Avl(L'.right) &&
      Height(L'.left) == h + 1 && h - 1 <= Height(L'.right) <= h
  {
    var L := t.left;
    var M := L.right;
    assert Avl(L) && Avl(M) && Avl(M.left) && Avl(M.right);
    assert Height(M) == Height(L.left) + 1 && Height(t.right) == Height(L.left);
    ZagDiffs(L);
    assert Zag(L).left == Node(L.left, L.data, Zag(L).left.diff, M.left);
  }

  lemma ZagZigCase<V>(t: Tree<V>)
    requires t.Node? && NearlyAvl(t) && t.diff == 2 && t.right.diff < 0
    ensures Avl(ZagZig(t)) && ZagZig(t).diff == 0 && Height(ZagZig(t)) == Height(t) - 1
  {
    var h := Height(t.left);
    ZagZigInner(t);
    var t1 := t.(right := Zig(t.right));
    ZagDiffs(t1);
    var res := Zag(t1);
    assert res.left == Node(t.left, t.data, res.left.diff, t1.right.left);
    assert Height(res.left) == h + 1 && Height(res.right) == h + 1;
  }

  /** The first half of `ZagZigCase`: the right rotation of the right child. */
  lemma ZagZigInner<V>(t: Tree<V>)
    requires t.Node? && NearlyAvl(t) && t.diff == 2 && t.right.diff < 0
    ensures var R' := Zig(t.right); var h := Height(t.left);
      R'.Node? && R'.right.Node? && Height(R') == Height(t.right) &&
      DiffOk(R') && Avl(R'.left) && Avl(R'.right) &&
      Height(R'.right) == h + 1 && h - 1 <= Height(R'.left) <= h
  {
    var R := t.right;
    var M := R.left;
    assert Avl(R) && Avl(M) && Avl(M.left) && Avl(M.right);
    assert Height(M) == Height(R.right) + 1 && Height(t.left) == Height(R.right);
    ZigDiffs(R);
    assert Zig(R).right == Node(M.right, R.data, Zig(R).right.diff, R.right);
  }
}
