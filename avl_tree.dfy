/** The tree object the program hands out: it owns the root node and keeps
    the number of stored items, and every public operation keeps it an
    ordered AVL tree whose size field matches its contents. */
module AvlTreeApi {
  import opened AvlDefs
  import AvlInsert
  import AvlRemove
  import AvlLookup
  import opened AvlEnumerator

  class AVLTree<V> {
    var root: Tree<V>
    var size: nat

    /** The root is an ordered AVL tree and `size` counts its nodes. */
    ghost predicate Valid()
      reads this
    {
      AvlDefs.Valid(root) && size == Count(root)
    }

    /** An empty tree. */
    constructor ()
      ensures Valid() && root == Empty && size == 0
    {
      root := Empty;
      size := 0;
    }

    /** Inserts `item` unless an equivalent one is present; returns whether it
        did. */
    method Insert(item: Item<V>) returns (ok: bool)
      requires Valid()
      modifies this
      ensures Valid()
      ensures ok <==> item.key !in old(Keys(root))
      ensures ok ==> Elems(root) == old(Elems(root)) + {item} && size == old(size) + 1
      ensures !ok ==> root == old(root) && size == old(size)
    {
      AvlInsert.InsertBalanced(root, item);
      AvlInsert.InsertContents(root, item);
      var r := AvlInsert.Insert(root, item);
      root := r.0;
      ok := r.1;
      if ok {
        size := size + 1;
      }
    }

    /** Removes the item equivalent to `item` if one is present; returns
        whether it did. */
    method Remove(item: Item<V>) returns (ok: bool)
      requires Valid()
      modifies this
      ensures Valid()
      ensures ok <==> item.key in old(Keys(root))
      ensures Keys(root) == old(Keys(root)) - {item.key}
      ensures forall e :: e in Elems(root) <==> e in old(Elems(root)) && e.key != item.key
      ensures ok ==> size == old(size) - 1
      ensures !ok ==> root == old(root) && size == old(size)
    {
      ghost var t := root;
      var r := AvlRemove.Remove(root, item);
      AvlRemove.RemoveBalanced(t, item);
      AvlRemove.RemoveContents(t, item);
      var n := size;
      if r.1 {
        n := size - 1;
      }
      root, size, ok := r.0, n, r.1;
      forall e
        ensures e in Elems(root) <==> e in Elems(t) && e.key != item.key
      {
        AvlRemove.RemoveContents(t, item);
      }
    }

    /** Overwrites the item equivalent to `item` with `item` if one is
        present; returns whether it did. Keys and size never change. */
    method Replace(item: Item<V>) returns (ok: bool)
      requires Valid()
      modifies this
      ensures Valid()
      ensures ok <==> item.key in old(Keys(root))
      ensures Keys(root) == old(Keys(root)) && size == old(size)
      ensures forall e :: e in Elems(root) <==>
        (e in old(Elems(root)) && e.key != item.key) || (ok && e == item)
      ensures !ok ==> root == old(root)
    {
      ghost var t := root;
      var r := AvlLookup.Replace(root, item);
      AvlLookup.ReplaceCorrect(t, item);
      root := r.0;
      ok := r.1;
      forall e
        ensures e in Elems(root) <==> (e in Elems(t) && e.key != item.key) || (ok && e == item)
      {
        AvlLookup.ReplaceCorrect(t, item);
      }
    }

    /** The stored item equivalent to `item`, or `NotFound`. */
    function Find(item: Item<V>): (r: Result<Item<V>>)
      requires Valid()
      reads this
      ensures r.Ok? <==> item.key in Keys(root)
      ensures r.Ok? ==> r.value in Elems(root) && r.value.key == item.key
      ensures r.Err? ==> r.error == NotFound
    {
      AvlLookup.FindCorrect(root, item);
      AvlLookup.Find(root, item)
    }

    /** Whether an item equivalent to `item` is present. */
    function Contains(item: Item<V>): (b: bool)
      requires Valid()
      reads this
      ensures b <==> item.key in Keys(root)
    {
      AvlLookup.ContainsCorrect(root, item);
      AvlLookup.Contains(root, item)
    }

    /** The number of stored items, which is the number of distinct keys. */
    function GetSize(): (n: nat)
      requires Valid()
      reads this
      ensures n == |Keys(root)|
    {
      KeysCount(root);
      size
    }

    /** An enumerator over the current contents in the given order. */
    method Enumerator(order: AVLTreeOrder) returns (e: AVLTreeEnumerator<V>)
      ensures fresh(e) && e.Valid()
      ensures e.order == order && e.root == root && e.emitted == []
      ensures e.Remaining() == Traversal(root, order)
    {
      e := new AVLTreeEnumerator(root, order);
    }
  }

  /** Inserting an absent item and then removing it gives back a tree with
      the same items and the same count, so the size returns to its old
      value and the item is no longer contained. */
  lemma InsertRemoveRoundTrip<V>(t: Tree<V>, x: Item<V>)
    requires AvlDefs.Valid(t) && x.key !in Keys(t)
    ensures var t' := AvlRemove.Remove(AvlInsert.Insert(t, x).0, x);
      t'.1 && AvlDefs.Valid(t'.0) && Elems(t'.0) == Elems(t) &&
      Keys(t'.0) == Keys(t) && Count(t'.0) == Count(t)
  {
    var (u, ins) := AvlInsert.Insert(t, x);
    AvlInsert.InsertBalanced(t, x);
    AvlInsert.InsertContents(t, x);
    var (w, rem) := AvlRemove.Remove(u, x);
    AvlRemove.RemoveContents(u, x);
    AvlRemove.RemoveBalanced(u, x);
    RoundTripContents(t, u, w, x);
  }

  /** The set reasoning of `InsertRemoveRoundTrip`: adding `x` and then
      taking away every item with its key restores the items of `t`. */
  lemma RoundTripContents<V>(t: Tree<V>, u: Tree<V>, w: Tree<V>, x: Item<V>)
    requires x.key !in Keys(t)
    requires Keys(u) == Keys(t) + {x.key} && Elems(u) == Elems(t) + {x}
    requires Keys(w) == Keys(u) - {x.key}
    requires forall e :: e in Elems(w) <==> e in Elems(u) && e.key != x.key
    ensures Elems(w) == Elems(t)
    ensures Keys(w) == Keys(t)
  {
    forall e | e in Elems(t)
      ensures e.key != x.key
    {
      KeysOfElems(t, e);
    }
    RemoveAdded(Elems(t), Elems(u), Elems(w), x);
  }

  /** Adding `x` to a set none of whose items has `x`'s key, then keeping
      only the items with another key, gives back the set. */
  lemma RemoveAdded<V>(a: set<Item<V>>, b: set<Item<V>>, c: set<Item<V>>, x: Item<V>)
    requires forall e :: e in a ==> e.key != x.key
    requires b == a + {x}
    requires forall e :: e in c <==> e in b && e.key != x.key
    ensures c == a
  {
  }
}
