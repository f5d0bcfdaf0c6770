/** The data model of the AVL tree: items ordered by a three-way comparator,
    the recursive node structure, and the specification functions and
    predicates (heights, contents, traversals, search-tree order, balance)
    that the operations are proved against. */
module AvlDefs {

  /** A stored item. The comparator orders items by `key` only, so two items
      with the same key are "equivalent" even when their values differ. */
  datatype Item<V> = Item(key: int, value: V)

  /** The comparator: negative, zero or positive as `a` orders before, with or
      after `b`. */
  function Compare<V>(a: Item<V>, b: Item<V>): (c: int)
    ensures c < 0 <==> a.key < b.key
    ensures c == 0 <==> a.key == b.key
    ensures c > 0 <==> a.key > b.key
  {
    if a.key < b.key then -1 else if a.key == b.key then 0 else 1
  }

  /** A node of the tree. `Empty` is the terminal node without data or
      children; an occupied `Node` owns exactly two subtrees and records
      `diff`, meant to be height(right) - height(left). */
  datatype Tree<V> = Empty | Node(left: Tree<V>, data: Item<V>, diff: int, right: Tree<V>)

  /** Error kinds of the lookups and of the enumerator. */
  datatype Error = NotFound | EnumerationBeyondEnd

  datatype Result<T> = Ok(value: T) | Err(error: Error)

  function Max(a: int, b: int): int { if a < b then b else a }
  function Min(a: int, b: int): int { if a < b then a else b }

  function Height<V>(t: Tree<V>): nat
  {
    match t
    case Empty => 0
    case Node(l, _, _, r) => 1 + Max(Height(l), Height(r))
  }

  /** Number of occupied nodes. */
  function Count<V>(t: Tree<V>): nat
  {
    match t
    case Empty => 0
    case Node(l, _, _, r) => Count(l) + 1 + Count(r)
  }

  ghost function Keys<V>(t: Tree<V>): set<int>
  {
    match t
    case Empty => {}
    case Node(l, x, _, r) => Keys(l) + {x.key} + Keys(r)
  }

  ghost function Elems<V>(t: Tree<V>): set<Item<V>>
  {
    match t
    case Empty => {}
    case Node(l, x, _, r) => Elems(l) + {x} + Elems(r)
  }

  function InorderItems<V>(t: Tree<V>): seq<Item<V>>
  {
    match t
    case Empty => []
    case Node(l, x, _, r) => InorderItems(l) + [x] + InorderItems(r)
  }

  function PreorderItems<V>(t: Tree<V>): seq<Item<V>>
  {
    match t
    case Empty => []
    case Node(l, x, _, r) => [x] + PreorderItems(l) + PreorderItems(r)
  }

  function PostorderItems<V>(t: Tree<V>): seq<Item<V>>
  {
    match t
    case Empty => []
    case Node(l, x, _, r) => PostorderItems(l) + PostorderItems(r) + [x]
  }

  lemma Associative<T>(a: seq<T>, b: seq<T>, c: seq<T>)
    ensures (a + b) + c == a + (b + c)
  {
  }

  lemma MultisetOfConcat<T>(a: seq<T>, b: seq<T>, c: seq<T>)
    ensures multiset(a + b + c) == multiset(a) + multiset(b) + multiset(c)
  {
    assert multiset(a + b + c) == multiset(a + b) + multiset(c);
  }

  /** Search-tree order: every key in the left subtree is smaller than the
      node's key and every key in the right subtree larger, at every node.
      This also makes keys unique. */
  ghost predicate Ordered<V>(t: Tree<V>)
  {
    match t
    case Empty => true
    case Node(l, x, _, r) =>
      Ordered(l) && Ordered(r) &&
      (forall k :: k in Keys(l) ==> k < x.key) &&
      (forall k :: k in Keys(r) ==> x.key < k)
  }

  /** The node's recorded `diff` is height(right) - height(left). */
  ghost predicate DiffOk<V>(t: Tree<V>)
  {
    t.Node? ==> t.diff == Height(t.right) - Height(t.left)
  }

  /** The AVL invariant: at every node `diff` is exact and lies in [-1, 1]. */
  ghost predicate Avl<V>(t: Tree<V>)
  {
    match t
    case Empty => true
    case Node(l, _, d, r) =>
      Avl(l) && Avl(r) && DiffOk(t) && -1 <= d <= 1
  }

  /** A node right after one structural change below it: both subtrees are
      AVL trees and `diff` is exact, but it may have reached +-2. */
  ghost predicate NearlyAvl<V>(t: Tree<V>)
  {
    t.Node? ==> Avl(t.left) && Avl(t.right) && DiffOk(t) && -2 <= t.diff <= 2
  }

  ghost predicate Valid<V>(t: Tree<V>)
  {
    Ordered(t) && Avl(t)
  }

  lemma {:induction false} KeysOfElems<V>(t: Tree<V>, e: Item<V>)
    requires e in Elems(t)
    ensures e.key in Keys(t)
  {
    match t
    case Node(l, x, _, r) =>
      if e in Elems(l) { KeysOfElems(l, e); }
      else if e in Elems(r) { KeysOfElems(r, e); }
  }

  lemma {:induction false} ElemsOfKeys<V>(t: Tree<V>, k: int)
    requires k in Keys(t)
    ensures exists e :: e in Elems(t) && e.key == k
  {
    match t
    case Node(l, x, _, r) =>
      if k in Keys(l) { ElemsOfKeys(l, k); }
      else if k in Keys(r) { ElemsOfKeys(r, k); }
      else { assert x in Elems(t); }
  }

  /** In an ordered tree every node holds a different key, so the number of
      distinct keys is the number of nodes. */
  lemma {:induction false} KeysCount<V>(t: Tree<V>)
    requires Ordered(t)
    ensures |Keys(t)| == Count(t)
  {
    match t
    case Empty =>
    case Node(l, x, _, r) =>
      KeysCount(l);
      KeysCount(r);
      forall k | k in Keys(l)
        ensures k !in Keys(r)
      {
        assert k < x.key;
      }
      assert Keys(l) !! Keys(r);
      assert |Keys(l) + {x.key}| == |Keys(l)| + 1;
  }

  /** In an ordered tree, equivalent items are the same item. */
  lemma {:induction false} UniqueKeys<V>(t: Tree<V>, a: Item<V>, b: Item<V>)
    requires Ordered(t) && a in Elems(t) && b in Elems(t) && a.key == b.key
    ensures a == b
  {
    match t
    case Node(l, x, _, r) =>
      if a in Elems(l) { KeysOfElems(l, a); }
      if b in Elems(l) { KeysOfElems(l, b); }
      if a in Elems(r) { KeysOfElems(r, a); }
      if b in Elems(r) { KeysOfElems(r, b); }
      if a in Elems(l) && b in Elems(l) { UniqueKeys(l, a, b); }
      else if a in Elems(r) && b in Elems(r) { UniqueKeys(r, a, b); }
  }

  /** Taking away every item equivalent to `s` from a set in which `s` is
      the only one takes away just `s`. */
  lemma OnlyEquivalent<V>(a: set<Item<V>>, b: set<Item<V>>, s: Item<V>)
    requires s in a
    requires forall e :: e in a && e.key == s.key ==> e == s
    requires forall e :: e in b <==> e in a && e.key != s.key
    ensures b == a - {s}
  {
  }

  /** An AVL tree of height h holds at least Fib(h + 2) - 1 items, so its
      height is logarithmic in its size. */
  function Fib(n: nat): nat
  {
    if n < 2 then n else Fib(n - 1) + Fib(n - 2)
  }

  lemma {:induction false} FibMonotone(m: nat, n: nat)
    requires m <= n
    ensures Fib(m) <= Fib(n)
    decreases n
  {
    if m < n {
      FibMonotone(m, n - 1);
      if n >= 2 { assert Fib(n) == Fib(n - 1) + Fib(n - 2); }
    }
  }

  lemma {:induction false} AvlHeightBound<V>(t: Tree<V>)
    requires Avl(t)
    ensures Count(t) + 1 >= Fib(Height(t) + 2)
  {
    match t
    case Empty =>
    case Node(l, _, _, r) =>
      AvlHeightBound(l);
      AvlHeightBound(r);
      var h, hl, hr := Height(t), Height(l), Height(r);
      assert Count(t) + 1 >= Fib(hl + 2) + Fib(hr + 2);
      if hl <= hr {
        assert hr + 1 == h && h <= hl + 2;
        FibMonotone(h, hl + 2);
      } else {
        assert hl + 1 == h && h <= hr + 2;
        FibMonotone(h, hr + 2);
      }
      assert Fib(h + 2) == Fib(h + 1) + Fib(h);
  }
}
