/** The lookups by comparator: `Find` returns the stored equivalent item or
    fails, `Contains` reports presence, and `Replace` overwrites the payload
    of the equivalent node in place. */
module AvlLookup {
  import opened AvlDefs

  /** Descends by the comparator to the item equivalent to `x`; reaching an
      empty node fails with `NotFound`. */
  function Find<V>(t: Tree<V>, x: Item<V>): Result<Item<V>>
  {
    match t
    case Empty => Err(NotFound)
    case Node(l, y, _, r) =>
      if Compare(x, y) == 0 then Ok(y)
      else if Compare(y, x) > 0 then Find(l, x)
      else Find(r, x)
  }

  function Contains<V>(t: Tree<V>, x: Item<V>): bool
  {
    Find(t, x).Ok?
  }

  /** Overwrites the item equivalent to `x` with `x`, keeping the node's
      place, children and balance factor. Returns whether one was found. */
  function Replace<V>(t: Tree<V>, x: Item<V>): (Tree<V>, bool)
  {
    match t
    case Empty => (Empty, false)
    case Node(l, y, d, r) =>
      if Compare(x, y) == 0 then (Node(l, x, d, r), true)
      else if Compare(y, x) > 0 then
        var (l', ok) := Replace(l, x);
        (Node(l', y, d, r), ok)
      else
        var (r', ok) := Replace(r, x);
        (Node(l, y, d, r'), ok)
  }

  /** In an ordered tree, `Find` succeeds exactly when an equivalent item is
      present, and then returns that stored item; otherwise it fails with
      `NotFound`. */
  lemma {:induction false} FindCorrect<V>(t: Tree<V>, x: Item<V>)
    requires Ordered(t)
    ensures Find(t, x).Ok? <==> x.key in Keys(t)
    ensures Find(t, x).Ok? ==> Find(t, x).value in Elems(t) && Find(t, x).value.key == x.key
    ensures Find(t, x).Err? ==> Find(t, x).error == NotFound
  {
    match t
    case Empty =>
    case Node(l, y, _, r) =>
      if Compare(x, y) == 0 {
      } else if Compare(y, x) > 0 {
        FindCorrect(l, x);
        assert x.key !in Keys(r);
      } else {
        FindCorrect(r, x);
        assert x.key !in Keys(l);
      }
  }

  /** In an ordered tree, `Contains` holds exactly when an equivalent item is
      present. */
  lemma ContainsCorrect<V>(t: Tree<V>, x: Item<V>)
    requires Ordered(t)
    ensures Contains(t, x) <==> x.key in Keys(t)
  {
    FindCorrect(t, x);
  }

  /** Replacement in a valid tree: it succeeds exactly when an equivalent item
      is present; then that item, and only it, is exchanged for `x`, so the keys,
      the count, the shape and every balance factor stay as they were and the
      tree stays valid; otherwise nothing changes. */
  lemma {:induction false} ReplaceCorrect<V>(t: Tree<V>, x: Item<V>)
    requires Valid(t)
    ensures Replace(t, x).1 <==> x.key in Keys(t)
    ensures Valid(Replace(t, x).0)
    ensures Keys(Replace(t, x).0) == Keys(t)
    ensures Count(Replace(t, x).0) == Count(t) && Height(Replace(t, x).0) == Height(t)
    ensures forall e :: e in Elems(Replace(t, x).0) <==>
      (e in Elems(t) && e.key != x.key) || (Replace(t, x).1 && e == x)
    ensures !Replace(t, x).1 ==> Replace(t, x).0 == t
    ensures Replace(t, x).1 ==> Find(Replace(t, x).0, x) == Ok(x)
  {
    match t
    case Empty =>
    case Node(l, y, d, r) =>
      if Compare(x, y) == 0 {
        ReplacedHere(t, x);
      } else if Compare(y, x) > 0 {
        ReplaceCorrect(l, x);
        assert Replace(t, x) == (Node(Replace(l, x).0, y, d, r), Replace(l, x).1);
        ReplacedLeft(t, x, Replace(l, x).0, Replace(l, x).1);
      } else {
        ReplaceCorrect(r, x);
        assert Replace(t, x) == (Node(l, y, d, Replace(r, x).0), Replace(r, x).1);
        ReplacedRight(t, x, Replace(r, x).0, Replace(r, x).1);
      }
  }

  /** The step of `ReplaceCorrect` at the node holding the equivalent item. */
  lemma ReplacedHere<V>(t: Tree<V>, x: Item<V>)
    requires Valid(t) && t.Node? && t.data.key == x.key
    ensures var n := Node(t.left, x, t.diff, t.right);
      Valid(n) && Keys(n) == Keys(t) && Count(n) == Count(t) && Height(n) == Height(t) &&
      (forall e :: e in Elems(n) <==> (e in Elems(t) && e.key != x.key) || e == x) &&
      Find(n, x) == Ok(x)
  {
    var Node(l, y, d, r) := t;
    forall e | e in Elems(l) { KeysOfElems(l, e); }
    forall e | e in Elems(r) { KeysOfElems(r, e); }
  }

  /** The step of `ReplaceCorrect` when the descent went left: what the
      recursive call did to the left subtree `l'`, reported by `ok`, carries
      over to the node. */
  lemma ReplacedLeft<V>(t: Tree<V>, x: Item<V>, l': Tree<V>, ok: bool)
    requires Valid(t) && t.Node? && x.key < t.data.key
    requires ok <==> x.key in Keys(t.left)
    requires Valid(l') && Keys(l') == Keys(t.left)
    requires Count(l') == Count(t.left) && Height(l') == Height(t.left)
    requires forall e :: e in Elems(l') <==> (e in Elems(t.left) && e.key != x.key) || (ok && e == x)
    requires !ok ==> l' == t.left
    requires ok ==> Find(l', x) == Ok(x)
    ensures var n := Node(l', t.data, t.diff, t.right);
      (ok <==> x.key in Keys(t)) && Valid(n) && Keys(n) == Keys(t) &&
      Count(n) == Count(t) && Height(n) == Height(t) &&
      (forall e :: e in Elems(n) <==> (e in Elems(t) && e.key != x.key) || (ok && e == x)) &&
      (!ok ==> n == t) && (ok ==> Find(n, x) == Ok(x))
  {
    var r := t.right;
    assert x.key !in Keys(r);
    forall e | e in Elems(r) { KeysOfElems(r, e); }
  }

  /** The mirror image of `ReplacedLeft`. */
  lemma ReplacedRight<V>(t: Tree<V>, x: Item<V>, r': Tree<V>, ok: bool)
    requires Valid(t) && t.Node? && t.data.key < x.key
    requires ok <==> x.key in Keys(t.right)
    requires Valid(r') && Keys(r') == Keys(t.right)
    requires Count(r') == Count(t.right) && Height(r') == Height(t.right)
    requires forall e :: e in Elems(r') <==> (e in Elems(t.right) && e.key != x.key) || (ok && e == x)
    requires !ok ==> r' == t.right
    requires ok ==> Find(r', x) == Ok(x)
    ensures var n := Node(t.left, t.data, t.diff, r');
      (ok <==> x.key in Keys(t)) && Valid(n) && Keys(n) == Keys(t) &&
      Count(n) == Count(t) && Height(n) == Height(t) &&
      (forall e :: e in Elems(n) <==> (e in Elems(t) && e.key != x.key) || (ok && e == x)) &&
      (!ok ==> n == t) && (ok ==> Find(n, x) == Ok(x))
  {
    var l := t.left;
    assert x.key !in Keys(l);
    forall e | e in Elems(l) { KeysOfElems(l, e); }
  }
}
