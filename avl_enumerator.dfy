/** The enumerator: walks a tree in preorder, inorder or postorder with an
    explicit stack of subtrees instead of recursion, producing one item per
    call to `Next`. */
module AvlEnumerator {
  import opened AvlDefs

  datatype AVLTreeOrder = Preorder | Inorder | Postorder

  /** The items of `t` in the traversal order `order`. */
  function Traversal<V>(t: Tree<V>, order: AVLTreeOrder): seq<Item<V>>
  {
    match order
    case Preorder => PreorderItems(t)
    case Inorder => InorderItems(t)
    case Postorder => PostorderItems(t)
  }

  /** A stack entry: an occupied subtree, and whether its children have
      already been pushed (used by inorder and postorder). */
  datatype Frame<V> = Frame(node: Tree<V>, expanded: bool)

  /** Whether the item of the frame on top of the stack is the next one to be
      produced. */
  predicate Ready<V>(f: Frame<V>, order: AVLTreeOrder)
  {
    order == Preorder || f.expanded
  }

  /** The items still owed by one frame. */
  function FramePending<V>(f: Frame<V>, order: AVLTreeOrder): seq<Item<V>>
  {
    match order
    case Preorder => PreorderItems(f.node)
    case Inorder =>
      if f.expanded && f.node.Node? then [f.node.data] + InorderItems(f.node.right)
      else InorderItems(f.node)
    case Postorder =>
      if f.expanded && f.node.Node? then [f.node.data] else PostorderItems(f.node)
  }

  /** The items still owed by a stack whose top is its last element. */
  function Pending<V>(stack: seq<Frame<V>>, order: AVLTreeOrder): seq<Item<V>>
  {
    if stack == [] then []
    else FramePending(stack[|stack| - 1], order) + Pending(stack[..|stack| - 1], order)
  }

  /** The number of items below frames whose children are not pushed yet; it
      bounds how much descending is left. */
  function Unexpanded<V>(stack: seq<Frame<V>>): nat
  {
    if stack == [] then 0
    else
      (if stack[|stack| - 1].expanded then 0 else Count(stack[|stack| - 1].node)) +
      Unexpanded(stack[..|stack| - 1])
  }

  /** Every frame on the stack holds an occupied subtree. */
  predicate AllNodes<V>(stack: seq<Frame<V>>)
  {
    forall i :: 0 <= i < |stack| ==> stack[i].node.Node?
  }

  lemma PushFrame<V>(stack: seq<Frame<V>>, f: Frame<V>, order: AVLTreeOrder)
    ensures Pending(stack + [f], order) == FramePending(f, order) + Pending(stack, order)
    ensures Unexpanded(stack + [f]) ==
      (if f.expanded then 0 else Count(f.node)) + Unexpanded(stack)
  {
    assert (stack + [f])[..|stack|] == stack;
  }

  /** Pushes a subtree unless it is empty. */
  function PushSubtree<V>(stack: seq<Frame<V>>, t: Tree<V>): (s: seq<Frame<V>>)
    ensures AllNodes(stack) ==> AllNodes(s)
  {
    if t.Node? then stack + [Frame(t, false)] else stack
  }

  lemma PushSubtreePending<V>(stack: seq<Frame<V>>, t: Tree<V>, order: AVLTreeOrder)
    ensures Pending(PushSubtree(stack, t), order) == Traversal(t, order) + Pending(stack, order)
    ensures Unexpanded(PushSubtree(stack, t)) == Count(t) + Unexpanded(stack)
  {
    if t.Node? { PushFrame(stack, Frame(t, false), order); }
  }

  /** One step of the descent: the top frame `n` is marked expanded and the
      children to be visited before its item are pushed above it. */
  function Expand<V>(rest: seq<Frame<V>>, n: Tree<V>, order: AVLTreeOrder): (s: seq<Frame<V>>)
    requires n.Node?
    ensures AllNodes(rest) ==> AllNodes(s)
  {
    var s := rest + [Frame(n, true)];
    PushSubtree(if order == Postorder then PushSubtree(s, n.right) else s, n.left)
  }

  /** Expanding a frame owes the same items and leaves less to descend. */
  lemma ExpandPending<V>(rest: seq<Frame<V>>, n: Tree<V>, order: AVLTreeOrder)
    requires n.Node? && order != Preorder
    ensures Pending(Expand(rest, n, order), order) == Pending(rest + [Frame(n, false)], order)
    ensures Unexpanded(Expand(rest, n, order)) < Unexpanded(rest + [Frame(n, false)])
  {
    PushFrame(rest, Frame(n, true), order);
    PushFrame(rest, Frame(n, false), order);
    if order == Postorder {
      ExpandPostorder(rest, n);
    } else {
      ExpandInorder(rest, n);
    }
  }

  lemma ExpandInorder<V>(rest: seq<Frame<V>>, n: Tree<V>)
    requires n.Node?
    ensures Pending(Expand(rest, n, Inorder), Inorder) ==
      InorderItems(n) + Pending(rest, Inorder)
    ensures Unexpanded(Expand(rest, n, Inorder)) == Count(n.left) + Unexpanded(rest)
  {
    var s := rest + [Frame(n, true)];
    var P := Pending(rest, Inorder);
    assert Expand(rest, n, Inorder) == PushSubtree(s, n.left);
    var L := InorderItems(n.left);
    var R := InorderItems(n.right);
    calc {
      Pending(Expand(rest, n, Inorder), Inorder);
    == { PushSubtreePending(s, n.left, Inorder); }
      L + Pending(s, Inorder);
    == { PushFrame(rest, Frame(n, true), Inorder); }
      L + (([n.data] + R) + P);
    == { Associative([n.data], R, P); Associative(L, [n.data], R + P); Associative(L + [n.data], R, P); }
      (L + [n.data] + R) + P;
    }
    calc {
      Unexpanded(Expand(rest, n, Inorder));
    == { PushSubtreePending(s, n.left, Inorder); }
      Count(n.left) + Unexpanded(s);
    == { PushFrame(rest, Frame(n, true), Inorder); }
      Count(n.left) + Unexpanded(rest);
    }
  }

  lemma ExpandPostorder<V>(rest: seq<Frame<V>>, n: Tree<V>)
    requires n.Node?
    ensures Pending(Expand(rest, n, Postorder), Postorder) ==
      PostorderItems(n) + Pending(rest, Postorder)
    ensures Unexpanded(Expand(rest, n, Postorder)) ==
      Count(n.left) + Count(n.right) + Unexpanded(rest)
  {
    var s := rest + [Frame(n, true)];
    var s' := PushSubtree(s, n.right);
    var P := Pending(rest, Postorder);
    assert Expand(rest, n, Postorder) == PushSubtree(s', n.left);
    var L := PostorderItems(n.left);
    var R := PostorderItems(n.right);
    calc {
      Pending(Expand(rest, n, Postorder), Postorder);
    == { PushSubtreePending(s', n.left, Postorder); }
      L + Pending(s', Postorder);
    == { PushSubtreePending(s, n.right, Postorder); }
      L + (R + Pending(s, Postorder));
    == { PushFrame(rest, Frame(n, true), Postorder); }
      L + (R + ([n.data] + P));
    == { Associative(R, [n.data], P); Associative(L, R + [n.data], P); Associative(L, R, [n.data]); }
      (L + R + [n.data]) + P;
    }
    calc {
      Unexpanded(Expand(rest, n, Postorder));
    == { PushSubtreePending(s', n.left, Postorder); }
      Count(n.left) + Unexpanded(s');
    == { PushSubtreePending(s, n.right, Postorder); }
      Count(n.left) + Count(n.right) + Unexpanded(s);
    == { PushFrame(rest, Frame(n, true), Postorder); }
      Count(n.left) + Count(n.right) + Unexpanded(rest);
    }
  }

  /** What remains of the stack once the top frame `n` has produced its item:
      for preorder its right and then its left child are pushed, for inorder
      its right child, for postorder nothing. */
  function Advance<V>(rest: seq<Frame<V>>, n: Tree<V>, order: AVLTreeOrder): (s: seq<Frame<V>>)
    requires n.Node?
    ensures AllNodes(rest) ==> AllNodes(s)
  {
    match order
    case Preorder => PushSubtree(PushSubtree(rest, n.right), n.left)
    case Inorder => PushSubtree(rest, n.right)
    case Postorder => rest
  }

  /** A ready top frame owes its own item first, and after it exactly what
      `Advance` leaves on the stack. */
  lemma AdvancePending<V>(rest: seq<Frame<V>>, f: Frame<V>, order: AVLTreeOrder)
    requires f.node.Node? && Ready(f, order)
    ensures Pending(rest + [f], order) ==
      [f.node.data] + Pending(Advance(rest, f.node, order), order)
  {
    PushFrame(rest, f, order);
    match order
    case Preorder => AdvancePreorder(rest, f);
    case Inorder => AdvanceInorder(rest, f);
    case Postorder => assert FramePending(f, order) == [f.node.data];
  }

  lemma AdvancePreorder<V>(rest: seq<Frame<V>>, f: Frame<V>)
    requires f.node.Node?
    ensures FramePending(f, Preorder) + Pending(rest, Preorder) ==
      [f.node.data] + Pending(Advance(rest, f.node, Preorder), Preorder)
  {
    var n := f.node;
    var P := Pending(rest, Preorder);
    var L := PreorderItems(n.left);
    var R := PreorderItems(n.right);
    var s' := PushSubtree(rest, n.right);
    calc {
      FramePending(f, Preorder) + P;
    ==
      ([n.data] + L + R) + P;
    == { Associative([n.data] + L, R, P); Associative([n.data], L, R + P); }
      [n.data] + (L + (R + P));
    == { PushSubtreePending(rest, n.right, Preorder); }
      [n.data] + (L + Pending(s', Preorder));
    == { PushSubtreePending(s', n.left, Preorder); }
      [n.data] + Pending(Advance(rest, n, Preorder), Preorder);
    }
  }

  lemma AdvanceInorder<V>(rest: seq<Frame<V>>, f: Frame<V>)
    requires f.node.Node? && f.expanded
    ensures FramePending(f, Inorder) + Pending(rest, Inorder) ==
      [f.node.data] + Pending(Advance(rest, f.node, Inorder), Inorder)
  {
    var n := f.node;
    var P := Pending(rest, Inorder);
    calc {
      FramePending(f, Inorder) + P;
    ==
      ([n.data] + InorderItems(n.right)) + P;
    == { Associative([n.data], InorderItems(n.right), P); }
      [n.data] + (InorderItems(n.right) + P);
    == { PushSubtreePending(rest, n.right, Inorder); }
      [n.data] + Pending(Advance(rest, n, Inorder), Inorder);
    }
  }

  lemma {:induction false} PendingNonEmpty<V>(stack: seq<Frame<V>>, order: AVLTreeOrder)
    requires AllNodes(stack)
    ensures Pending(stack, order) == [] <==> stack == []
  {
    if stack != [] {
      var f := stack[|stack| - 1];
      assert f.node.Node?;
      assert |FramePending(f, order)| > 0;
    }
  }

  class AVLTreeEnumerator<V> {
    const order: AVLTreeOrder
    var stack: seq<Frame<V>>
    /** The tree being enumerated and the items produced so far. */
    ghost const root: Tree<V>
    ghost var emitted: seq<Item<V>>

    ghost function Remaining(): seq<Item<V>>
      reads this
    {
      Pending(stack, order)
    }

    /** Every frame holds an occupied subtree, the top frame is ready to
        produce its item, and what was produced followed by what is still
        owed is the whole traversal. */
    ghost predicate Valid()
      reads this
    {
      AllNodes(stack) &&
      (stack != [] ==> Ready(stack[|stack| - 1], order)) &&
      emitted + Remaining() == Traversal(root, order)
    }

    /** Primes the stack so that the first item of the traversal is on top. */
    constructor (root: Tree<V>, order: AVLTreeOrder)
      ensures Valid()
      ensures this.order == order && this.root == root
      ensures emitted == [] && Remaining() == Traversal(root, order)
    {
      this.order := order;
      this.root := root;
      emitted := [];
      stack := [];
      new;
      BuildTraversalStack(root);
    }

    /** Pushes the subtree unless it is empty, then descends to the frame
        holding the first item. */
    method BuildTraversalStack(current: Tree<V>)
      requires stack == [] && emitted == [] && root == current
      modifies this`stack
      ensures Valid() && Remaining() == Traversal(current, order)
    {
      PushSubtreePending([], current, order);
      stack := PushSubtree([], current);
      Descend();
    }

    /** While the top frame is not ready, marks it expanded and pushes the
        children to be visited before its item: the left child for inorder,
        the right and then the left child for postorder. */
    method Descend()
      requires AllNodes(stack)
      modifies this`stack
      ensures AllNodes(stack)
      ensures stack != [] ==> Ready(stack[|stack| - 1], order)
      ensures Remaining() == old(Remaining())
    {
      while stack != [] && !Ready(stack[|stack| - 1], order)
        invariant AllNodes(stack)
        invariant Remaining() == old(Remaining())
        decreases Unexpanded(stack)
      {
        var rest := stack[..|stack| - 1];
        var n := stack[|stack| - 1].node;
        assert stack == rest + [Frame(n, false)];
        ExpandPending(rest, n, order);
        stack := Expand(rest, n, order);
      }
    }

    /** Whether an item remains to be produced. */
    function HasNext(): (b: bool)
      requires Valid()
      reads this
      ensures b <==> Remaining() != []
    {
      PendingNonEmpty(stack, order);
      stack != []
    }

    /** The item the next call to `Next` produces, without advancing; fails
        when nothing remains. */
    function Peek(): (r: Result<Item<V>>)
      requires Valid()
      reads this
      ensures r.Ok? <==> Remaining() != []
      ensures r.Ok? ==> r.value == Remaining()[0]
      ensures r.Err? ==> r.error == EnumerationBeyondEnd
    {
      PendingNonEmpty(stack, order);
      if stack == [] then Err(EnumerationBeyondEnd)
      else
        AdvancePending(stack[..|stack| - 1], stack[|stack| - 1], order);
        assert stack == stack[..|stack| - 1] + [stack[|stack| - 1]];
        Ok(stack[|stack| - 1].node.data)
    }

    /** Produces the next item and advances: pops the top frame, pushes the
        subtrees still to be visited (right then left child for preorder, the
        right child for inorder), and descends; fails when nothing remains,
        leaving the enumerator unchanged. */
    method Next() returns (r: Result<Item<V>>)
      requires Valid()
      modifies this
      ensures Valid()
      ensures r.Ok? <==> old(Remaining()) != []
      ensures r.Ok? ==> r.value == old(Remaining())[0]
      ensures r.Ok? ==> Remaining() == old(Remaining())[1..] && emitted == old(emitted) + [r.value]
      ensures r.Err? ==> r.error == EnumerationBeyondEnd
      ensures r.Err? ==> stack == old(stack) && emitted == old(emitted)
    {
      PendingNonEmpty(stack, order);
      if stack == [] {
        r := Err(EnumerationBeyondEnd);
        return;
      }
      ghost var before := Remaining();
      ghost var done := emitted;
      var rest := stack[..|stack| - 1];
      var f := stack[|stack| - 1];
      var next := Advance(rest, f.node, order);
      assert before == [f.node.data] + Pending(next, order) && AllNodes(next) by {
        assert stack == rest + [f];
        AdvancePending(rest, f, order);
      }
      PopFront(done, before, f.node.data, Pending(next, order), Traversal(root, order));
      stack := next;
      r := Ok(f.node.data);
      emitted := emitted + [f.node.data];
      Descend();
    }

    function GetOrder(): (o: AVLTreeOrder)
      reads this
      ensures o == order
    {
      order
    }
  }

  /** Moving the first owed item `x` over to the produced ones keeps the
      whole traversal. */
  lemma PopFront<T>(done: seq<T>, before: seq<T>, x: T, after: seq<T>, whole: seq<T>)
    requires done + before == whole && before == [x] + after
    ensures before != [] && before[0] == x && before[1..] == after
    ensures done + [x] + after == whole
  {
    Associative(done, [x], after);
  }

  /** Enumerating until `HasNext` is false produces exactly the traversal of
      the tree in the chosen order. */
  method EnumerateAll<V>(root: Tree<V>, order: AVLTreeOrder) returns (items: seq<Item<V>>)
    ensures items == Traversal(root, order)
  {
    var e := new AVLTreeEnumerator(root, order);
    items := [];
    while e.HasNext()
      invariant e.Valid() && e.root == root && e.order == order && items == e.emitted
      decreases |e.Remaining()|
    {
      var r := e.Next();
      items := items + [r.value];
    }
  }

  /** The inorder traversal lists every item of the tree once: as many as
      there are nodes, and exactly the tree's items. */
  lemma {:induction false} InorderContents<V>(t: Tree<V>)
    ensures |InorderItems(t)| == Count(t)
    ensures forall e :: e in InorderItems(t) <==> e in Elems(t)
    ensures forall i :: 0 <= i < |InorderItems(t)| ==> InorderItems(t)[i] in Elems(t)
  {
    match t
    case Empty =>
    case Node(l, x, _, r) =>
      InorderContents(l);
      InorderContents(r);
  }

  /** Preorder lists the same items as inorder. */
  lemma {:induction false} PreorderPermutation<V>(t: Tree<V>)
    ensures multiset(PreorderItems(t)) == multiset(InorderItems(t))
  {
    match t
    case Empty =>
    case Node(l, x, _, r) =>
      PreorderPermutation(l);
      PreorderPermutation(r);
      var L, R := PreorderItems(l), PreorderItems(r);
      var L', R' := InorderItems(l), InorderItems(r);
      calc {
        multiset(PreorderItems(t));
      ==
        multiset([x] + L + R);
      == { MultisetOfConcat([x], L, R); }
        multiset([x]) + multiset(L) + multiset(R);
      ==
        multiset(L') + multiset([x]) + multiset(R');
      == { MultisetOfConcat(L', [x], R'); }
        multiset(L' + [x] + R');
      }
  }

  /** Postorder lists the same items as inorder. */
  lemma {:induction false} PostorderPermutation<V>(t: Tree<V>)
    ensures multiset(PostorderItems(t)) == multiset(InorderItems(t))
  {
    match t
    case Empty =>
    case Node(l, x, _, r) =>
      PostorderPermutation(l);
      PostorderPermutation(r);
      var L, R := PostorderItems(l), PostorderItems(r);
      var L', R' := InorderItems(l), InorderItems(r);
      calc {
        multiset(PostorderItems(t));
      ==
        multiset(L + R + [x]);
      == { MultisetOfConcat(L, R, [x]); }
        multiset(L) + multiset(R) + multiset([x]);
      ==
        multiset(L') + multiset([x]) + multiset(R');
      == { MultisetOfConcat(L', [x], R'); }
        multiset(L' + [x] + R');
      }
  }

  /** Every traversal order produces each item of the tree exactly once: the
      same multiset of items as the inorder traversal, as many as there are
      nodes, and exactly the tree's items. */
  lemma TraversalPermutation<V>(t: Tree<V>, order: AVLTreeOrder)
    ensures multiset(Traversal(t, order)) == multiset(InorderItems(t))
    ensures |Traversal(t, order)| == Count(t)
    ensures forall e :: e in Traversal(t, order) <==> e in Elems(t)
  {
    InorderContents(t);
    PreorderPermutation(t);
    PostorderPermutation(t);
    var s := Traversal(t, order);
    assert |s| == |multiset(s)| == |multiset(InorderItems(t))|;
    forall e
      ensures e in s <==> e in Elems(t)
    {
      assert e in s <==> e in multiset(s);
      assert e in InorderItems(t) <==> e in multiset(InorderItems(t));
    }
  }

  /** In an ordered tree the inorder traversal is strictly increasing by key. */
  lemma {:induction false} InorderIncreasing<V>(t: Tree<V>)
    requires Ordered(t)
    ensures forall i, j :: 0 <= i < j < |InorderItems(t)| ==>
      InorderItems(t)[i].key < InorderItems(t)[j].key
  {
    match t
    case Empty =>
    case Node(l, x, _, r) =>
      InorderIncreasing(l);
      InorderIncreasing(r);
      InorderContents(l);
      InorderContents(r);
      var L, R := InorderItems(l), InorderItems(r);
      forall i | 0 <= i < |L|
        ensures L[i].key < x.key
      {
        KeysOfElems(l, L[i]);
      }
      forall i | 0 <= i < |R|
        ensures x.key < R[i].key
      {
        KeysOfElems(r, R[i]);
      }
      IncreasingJoin(L, x, R);
  }

  /** Joining two key-increasing sequences around an item whose key lies
      strictly between them gives a key-increasing sequence. */
  lemma IncreasingJoin<V>(L: seq<Item<V>>, x: Item<V>, R: seq<Item<V>>)
    requires forall i, j :: 0 <= i < j < |L| ==> L[i].key < L[j].key
    requires forall i, j :: 0 <= i < j < |R| ==> R[i].key < R[j].key
    requires forall i :: 0 <= i < |L| ==> L[i].key < x.key
    requires forall i :: 0 <= i < |R| ==> x.key < R[i].key
    ensures forall i, j :: 0 <= i < j < |L + [x] + R| ==> (L + [x] + R)[i].key < (L + [x] + R)[j].key
  {
    var s := L + [x] + R;
    forall i, j | 0 <= i < j < |s|
      ensures s[i].key < s[j].key
    {
      if j < |L| {
        assert s[i] == L[i] && s[j] == L[j];
      } else if i > |L| {
        assert s[i] == R[i - |L| - 1] && s[j] == R[j - |L| - 1];
      } else if i < |L| {
        assert s[i] == L[i];
        if j > |L| { assert s[j] == R[j - |L| - 1]; }
      } else {
        assert s[j] == R[j - |L| - 1];
      }
    }
  }
}
