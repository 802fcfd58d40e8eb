/** The unbalanced binary search tree of TreeUtil. Values are compared by
    hash code, so a value is modelled by its hash (an int); `None` is a null
    value. */
module TreeUtil {
  import opened Wrappers

  /** A subtree: `e` is the node's value, null only in a root set by an add
      on an empty tree or by the one-value constructor. */
  datatype Tree = Nil | Node(left: Tree, e: Option<int>, right: Tree)

  /** A NullPointerException that escapes to the caller. */
  datatype TreeError = NullPointer

  function Size(t: Tree): nat
  {
    match t
    case Nil => 0
    case Node(l, _, r) => Size(l) + 1 + Size(r)
  }

  /** Some node of t holds k. */
  function Has(t: Tree, k: int): bool
  {
    match t
    case Nil => false
    case Node(l, e, r) => e == Some(k) || Has(l, k) || Has(r, k)
  }

  /** Every node holds a value. */
  predicate AllKeyed(t: Tree)
  {
    match t
    case Nil => true
    case Node(l, e, r) => e.Some? && AllKeyed(l) && AllKeyed(r)
  }

  /** The search-tree order: in every subtree the left keys are below the
      node's key and the right keys above it. */
  ghost predicate Ordered(t: Tree)
  {
    match t
    case Nil => true
    case Node(l, e, r) =>
      && e.Some? && Ordered(l) && Ordered(r)
      && (forall k :: Has(l, k) ==> k < e.value)
      && (forall k :: Has(r, k) ==> e.value < k)
  }

  lemma {:induction false} OrderedKeyed(t: Tree)
    requires Ordered(t)
    ensures AllKeyed(t)
  {
    if t.Node? {
      OrderedKeyed(t.left);
      OrderedKeyed(t.right);
    }
  }

  /** The tree the source holds after add on an empty tree with a null
      value: one node with no value. */
  const NullRoot: Tree := Node(Nil, None, Nil)

  /* ---------- traversals (preOrderQry, inOrderQry, postOrderQry) ---------- */

  /** Node, then left subtree, then right subtree. */
  function PreOrder(t: Tree): (s: seq<int>)
    requires AllKeyed(t)
    ensures |s| == Size(t)
    ensures forall k :: k in s <==> Has(t, k)
    ensures t.Node? ==> s[0] == t.e.value
  {
    match t
    case Nil => []
    case Node(l, e, r) => [e.value] + PreOrder(l) + PreOrder(r)
  }

  /** Left subtree, then node, then right subtree. */
  function InOrder(t: Tree): (s: seq<int>)
    requires AllKeyed(t)
    ensures |s| == Size(t)
    ensures forall k :: k in s <==> Has(t, k)
  {
    match t
    case Nil => []
    case Node(l, e, r) => InOrder(l) + [e.value] + InOrder(r)
  }

  /** Left subtree, then right subtree, then node. */
  function PostOrder(t: Tree): (s: seq<int>)
    requires AllKeyed(t)
    ensures |s| == Size(t)
    ensures forall k :: k in s <==> Has(t, k)
    ensures t.Node? ==> s[|s| - 1] == t.e.value
  {
    match t
    case Nil => []
    case Node(l, e, r) => PostOrder(l) + PostOrder(r) + [e.value]
  }

  ghost predicate StrictlyAscending(s: seq<int>)
  {
    forall x, y :: 0 <= x < y < |s| ==> s[x] < s[y]
  }

  /** The in-order traversal of a search tree is strictly ascending. */
  lemma {:induction false} InOrderAscending(t: Tree)
    requires Ordered(t)
    ensures AllKeyed(t) && StrictlyAscending(InOrder(t))
  {
    OrderedKeyed(t);
    if t.Node? {
      InOrderAscending(t.left);
      InOrderAscending(t.right);
      var a, x, b := InOrder(t.left), t.e.value, InOrder(t.right);
      var s := a + [x] + b;
      forall i, j | 0 <= i < j < |s|
        ensures s[i] < s[j]
      {
        if j < |a| {
        } else if i < |a| {
          assert a[i] in a;
          if j > |a| {
            assert s[j] == b[j - |a| - 1] && b[j - |a| - 1] in b;
          }
        } else if i == |a| {
          assert s[j] == b[j - |a| - 1] && b[j - |a| - 1] in b;
        }
      }
    }
  }

  /** The last in-order value of a non-empty search tree is its largest key:
      the value remove promotes from a left subtree. */
  lemma LastIsMax(t: Tree)
    requires Ordered(t) && t.Node?
    ensures AllKeyed(t) && Has(t, InOrder(t)[Size(t) - 1])
    ensures forall k :: Has(t, k) ==> k <= InOrder(t)[Size(t) - 1]
  {
    InOrderAscending(t);
    var s := InOrder(t);
    assert s[|s| - 1] in s;
    forall k | Has(t, k)
      ensures k <= s[|s| - 1]
    {
      var i :| 0 <= i < |s| && s[i] == k;
    }
  }

  /* ---------- add ---------- */

  /** add(e, treeNode) for a value of hash k: the descent attaches a new
      leaf where it falls off the tree, unless k is already present. The
      flag says whether a leaf was attached (and `size` incremented). */
  function AddTo(t: Tree, k: int): (r: (Tree, bool))
    requires Ordered(t) && t.Node?
  {
    var x := t.e.value;
    if k > x then
      if t.right == Nil then (Node(t.left, t.e, Node(Nil, Some(k), Nil)), true)
      else var (r', added) := AddTo(t.right, k); (Node(t.left, t.e, r'), added)
    else if k < x then
      if t.left == Nil then (Node(Node(Nil, Some(k), Nil), t.e, t.right), true)
      else var (l', added) := AddTo(t.left, k); (Node(l', t.e, t.right), added)
    else (t, false)
  }

  /** Adding k attaches a leaf exactly when k is absent; afterwards k is
      present, nothing else is added, the order is kept and the size grows
      by one for an attached leaf. */
  lemma {:induction false} AddToMeaning(t: Tree, k: int)
    requires Ordered(t) && t.Node?
    ensures AddTo(t, k).1 <==> !Has(t, k)
    ensures !AddTo(t, k).1 ==> AddTo(t, k).0 == t
    ensures forall x :: Has(AddTo(t, k).0, x) <==> Has(t, x) || x == k
    ensures Ordered(AddTo(t, k).0)
    ensures Size(AddTo(t, k).0) == Size(t) + if AddTo(t, k).1 then 1 else 0
  {
    var x := t.e.value;
    if k > x && t.right != Nil {
      AddToMeaning(t.right, k);
    } else if k < x && t.left != Nil {
      AddToMeaning(t.left, k);
    }
  }

  /** The flag the source's add(e, treeNode) returns: true only when the new
      leaf hangs directly under treeNode, since the results of the recursive
      calls are dropped. */
  function AddFlagAsWritten(t: Tree, k: int): bool
    requires Ordered(t) && t.Node?
  {
    (k > t.e.value && t.right == Nil) || (k < t.e.value && t.left == Nil)
  }

  /** Adding 4 to the tree 2 -> 3 (3 the right child of 2) attaches a leaf
      under 3, but add reports false. */
  lemma AddFlagCounterexample()
    ensures var t := Node(Nil, Some(2), Node(Nil, Some(3), Nil));
            AddTo(t, 4).1 && !AddFlagAsWritten(t, 4)
  {
  }

  /* ---------- search ---------- */

  /** search(e, treeNode): the descent by hash; a node without a value
      throws a NullPointerException, which search catches and reports as
      not found. */
  function SearchFrom(t: Tree, k: int): bool
  {
    match t
    case Nil => false
    case Node(l, e, r) =>
      if e.None? then false
      else if k < e.value then SearchFrom(l, k)
      else if k > e.value then SearchFrom(r, k)
      else true
  }

  /** In a search tree the descent finds exactly the keys present. */
  lemma {:induction false} SearchFromMeaning(t: Tree, k: int)
    requires Ordered(t)
    ensures SearchFrom(t, k) <==> Has(t, k)
  {
    if t.Node? {
      if k < t.e.value {
        SearchFromMeaning(t.left, k);
      } else if k > t.e.value {
        SearchFromMeaning(t.right, k);
      }
    }
  }

  /* ---------- remove ---------- */

  /** remove(e, parent, location, treeNode): the descent by hash; a leaf is
      detached, a node with one child is replaced by it, and a node with two
      children takes the largest value of its left subtree, which is then
      removed from that subtree. The flag says whether a node was removed
      (the source's "true" exception); a node without a value throws a
      NullPointerException, which remove reports as not found. */
  function RemoveFrom(t: Tree, k: int): (r: (Tree, bool))
  {
    match t
    case Nil => (Nil, false)
    case Node(l, e, r) =>
      if e.None? then (t, false)
      else if k < e.value then
        var (l', found) := RemoveFrom(l, k); (Node(l', e, r), found)
      else if k > e.value then
        var (r', found) := RemoveFrom(r, k); (Node(l, e, r'), found)
      else if l == Nil && r == Nil then (Nil, true)
      else if l != Nil && r == Nil then (l, true)
      else if l == Nil && r != Nil then (r, true)
      else if AllKeyed(l) then
        var m := InOrder(l)[Size(l) - 1];
        (Node(RemoveFrom(l, m).0, Some(m), r), true)
      else (t, false)
  }

  /** Removing k removes a node exactly when k is present; afterwards k is
      gone, nothing else is removed, the order is kept and the size drops
      by one for a removed node. */
  lemma {:induction false} RemoveFromMeaning(t: Tree, k: int)
    requires Ordered(t)
    ensures RemoveFrom(t, k).1 <==> Has(t, k)
    ensures !RemoveFrom(t, k).1 ==> RemoveFrom(t, k).0 == t
    ensures forall x :: Has(RemoveFrom(t, k).0, x) <==> Has(t, x) && x != k
    ensures Ordered(RemoveFrom(t, k).0)
    ensures Size(RemoveFrom(t, k).0) == Size(t) - if RemoveFrom(t, k).1 then 1 else 0
  {
    if t.Node? {
      var l, x, r := t.left, t.e.value, t.right;
      if k < x {
        RemoveFromMeaning(l, k);
      } else if k > x {
        RemoveFromMeaning(r, k);
      } else if l != Nil && r != Nil {
        OrderedKeyed(l);
        LastIsMax(l);
        var m := InOrder(l)[Size(l) - 1];
        RemoveFromMeaning(l, m);
        assert RemoveFrom(t, k) == (Node(RemoveFrom(l, m).0, Some(m), r), true);
      }
    }
  }

  /* ---------- layerOrderTraversal ---------- */

  /** A subtree that is a node: what the loop's queue holds. */
  type Branch = t: Tree | t.Node? witness NullRoot

  /** The non-empty children of a node, left first: what the loop offers to
      its queue after polling the node. */
  function Kids(t: Branch): (s: seq<Branch>)
    ensures |s| == (if t.left.Node? then 1 else 0) + (if t.right.Node? then 1 else 0)
  {
    (if t.left.Node? then [t.left] else []) + (if t.right.Node? then [t.right] else [])
  }

  /** The nodes one level below a sequence of nodes, in order. */
  function NextLevel(ts: seq<Branch>): seq<Branch>
  {
    if ts == [] then [] else Kids(ts[0]) + NextLevel(ts[1..])
  }

  /** Total number of nodes in a sequence of subtrees. */
  function Weight(ts: seq<Branch>): nat
  {
    if ts == [] then 0 else Size(ts[0]) + Weight(ts[1..])
  }

  lemma {:induction false} WeightAppend(a: seq<Branch>, b: seq<Branch>)
    ensures Weight(a + b) == Weight(a) + Weight(b)
    decreases |a|
  {
    if a != [] {
      assert (a + b)[0] == a[0] && (a + b)[1..] == a[1..] + b;
      WeightAppend(a[1..], b);
    } else {
      assert a + b == b;
    }
  }

  lemma WeightSingle(t: Branch)
    ensures Weight([t]) == Size(t)
  {
    assert [t][1..] == [];
  }

  lemma KidsWeight(t: Branch)
    ensures Weight(Kids(t)) == Size(t) - 1
  {
    var l, r := t.left, t.right;
    if l.Node? && r.Node? {
      WeightSingle(l);
      WeightSingle(r);
      WeightAppend([l], [r]);
    } else if l.Node? {
      WeightSingle(l);
      assert Kids(t) == [l];
    } else if r.Node? {
      WeightSingle(r);
      assert Kids(t) == [r];
    }
  }

  /** A level has one node fewer than the subtrees below it per node. */
  lemma {:induction false} NextLevelWeight(ts: seq<Branch>)
    ensures Weight(NextLevel(ts)) == Weight(ts) - |ts|
    ensures |ts| <= Weight(ts)
    decreases |ts|
  {
    if ts != [] {
      NextLevelWeight(ts[1..]);
      WeightAppend(Kids(ts[0]), NextLevel(ts[1..]));
      KidsWeight(ts[0]);
    }
  }

  /** Breadth-first order taken level by level: the nodes of this level,
      left to right, then the order of the levels below. */
  function LevelOrder(ts: seq<Branch>): (s: seq<Branch>)
    ensures |s| == Weight(ts)
    decreases Weight(ts)
  {
    NextLevelWeight(ts);
    if ts == [] then [] else ts + LevelOrder(NextLevel(ts))
  }

  /** The values of a sequence of nodes. */
  function Values(ts: seq<Branch>): (s: seq<Option<int>>)
    ensures |s| == |ts| && forall i :: 0 <= i < |ts| ==> s[i] == ts[i].e
  {
    seq(|ts|, i requires 0 <= i < |ts| => ts[i].e)
  }

  /** The order in which the loop polls nodes from a queue holding q: the
      head, then the rest of the queue with the head's children behind it. */
  function Bfs(q: seq<Branch>): seq<Branch>
    decreases Weight(q)
  {
    if q == [] then []
    else
      WeightAppend(q[1..], Kids(q[0]));
      KidsWeight(q[0]);
      [q[0]] + Bfs(q[1..] + Kids(q[0]))
  }

  /** One poll: the head, then the order of the rest with the head's
      children behind it. */
  lemma BfsUnfold(q: seq<Branch>, h: Branch, rest: seq<Branch>)
    requires q == [h] + rest
    ensures Bfs(q) == [h] + Bfs(rest + Kids(h))
  {
    assert q[0] == h && q[1..] == rest;
  }

  lemma NextLevelCons(h: Branch, t: seq<Branch>, x: seq<Branch>)
    ensures (x + Kids(h)) + NextLevel(t) == x + NextLevel([h] + t)
  {
    assert ([h] + t)[0] == h && ([h] + t)[1..] == t;
  }

  /** Polling a whole prefix A of the queue puts the children of A, in
      order, behind the rest X. */
  lemma {:induction false} BfsPrefix(a: seq<Branch>, x: seq<Branch>)
    ensures Bfs(a + x) == a + Bfs(x + NextLevel(a))
    decreases |a|
  {
    if a == [] {
      assert a + x == x && x + NextLevel(a) == x;
    } else {
      var h, t := a[0], a[1..];
      assert a == [h] + t;
      var x' := x + Kids(h);
      var y := x + NextLevel(a);
      BfsPrefix(t, x');
      NextLevelCons(h, t, x);
      assert a + x == [h] + (t + x);
      BfsUnfold(a + x, h, t + x);
      assert (t + x) + Kids(h) == t + x';
      assert Bfs(a + x) == [h] + (t + Bfs(y));
      assert [h] + (t + Bfs(y)) == a + Bfs(y);
    }
  }

  /** The poll-at-a-time loop visits the nodes level by level. */
  lemma {:induction false} BfsIsLevelOrder(ts: seq<Branch>)
    ensures Bfs(ts) == LevelOrder(ts)
    decreases Weight(ts)
  {
    if ts != [] {
      BfsPrefix(ts, []);
      assert ts + [] == ts && [] + NextLevel(ts) == NextLevel(ts);
      NextLevelWeight(ts);
      BfsIsLevelOrder(NextLevel(ts));
    }
  }

  /** The values of t in breadth-first order, level by level. */
  function LayerOrder(t: Tree): (s: seq<Option<int>>)
    ensures |s| == Size(t)
    ensures t.Node? ==> s[0] == t.e
  {
    if t == Nil then []
    else
      WeightSingle(t);
      Values(LevelOrder([t]))
  }

  /** The loop's state: the nodes polled so far followed by the order the
      queue will be polled in make up the whole breadth-first order, and
      polled nodes plus the nodes in or below the queue are all the nodes. */
  ghost predicate Polling(start: Branch, size: nat, polled: seq<Branch>, queue: seq<Branch>)
  {
    && polled + Bfs(queue) == Bfs([start])
    && |polled| + Weight(queue) == size
  }

  lemma PollStart(start: Branch)
    ensures Polling(start, Size(start), [], [start])
  {
    WeightSingle(start);
  }

  /** Polling the head and offering its children keeps the loop's state,
      and the queue never holds more than the nodes not yet polled. */
  lemma PollStep(start: Branch, size: nat, polled: seq<Branch>, queue: seq<Branch>)
    requires Polling(start, size, polled, queue) && queue != []
    ensures Polling(start, size, polled + [queue[0]], queue[1..] + Kids(queue[0]))
    ensures |polled| + |queue| + |Kids(queue[0])| <= size
  {
    var h, rest := queue[0], queue[1..];
    var q' := rest + Kids(h);
    WeightAppend(rest, Kids(h));
    KidsWeight(h);
    NextLevelWeight(q');
    assert Bfs(queue) == [h] + Bfs(q');
    assert polled + [h] + Bfs(q') == polled + Bfs(queue);
  }

  lemma PollEnd(start: Branch, size: nat, polled: seq<Branch>, queue: seq<Branch>)
    requires Polling(start, size, polled, queue) && queue == []
    ensures size == Size(start) && Values(polled + queue) == LayerOrder(start)
  {
    assert polled + [] == polled;
    BfsIsLevelOrder([start]);
    WeightSingle(start);
  }

  /** Writing a node's value after the values already written. */
  method Offer(objects: array<Option<int>>, index: nat, t: Branch, ghost seen: seq<Branch>)
    requires index == |seen| < objects.Length
    requires objects[..index] == Values(seen)
    modifies objects
    ensures objects[..index + 1] == Values(seen + [t])
  {
    objects[index] := t.e;
    assert objects[..index + 1] == objects[..index] + [t.e];
  }

  /** Offering the non-empty children of a polled node, left first, and
      writing their values after those already written. */
  method OfferKids(objects: array<Option<int>>, index: nat, t: Branch, ghost seen: seq<Branch>)
    returns (index': nat)
    requires index == |seen| && index + |Kids(t)| <= objects.Length
    requires objects[..index] == Values(seen)
    modifies objects
    ensures index' == index + |Kids(t)| && objects[..index'] == Values(seen + Kids(t))
  {
    index' := index;
    if t.left != Nil {
      Offer(objects, index', t.left, seen);
      index' := index' + 1;
    }
    ghost var seen' := if t.left != Nil then seen + [t.left] else seen;
    if t.right != Nil {
      Offer(objects, index', t.right, seen');
      index' := index' + 1;
    }
    assert seen + Kids(t) == if t.right != Nil then seen' + [t.right] else seen';
  }

  /** Polling the head of the queue and offering its children keeps the
      nodes seen so far in the same order. */
  lemma QueueShift(seen: seq<Branch>, polled: seq<Branch>, queue: seq<Branch>, kids: seq<Branch>)
    requires queue != [] && seen == polled + queue
    ensures (polled + [queue[0]]) + (queue[1..] + kids) == seen + kids
  {
    assert queue == [queue[0]] + queue[1..];
  }

  /** The loop of layerOrderTraversal over a non-empty tree of `size`
      nodes: the root's value first, then, for each node polled from the
      queue, the values of its children as they are offered. */
  method LayerOrderFrom(start: Branch, size: nat) returns (objects: array<Option<int>>)
    requires size == Size(start)
    ensures fresh(objects) && objects.Length == size && objects[..] == LayerOrder(start)
  {
    objects := new Option<int>[size](_ => None);
    var index := 0;
    var queue: seq<Branch> := [start];
    objects[index] := start.e;
    index := index + 1;
    ghost var polled: seq<Branch> := [];
    PollStart(start);
    while queue != []
      invariant Polling(start, size, polled, queue)
      invariant index == |polled| + |queue| <= size
      invariant objects[..index] == Values(polled + queue)
      decreases size - |polled|
    {
      var treeNode := queue[0];
      PollStep(start, size, polled, queue);
      ghost var seen := polled + queue;
      index := OfferKids(objects, index, treeNode, seen);
      QueueShift(seen, polled, queue, Kids(treeNode));
      polled := polled + [treeNode];
      queue := queue[1..] + Kids(treeNode);
    }
    PollEnd(start, size, polled, queue);
    assert objects[..] == objects[..index];
  }

  /* ---------- the tree object ---------- */

  class SearchTree {
    var root: Tree
    var size: nat

    /** `size` counts the nodes, and the tree is a search tree or the
        single null-valued root. */
    ghost predicate Valid()
      reads this
    {
      size == Size(root) && (Ordered(root) || root == NullRoot)
    }

    /** The no-argument constructor: an empty tree. */
    constructor ()
      ensures Valid() && root == Nil && size == 0
    {
      root := Nil;
      size := 0;
    }

    /** The one-value constructor: a single root holding e. */
    constructor WithRoot(e: Option<int>)
      ensures Valid() && root == Node(Nil, e, Nil) && size == 1
    {
      root := Node(Nil, e, Nil);
      size := 1;
    }

    /** add: an empty tree takes e (even a null one) as its root; otherwise
        a null e is refused, a null root throws, and e is added unless its
        key is present. The result says whether it was added (the source
        says so only for a root or a child of the root, see AddFlagAsWritten). */
    method Add(e: Option<int>) returns (r: Result<bool, TreeError>)
      requires Valid()
      modifies this
      ensures Valid()
      ensures old(size) == 0 ==> r == Success(true) && root == Node(Nil, e, Nil) && size == 1
      ensures old(size) > 0 && (e.None? || old(root).e.None?) ==>
                root == old(root) && size == old(size)
                && r == if e.None? then Success(false) else Failure(NullPointer)
      ensures old(size) > 0 && e.Some? && old(root).e.Some? ==>
                && r == Success(!Has(old(root), e.value))
                && root == AddTo(old(root), e.value).0
                && (forall x :: Has(root, x) <==> Has(old(root), x) || x == e.value)
                && size == old(size) + if r.value then 1 else 0
    {
      if size == 0 {
        root := Node(Nil, e, Nil);
        size := 1;
        return Success(true);
      }
      if e.None? {
        return Success(false);
      }
      if root.e.None? {
        return Failure(NullPointer);
      }
      AddToMeaning(root, e.value);
      var (t, added) := AddTo(root, e.value);
      root := t;
      if added {
        size := size + 1;
      }
      r := Success(added);
    }

    /** search: false on an empty tree, a null e or a null root; otherwise
        whether some node has e's key. */
    function Search(e: Option<int>): (r: bool)
      reads this
      requires Valid()
      ensures r <==> size > 0 && e.Some? && root.e.Some? && Has(root, e.value)
    {
      if size == 0 || e.None? then false
      else if root.e.None? then false
      else
        SearchFromMeaning(root, e.value);
        SearchFrom(root, e.value)
    }

    /** remove: false with no change on an empty tree, a null e, a null
        root or an absent key; otherwise the node with e's key is removed
        and the size drops by exactly one. */
    method Remove(e: Option<int>) returns (r: bool)
      requires Valid()
      modifies this
      ensures Valid()
      ensures r <==> old(size) > 0 && e.Some? && old(root).e.Some? && Has(old(root), e.value)
      ensures !r ==> root == old(root) && size == old(size)
      ensures r ==> && root == RemoveFrom(old(root), e.value).0
                    && (forall x :: Has(root, x) <==> Has(old(root), x) && x != e.value)
                    && size == old(size) - 1
    {
      if size == 0 {
        return false;
      }
      if e.None? {
        return false;
      }
      if root == NullRoot {
        return false;
      }
      RemoveFromMeaning(root, e.value);
      var (t, found) := RemoveFrom(root, e.value);
      if !found {
        return false;
      }
      root := t;
      size := size - 1;
      r := true;
    }

    /** preOrderTraversal: None (null) for an empty tree; a null root value
        cannot be queued (NullPointerException); otherwise every key, node
        before left subtree before right subtree. */
    function PreOrderTraversal(): (r: Result<Option<seq<int>>, TreeError>)
      reads this
      requires Valid()
      ensures r == Success(None) <==> size == 0
      ensures r.Failure? <==> size > 0 && root.e.None?
      ensures r.Success? && r.value.Some? ==>
                |r.value.value| == size && (forall k :: k in r.value.value <==> Has(root, k))
                && r.value.value[0] == root.e.value
    {
      if size == 0 then Success(None)
      else if root.e.None? then Failure(NullPointer)
      else
        OrderedKeyed(root);
        Success(Some(PreOrder(root)))
    }

    /** inOrderTraversal: as preOrderTraversal, in ascending key order. */
    function InOrderTraversal(): (r: Result<Option<seq<int>>, TreeError>)
      reads this
      requires Valid()
      ensures r == Success(None) <==> size == 0
      ensures r.Failure? <==> size > 0 && root.e.None?
      ensures r.Success? && r.value.Some? ==>
                |r.value.value| == size && (forall k :: k in r.value.value <==> Has(root, k))
                && StrictlyAscending(r.value.value)
    {
      if size == 0 then Success(None)
      else if root.e.None? then Failure(NullPointer)
      else
        InOrderAscending(root);
        Success(Some(InOrder(root)))
    }

    /** postOrderTraversal: as preOrderTraversal, subtrees before the node. */
    function PostOrderTraversal(): (r: Result<Option<seq<int>>, TreeError>)
      reads this
      requires Valid()
      ensures r == Success(None) <==> size == 0
      ensures r.Failure? <==> size > 0 && root.e.None?
      ensures r.Success? && r.value.Some? ==>
                |r.value.value| == size && (forall k :: k in r.value.value <==> Has(root, k))
                && r.value.value[size - 1] == root.e.value
    {
      if size == 0 then Success(None)
      else if root.e.None? then Failure(NullPointer)
      else
        OrderedKeyed(root);
        Success(Some(PostOrder(root)))
    }

    /** layerOrderTraversal: null for an empty tree; otherwise a fresh array
        of the size values in breadth-first order, level by level, left
        before right, starting at the root. */
    method LayerOrderTraversal() returns (r: array?<Option<int>>)
      requires Valid()
      ensures size == 0 <==> r == null
      ensures r != null ==> fresh(r) && r.Length == size && r[..] == LayerOrder(root)
    {
      if size == 0 {
        return null;
      }
      r := LayerOrderFrom(root, size);
    }
  }
}
