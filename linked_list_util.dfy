/** The singly linked list of LinkedListUtil. Nodes are heap objects chained
    through `next`; `prev` is only written by the two reversal operations.
    A ghost sequence `nodes` names the chain from `first` to `last`. */
module LinkedListUtil {
  import opened Wrappers
  import opened ModArith
  import opened Sequences

  /** The exception the source raises where it dereferences a null node. */
  datatype Fault = NullPointer

  class Node<E> {
    var e: E
    var prev: Node?<E>
    var next: Node?<E>

    /** The singly linked constructor: `prev` stays null. */
    constructor (e: E, next: Node?<E>)
      ensures this.e == e && this.next == next && prev == null
    {
      this.e := e;
      this.next := next;
      prev := null;
    }
  }

  /** The elements held by a chain of nodes, in chain order. */
  ghost function Elements<E>(ns: seq<Node<E>>): (s: seq<E>)
    reads ns`e
    ensures |s| == |ns| && forall i {:trigger s[i]} :: 0 <= i < |ns| ==> s[i] == ns[i].e
  {
    if ns == [] then [] else [ns[0].e] + Elements(ns[1..])
  }

  /** All but the final node of a chain: the nodes whose `next` a chain uses. */
  ghost function Init<E>(ns: seq<Node<E>>): seq<Node<E>>
  {
    if ns == [] then [] else ns[..|ns| - 1]
  }

  /** Each node's `next` is the node after it. */
  ghost predicate Linked<E>(ns: seq<Node<E>>)
    reads Init(ns)`next
  {
    forall i, j :: 0 <= i && j == i + 1 && j < |ns| ==> ns[i].next == ns[j]
  }

  /** No node occurs twice. */
  ghost predicate Distinct<T>(s: seq<T>)
  {
    forall i, j :: 0 <= i < j < |s| ==> s[i] != s[j]
  }

  /** A chain that ends in null cannot revisit a node: from a repeated node
      on, both copies would run into the end together. */
  lemma {:induction false} ChainDistinct<E>(ns: seq<Node<E>>)
    requires Linked(ns) && (ns != [] ==> ns[|ns| - 1].next == null)
    ensures Distinct(ns)
  {
    if |ns| > 1 {
      var rest := ns[1..];
      LinkedSlice(ns, 1, |ns|);
      ChainDistinct(rest);
      forall j | 1 <= j < |ns|
        ensures ns[0] != ns[j]
      {
        if j < |ns| - 1 {
          assert ns[0].next == rest[0] && ns[j].next == rest[j];
        } else {
          assert ns[0].next == ns[1];
        }
      }
      forall i, j | 0 <= i < j < |ns|
        ensures ns[i] != ns[j]
      {
        if i > 0 {
          assert ns[i] == rest[i - 1] && ns[j] == rest[j - 1];
        }
      }
    }
  }

  /** In a chain that ends in null, the node at i occurs nowhere else. */
  lemma ChainAlone<E>(ns: seq<Node<E>>, i: nat)
    requires Linked(ns) && i < |ns| && ns[|ns| - 1].next == null
    ensures ns[i] !in ns[..i] && ns[i] !in ns[i + 1..]
  {
    ChainDistinct(ns);
    DistinctAlone(ns, i);
  }

  /** In a distinct sequence the element at i occurs neither before nor after i. */
  lemma DistinctAlone<T>(s: seq<T>, i: nat)
    requires Distinct(s) && i < |s|
    ensures s[i] !in s[..i] && s[i] !in s[i + 1..]
  {
    forall k | 0 <= k < i
      ensures s[..i][k] != s[i]
    {
      assert s[..i][k] == s[k];
    }
    var after := s[i + 1..];
    forall k | 0 <= k < |after|
      ensures after[k] != s[i]
    {
      assert after[k] == s[i + 1 + k];
    }
  }

  /** Two chains, the first ending in a link to the second, form one chain. */
  lemma LinkedJoin<E>(a: seq<Node<E>>, b: seq<Node<E>>)
    requires Linked(a) && Linked(b)
    requires a != [] && b != [] ==> a[|a| - 1].next == b[0]
    ensures Linked(a + b)
  {
    forall i | 0 < i < |a + b|
      ensures (a + b)[i - 1].next == (a + b)[i]
    {
      if i > |a| {
        assert (a + b)[i - 1] == b[i - 1 - |a|];
      }
    }
  }

  /** Any stretch of a chain is a chain. */
  lemma LinkedSlice<E>(ns: seq<Node<E>>, lo: nat, hi: nat)
    requires Linked(ns) && lo <= hi <= |ns|
    ensures Linked(ns[lo..hi])
  {
    forall i | 0 < i < hi - lo
      ensures ns[lo..hi][i - 1].next == ns[lo..hi][i]
    {
      assert ns[lo..hi][i - 1] == ns[lo + i - 1];
    }
  }

  /** ns is the chain that starts at first and ends in null. */
  ghost predicate IsChain<E>(ns: seq<Node<E>>, first: Node?<E>)
    reads ns`next
  {
    && (ns == [] ==> first == null)
    && (ns != [] ==> first == ns[0] && ns[|ns| - 1].next == null)
    && Linked(ns)
  }

  /** ns is the chain from first to last. */
  ghost predicate IsList<E>(ns: seq<Node<E>>, first: Node?<E>, last: Node?<E>)
    reads ns`next
  {
    && IsChain(ns, first)
    && (ns == [] ==> last == null)
    && (ns != [] ==> last == ns[|ns| - 1])
  }

  /** Two lists, the first non-empty and ending in a link to the second,
      yield one list. */
  lemma JoinIsList<E>(pre: seq<Node<E>>, post: seq<Node<E>>, first: Node?<E>, last: Node?<E>)
    requires pre != [] && Linked(pre) && first == pre[0]
    requires post == [] ==> pre[|pre| - 1].next == null && last == pre[|pre| - 1]
    requires post != [] ==> Linked(post) && pre[|pre| - 1].next == post[0]
                            && post[|post| - 1].next == null && last == post[|post| - 1]
    ensures IsList(pre + post, first, last)
  {
    LinkedJoin(pre, post);
  }

  /** A node linked between two lists, the first non-empty, yields one list. */
  lemma SpliceIsList<E>(pre: seq<Node<E>>, n: Node<E>, post: seq<Node<E>>, first: Node?<E>, last: Node?<E>)
    requires pre != [] && Linked(pre) && pre[|pre| - 1].next == n && first == pre[0]
    requires post == [] ==> n.next == null && last == n
    requires post != [] ==> Linked(post) && n.next == post[0] && post[|post| - 1].next == null && last == post[|post| - 1]
    ensures IsList(pre + [n] + post, first, last)
  {
    LinkedJoin(pre, [n]);
    LinkedJoin(pre + [n], post);
  }

  /** Elements commutes with splicing one node into a chain. */
  lemma ElementsSplice<E>(ns: seq<Node<E>>, index: nat, n: Node<E>)
    requires index <= |ns|
    ensures Elements(ns[..index] + [n] + ns[index..]) == Elements(ns)[..index] + [n.e] + Elements(ns)[index..]
  {
    var spliced := ns[..index] + [n] + ns[index..];
    var joined, parts := Elements(spliced), Elements(ns)[..index] + [n.e] + Elements(ns)[index..];
    forall k | 0 <= k < |joined|
      ensures joined[k] == parts[k]
    {
      if k < index {
        assert spliced[k] == ns[k] && parts[k] == Elements(ns)[k];
      } else if k > index {
        assert spliced[k] == ns[k - 1] && parts[k] == Elements(ns)[k - 1];
      }
    }
  }

  /** Elements commutes with cutting one node out of a chain. */
  lemma ElementsCut<E>(ns: seq<Node<E>>, index: nat)
    requires index < |ns|
    ensures Elements(ns[..index] + ns[index + 1..]) == Elements(ns)[..index] + Elements(ns)[index + 1..]
  {
    var cut, whole := ns[..index] + ns[index + 1..], Elements(ns);
    var joined, parts := Elements(cut), whole[..index] + whole[index + 1..];
    assert |joined| == |parts|;
    forall k | 0 <= k < |joined|
      ensures joined[k] == parts[k]
    {
      if k < index {
        assert cut[k] == ns[k] && parts[k] == whole[k];
      } else {
        assert cut[k] == ns[k + 1] && parts[k] == whole[k + 1];
      }
    }
  }

  /** Elements of a prefix of a chain. */
  lemma ElementsPrefix<E>(ns: seq<Node<E>>, k: nat)
    requires k <= |ns|
    ensures Elements(ns[..k]) == Elements(ns)[..k]
  {
    var whole, front := Elements(ns), Elements(ns[..k]);
    assert |front| == |whole[..k]|;
    forall j | 0 <= j < k
      ensures front[j] == whole[..k][j]
    {
      assert ns[..k][j] == ns[j];
    }
  }

  /** Elements of a suffix of a chain. */
  lemma ElementsSuffix<E>(ns: seq<Node<E>>, k: nat)
    requires k <= |ns|
    ensures Elements(ns[k..]) == Elements(ns)[k..]
  {
    var whole, back := Elements(ns), Elements(ns[k..]);
    assert |back| == |whole[k..]|;
    forall j | 0 <= j < |ns| - k
      ensures back[j] == whole[k..][j]
    {
      assert ns[k..][j] == ns[k + j];
    }
  }

  /** Elements of two chains put together. */
  lemma ElementsAppend<E>(a: seq<Node<E>>, b: seq<Node<E>>)
    ensures Elements(a + b) == Elements(a) + Elements(b)
  {
    var joined, parts := Elements(a + b), Elements(a) + Elements(b);
    forall k | 0 <= k < |joined|
      ensures joined[k] == parts[k]
    {
      if k < |a| {
        assert (a + b)[k] == a[k] && parts[k] == Elements(a)[k];
      } else {
        assert (a + b)[k] == b[k - |a|] && parts[k] == Elements(b)[k - |a|];
      }
    }
  }

  /** The positions of x in s, ascending: what getIndex collects. */
  function IndicesOf<T(==)>(s: seq<T>, x: T): seq<int>
  {
    if s == [] then []
    else IndicesOf(s[..|s| - 1], x) + (if s[|s| - 1] == x then [|s| - 1] else [])
  }

  /** IndicesOf lists exactly the positions holding x, strictly ascending. */
  lemma {:induction false} IndicesOfExact<T>(s: seq<T>, x: T)
    ensures forall k :: k in IndicesOf(s, x) <==> 0 <= k < |s| && s[k] == x
    ensures forall i, j :: 0 <= i < j < |IndicesOf(s, x)| ==> IndicesOf(s, x)[i] < IndicesOf(s, x)[j]
  {
    if s != [] {
      var init, m := s[..|s| - 1], |s| - 1;
      IndicesOfExact(init, x);
      assert forall k :: 0 <= k < m ==> init[k] == s[k];
      var a := IndicesOf(init, x);
      if s[m] == x {
        forall i, j | 0 <= i < j < |a| + 1
          ensures (a + [m])[i] < (a + [m])[j]
        {
          if j == |a| {
            assert a[i] in a;
          }
        }
      }
    }
  }

  /** IndicesOf is empty exactly when x does not occur. */
  lemma IndicesOfEmpty<T>(s: seq<T>, x: T)
    ensures IndicesOf(s, x) == [] <==> x !in s
  {
    IndicesOfExact(s, x);
    if x in s {
      var k :| 0 <= k < |s| && s[k] == x;
      assert k in IndicesOf(s, x);
    }
  }

  /** s with every occurrence of a replaced by b. */
  function ReplaceAll<T(==)>(s: seq<T>, a: T, b: T): seq<T>
  {
    seq(|s|, i requires 0 <= i < |s| => if s[i] == a then b else s[i])
  }

  /** After replacing a by b (a != b) no a is left, every b-free position keeps
      its element, and replacing again changes nothing. */
  lemma ReplaceAllEffect<T>(s: seq<T>, a: T, b: T)
    requires a != b
    ensures a !in ReplaceAll(s, a, b)
    ensures forall i :: 0 <= i < |s| && s[i] != a ==> ReplaceAll(s, a, b)[i] == s[i]
    ensures ReplaceAll(ReplaceAll(s, a, b), a, b) == ReplaceAll(s, a, b)
  {
  }

  /** s without the occurrences of x, order kept: what removeAll leaves. */
  function Without<T(==)>(s: seq<T>, x: T): seq<T>
  {
    if s == [] then []
    else (if s[0] == x then [] else [s[0]]) + Without(s[1..], x)
  }

  /** Without keeps exactly the elements other than x, each as often as before,
      and drops one element per occurrence of x. */
  lemma {:induction false} WithoutCounts<T>(s: seq<T>, x: T)
    ensures multiset(Without(s, x)) == multiset(s)[x := 0]
    ensures |Without(s, x)| + multiset(s)[x] == |s|
  {
    if s != [] {
      var y, tail := s[0], s[1..];
      WithoutCounts(tail, x);
      assert s == [y] + tail;
      assert multiset(s) == multiset{y} + multiset(tail);
      if y == x {
        assert Without(s, x) == [] + Without(tail, x);
      } else {
        assert multiset(Without(s, x)) == multiset{y} + multiset(Without(tail, x));
      }
    }
  }

  /** One step of a walk that removes the occurrences of x: the walk has kept
      done and has rest still to visit. Deciding on rest[0] keeps what Without
      of the whole will be. */
  lemma WithoutShift<T>(done: seq<T>, rest: seq<T>, x: T)
    requires rest != []
    ensures done + Without(rest, x)
            == (if rest[0] == x then done else done + [rest[0]]) + Without(rest[1..], x)
  {
    var tail := Without(rest[1..], x);
    if rest[0] == x {
      assert Without(rest, x) == [] + tail == tail;
    } else {
      assert Without(rest, x) == [rest[0]] + tail;
      assert done + ([rest[0]] + tail) == (done + [rest[0]]) + tail;
    }
  }

  /** The occurrences of x in a non-empty sequence: those in its tail, plus its head. */
  lemma CountShift<T>(rest: seq<T>, x: T)
    requires rest != []
    ensures multiset(rest)[x] == multiset(rest[1..])[x] + (if rest[0] == x then 1 else 0)
  {
    assert rest == [rest[0]] + rest[1..];
  }

  /** Dropping the first element of the part after w. */
  lemma DropAfterPrefix<T>(w: seq<T>, t: seq<T>)
    requires t != []
    ensures (w + t)[..|w|] + (w + t)[|w| + 1..] == w + t[1..]
    ensures (w + t)[|w|] == t[0]
  {
    assert (w + t)[..|w|] == w;
    assert (w + t)[|w| + 1..] == t[1..];
  }

  /** Moving the first element of the part after w to the end of w. */
  lemma ShiftIntoPrefix<T>(w: seq<T>, t: seq<T>)
    requires t != []
    ensures w + t == (w + [t[0]]) + t[1..]
  {
    assert t == [t[0]] + t[1..];
  }

  /** The blocks of k elements of s, each reversed in place; a last block
      shorter than k is reversed as well. */
  function ReverseGroups<T>(s: seq<T>, k: nat): seq<T>
    requires k >= 1
    decreases |s|
  {
    if |s| <= k then Reversed(s) else Reversed(s[..k]) + ReverseGroups(s[k..], k)
  }

  /** Appending one whole block of k after q whole blocks appends its reversal. */
  lemma {:induction false} ReverseGroupsSnoc<T>(t: seq<T>, u: seq<T>, k: nat, q: nat)
    requires k >= 1 && |t| == q * k && |u| == k
    ensures ReverseGroups(t + u, k) == ReverseGroups(t, k) + Reversed(u)
  {
    if q == 0 {
      assert t + u == u;
    } else {
      MulAtLeast(q, k);
      assert (t + u)[..k] == t[..k];
      assert (t + u)[k..] == t[k..] + u;
      ReverseGroupsSnoc(t[k..], u, k, q - 1);
      if q == 1 {
        assert t[k..] == [];
        assert t[..k] == t;
      }
    }
  }

  /** Reversing blocks of 1 changes nothing. */
  lemma {:induction false} ReverseGroupsOfOne<T>(s: seq<T>)
    ensures ReverseGroups(s, 1) == s
  {
    if s != [] {
      assert Reversed(s[..1]) == Reversed(s[..1][1..]) + [s[0]] == [s[0]];
      if |s| > 1 {
        ReverseGroupsOfOne(s[1..]);
      }
      assert s == s[..1] + s[1..];
    }
  }

  /** Position n == q*k + d ends a block of k exactly when d == k. */
  lemma BlockEnd(n: int, q: nat, d: int, k: nat)
    requires k >= 1 && 1 <= d <= k && n == q * k + d
    ensures n % k == 0 <==> d == k
  {
    if d < k {
      ModUnique(n, q, d, k);
    } else {
      ModUnique(n, q + 1, 0, k);
    }
  }

  class LinkedList<E(==)> {
    var first: Node?<E>
    var last: Node?<E>
    /** Java's int counter; it never goes below zero. */
    var size: nat
    ghost var nodes: seq<Node<E>>

    /** The chain from `first` follows `next` through `nodes` and never
        revisits a node; `size` counts it. */
    ghost predicate Chain()
      reads this, nodes`next
    {
      |nodes| == size && IsChain(nodes, first)
    }

    /** A chain whose `last` is its final node. */
    ghost predicate Valid()
      reads this, nodes`next
    {
      |nodes| == size && IsList(nodes, first, last)
    }

    /** The elements from first to last. */
    ghost function Contents(): seq<E>
      reads this, nodes`e
    {
      Elements(nodes)
    }

    /** The empty list. */
    constructor ()
      ensures Valid() && Contents() == [] && nodes == []
    {
      first, last, size := null, null, 0;
      nodes := [];
    }

    /** The list holding the single element e. */
    constructor Single(e: E)
      ensures Valid() && Contents() == [e] && |nodes| == 1 && fresh(nodes[0])
    {
      var n := new Node(e, null);
      first, last := n, n;
      size := 1;
      nodes := [n];
    }

    /** The number of nodes. */
    function Size(): (n: int)
      reads this, nodes
      requires Valid()
      ensures n == |Contents()|
    {
      size
    }

    /** Whether index names a node: 0 <= index < size. */
    function ExistIndex(index: int): (r: bool)
      reads this, nodes
      requires Valid()
      ensures r <==> 0 <= index < |Contents()|
    {
      size > 0 && index >= 0 && index < size
    }

    /** The element at index, or None (Java null) for an index with no node. */
    method GetElement(index: int) returns (r: Option<E>)
      requires Valid()
      ensures r.Some? <==> 0 <= index < |Contents()|
      ensures r.Some? ==> r.value == Contents()[index]
    {
      if !ExistIndex(index) {
        return None;
      }
      var count := 0;
      var node := first;
      while node != null
        invariant 0 <= count <= index
        invariant node == nodes[count]
        decreases size - count
      {
        if count == index {
          return Some(node.e);
        }
        node := node.next;
        count := count + 1;
      }
      assert false;
      return None;
    }

    /** The ascending positions whose element is e, or None (Java null) when
        there are none. */
    method GetIndex(e: E) returns (r: Option<seq<int>>)
      requires Valid()
      ensures r.None? <==> e !in Contents()
      ensures r.Some? ==> r.value == IndicesOf(Contents(), e)
    {
      var index := 0;
      var found: seq<int> := [];
      var node := first;
      while node != null
        invariant 0 <= index <= size
        invariant node == if index < size then nodes[index] else null
        invariant found == IndicesOf(Contents()[..index], e)
        decreases size - index
      {
        assert Contents()[..index + 1] == Contents()[..index] + [node.e];
        if node.e == e {
          found := found + [index];
        }
        node := node.next;
        index := index + 1;
      }
      assert Contents()[..index] == Contents();
      IndicesOfEmpty(Contents(), e);
      if |found| > 0 {
        return Some(found);
      }
      return None;
    }

    /** Whether some node holds e. */
    method ExistElement(e: E) returns (r: bool)
      requires Valid()
      ensures r <==> e in Contents()
    {
      if size == 0 {
        return false;
      }
      var indices := GetIndex(e);
      return indices.Some?;
    }

    /** Adds e at the end; always succeeds. */
    method AddLast(e: E) returns (r: bool)
      requires Valid()
      modifies this, {last}`next
      ensures Valid() && r
      ensures Contents() == old(Contents()) + [e]
      ensures |nodes| == |old(nodes)| + 1 && nodes == old(nodes) + [nodes[|nodes| - 1]]
      ensures fresh(nodes[|nodes| - 1])
    {
      ghost var before, spine := Contents(), nodes;
      var n := new Node(e, null);
      if size == 0 {
        first, last := n, n;
        size := size + 1;
        nodes := [n];
        assert Elements(nodes) == [e];
      } else {
        LinkLast(n);
      }
      return true;
    }

    /** Links n, a node not yet in the list, after the last of at least one node. */
    method LinkLast(n: Node<E>)
      requires Valid() && size > 0 && n !in nodes && n.next == null
      modifies this, last`next
      ensures Valid()
      ensures Contents() == old(Contents()) + [n.e]
      ensures nodes == old(nodes) + [n]
    {
      ghost var before, spine := Contents(), nodes;
      ChainAlone(spine, size - 1);
      var node := last;
      node.next := n;
      last := n;
      size := size + 1;
      nodes := spine + [n];
      JoinIsList(spine, [n], first, last);
      assert Elements(spine) == before;
      ElementsAppend(spine, [n]);
    }

    /** Links a new node holding e in front of the first node. */
    method InsertFirst(e: E)
      requires Valid() && size > 0
      modifies this
      ensures Valid()
      ensures Contents() == [e] + old(Contents())
    {
      var n := new Node(e, first);
      LinkFirst(n);
    }

    /** Makes the unlinked node n, whose next is the first node, the new first. */
    method LinkFirst(n: Node<E>)
      requires Valid() && size > 0 && n !in nodes && n.next == first
      modifies this
      ensures Valid()
      ensures nodes == [n] + old(nodes)
      ensures Contents() == [n.e] + old(Contents())
    {
      ghost var before, spine := Contents(), nodes;
      first := n;
      size := size + 1;
      nodes := [n] + spine;
      LinkedJoin([n], spine);
      assert IsList([n] + spine, first, last);
      assert Elements(spine) == before;
      ElementsAppend([n], spine);
    }

    /** Links a new node holding e between prevNode, the node at position
        index - 1, and the node after it. */
    method InsertAfter(index: nat, prevNode: Node<E>, e: E)
      requires Valid() && 0 < index < size && prevNode == nodes[index - 1]
      modifies this, prevNode`next
      ensures Valid()
      ensures Contents() == old(Contents())[..index] + [e] + old(Contents())[index..]
    {
      assert prevNode.next == nodes[index];
      var n := new Node(e, prevNode.next);
      LinkAfter(index, prevNode, n);
    }

    /** Links the unlinked node n, whose next is the node at position index,
        after prevNode, the node at position index - 1. */
    method LinkAfter(ghost index: nat, prevNode: Node<E>, n: Node<E>)
      requires Valid() && 0 < index < size && prevNode == nodes[index - 1]
      requires n !in nodes && n.next == nodes[index]
      modifies this, prevNode`next
      ensures Valid()
      ensures nodes == old(nodes)[..index] + [n] + old(nodes)[index..]
      ensures Contents() == old(Contents())[..index] + [n.e] + old(Contents())[index..]
    {
      ghost var before, spine := Contents(), nodes;
      ghost var pre, post := spine[..index], spine[index..];
      LinkedSlice(spine, 0, index);
      LinkedSlice(spine, index, |spine|);
      ChainAlone(spine, index - 1);
      assert prevNode !in Init(pre) && prevNode !in post;
      assert post[|post| - 1] == spine[|spine| - 1];
      prevNode.next := n;
      size := size + 1;
      nodes := pre + [n] + post;
      SpliceIsList(pre, n, post, first, last);
      assert Elements(spine) == before;
      ElementsSplice(spine, index, n);
    }

    /** Inserts e so that it lands at position index. Index 0 is always
        accepted; any other index must already name a node, so an element can
        be appended at the end only through AddLast. */
    method Add(index: int, e: E) returns (r: bool)
      requires Valid()
      modifies this, nodes`next
      ensures Valid()
      ensures r <==> index == 0 || 0 < index < old(|Contents()|)
      ensures r ==> Contents() == old(Contents())[..index] + [e] + old(Contents())[index..]
      ensures !r ==> Contents() == old(Contents())
    {
      if size == 0 && index == 0 {
        var n := new Node(e, null);
        first, last := n, n;
        size := size + 1;
        nodes := [n];
        return true;
      }
      if !ExistIndex(index) {
        return false;
      }
      var count := 0;
      var prevNode: Node?<E> := null;
      var node := first;
      while node != null
        invariant 0 <= count <= index
        invariant node == nodes[count]
        decreases size - count
        invariant prevNode == if count == 0 then null else nodes[count - 1]
      {
        if count == index {
          if index == 0 {
            InsertFirst(e);
          } else {
            InsertAfter(index, prevNode, e);
          }
          return true;
        }
        prevNode := node;
        node := node.next;
        count := count + 1;
      }
      assert false;
      return false;
    }

    /** Overwrites the element at index when index names a node. */
    method Mod(index: int, e: E) returns (r: bool)
      requires Valid()
      modifies nodes`e
      ensures Valid()
      ensures r <==> 0 <= index < |Contents()|
      ensures Contents() == if r then old(Contents())[index := e] else old(Contents())
    {
      if !ExistIndex(index) {
        return false;
      }
      var count := 0;
      var node := first;
      while node != null
        invariant 0 <= count <= index
        invariant node == nodes[count]
        decreases size - count
      {
        if index == count {
          ChainAlone(nodes, index);
          node.e := e;
          return true;
        }
        node := node.next;
        count := count + 1;
      }
      assert false;
      return false;
    }

    /** One pass of replace's loop: overwrites the element of node i when it
        is oldElement, and reports whether it was. */
    method ReplaceStep(node: Node<E>, oldElement: E, newElement: E, ghost before: seq<E>, ghost i: nat)
      returns (hit: bool)
      requires Valid() && Distinct(nodes) && i < size == |before| && node == nodes[i]
      requires forall j :: 0 <= j < size ==>
        nodes[j].e == if j < i && before[j] == oldElement then newElement else before[j]
      modifies node`e
      ensures hit <==> before[i] == oldElement
      ensures forall j :: 0 <= j < size ==>
        nodes[j].e == if j < i + 1 && before[j] == oldElement then newElement else before[j]
    {
      hit := node.e == oldElement;
      if hit {
        node.e := newElement;
      }
    }

    /** Replaces every occurrence of oldElement by newElement; reports whether
        there was one. */
    method Replace(oldElement: E, newElement: E) returns (r: bool)
      requires Valid()
      modifies nodes`e
      ensures Valid()
      ensures r <==> oldElement in old(Contents())
      ensures Contents() == ReplaceAll(old(Contents()), oldElement, newElement)
    {
      if size == 0 {
        return false;
      }
      ghost var before := Contents();
      ChainDistinct(nodes);
      var count := 0;
      var node := first;
      ghost var i := 0;
      while node != null
        invariant 0 <= i <= size
        invariant node == if i < size then nodes[i] else null
        invariant forall j :: 0 <= j < size ==>
          nodes[j].e == if j < i && before[j] == oldElement then newElement else before[j]
        invariant count > 0 <==> oldElement in before[..i]
        decreases size - i
      {
        assert before[..i + 1] == before[..i] + [before[i]];
        var hit := ReplaceStep(node, oldElement, newElement, before, i);
        if hit {
          count := count + 1;
        }
        node := node.next;
        i := i + 1;
      }
      assert before[..i] == before;
      assert Contents() == ReplaceAll(before, oldElement, newElement);
      return count > 0;
    }

    /** Unlinks the first of at least two nodes. */
    method DropFirst()
      requires Valid() && size >= 2
      modifies this
      ensures Valid()
      ensures nodes == old(nodes)[1..] && Contents() == old(Contents())[1..]
    {
      ghost var spine := nodes;
      LinkedSlice(spine, 1, |spine|);
      ElementsSuffix(spine, 1);
      first := first.next;
      size := size - 1;
      nodes := spine[1..];
    }

    /** Unlinks the only node. */
    method DropOnly()
      requires Valid() && size == 1
      modifies this
      ensures Valid() && nodes == [] && Contents() == []
    {
      first, last := null, null;
      size := size - 1;
      nodes := [];
    }

    /** Unlinks the last of at least two nodes; prevNode, the node before it,
        becomes the last node. */
    method DropLast(prevNode: Node<E>)
      requires Valid() && size >= 2 && prevNode == nodes[size - 2]
      modifies this, prevNode`next
      ensures Valid()
      ensures nodes == old(nodes)[..old(size) - 1] && Contents() == old(Contents())[..old(size) - 1]
    {
      ghost var before, spine := Contents(), nodes;
      ghost var pre := spine[..size - 1];
      LinkedSlice(spine, 0, size - 1);
      ChainAlone(spine, size - 2);
      assert prevNode !in Init(pre);
      prevNode.next := null;
      last := prevNode;
      size := size - 1;
      nodes := pre;
      JoinIsList(pre, [], first, last);
      assert pre + [] == pre;
      assert Elements(spine) == before;
      ElementsPrefix(spine, size);
    }

    /** Unlinks the node at index, neither the first nor the last; prevNode is
        the node before it. */
    method DropAfter(ghost index: nat, prevNode: Node<E>)
      requires Valid() && 0 < index < size - 1 && prevNode == nodes[index - 1]
      modifies this, prevNode`next
      ensures Valid()
      ensures nodes == old(nodes)[..index] + old(nodes)[index + 1..]
      ensures Contents() == old(Contents())[..index] + old(Contents())[index + 1..]
    {
      ghost var before, spine := Contents(), nodes;
      ghost var pre, post := spine[..index], spine[index + 1..];
      LinkedSlice(spine, 0, index);
      LinkedSlice(spine, index + 1, |spine|);
      ChainAlone(spine, index - 1);
      assert prevNode !in Init(pre) && prevNode !in post;
      assert post[|post| - 1] == spine[|spine| - 1];
      var node := prevNode.next;
      assert node == spine[index] && node.next == spine[index + 1];
      prevNode.next := node.next;
      size := size - 1;
      nodes := pre + post;
      JoinIsList(pre, post, first, last);
      assert Elements(spine) == before;
      ElementsCut(spine, index);
    }

    /** The last node cut off the way the source's remove does it: the node
        before it ends the chain, but `last` keeps pointing at the removed node. */
    method DropLastAsWritten(prevNode: Node<E>)
      requires Valid() && size >= 2 && prevNode == nodes[size - 2]
      modifies this, prevNode`next
      ensures Chain() && last == old(last) && last !in nodes
      ensures nodes == old(nodes)[..old(size) - 1] && Contents() == old(Contents())[..old(size) - 1]
    {
      ghost var before, spine := Contents(), nodes;
      ghost var pre := spine[..size - 1];
      LinkedSlice(spine, 0, size - 1);
      ChainAlone(spine, size - 2);
      ChainAlone(spine, size - 1);
      assert prevNode !in Init(pre) && last !in pre;
      prevNode.next := null;
      size := size - 1;
      nodes := pre;
      JoinIsList(pre, [], first, prevNode);
      assert pre + [] == pre;
      assert Elements(spine) == before;
      ElementsPrefix(spine, size);
    }

    /** Removes the node at index when index names one. Unlike the source,
        removing the last of several nodes moves `last` to the node before it. */
    method Remove(index: int) returns (r: bool)
      requires Valid()
      modifies this, nodes`next
      ensures Valid()
      ensures r <==> 0 <= index < old(|Contents()|)
      ensures r ==> Contents() == old(Contents())[..index] + old(Contents())[index + 1..]
      ensures !r ==> Contents() == old(Contents())
    {
      if !ExistIndex(index) {
        return false;
      }
      var count := 0;
      var prevNode: Node?<E> := null;
      var node := first;
      while node != null
        invariant 0 <= count <= index
        invariant node == nodes[count]
        invariant prevNode == if count == 0 then null else nodes[count - 1]
        decreases size - count
      {
        assert count + 1 < size ==> node.next == nodes[count + 1];
        assert count + 1 == size ==> node.next == null;
        if index == 0 {
          if node.next != null {
            DropFirst();
          } else {
            DropOnly();
          }
          return true;
        } else if count == index {
          if node.next == null {
            DropLast(prevNode);
          } else {
            DropAfter(index, prevNode);
          }
          return true;
        }
        prevNode := node;
        node := node.next;
        count := count + 1;
      }
      assert false;
      return false;
    }

    /** remove as the source writes it: removing the last of several nodes
        leaves `last` on the removed node, so the list no longer satisfies
        Valid() although its chain of elements is right. */
    method RemoveAsWritten(index: int) returns (r: bool)
      requires Valid()
      modifies this, nodes`next
      ensures Chain()
      ensures r <==> 0 <= index < old(|Contents()|)
      ensures r ==> Contents() == old(Contents())[..index] + old(Contents())[index + 1..]
      ensures !r ==> Contents() == old(Contents())
      ensures 0 < index == old(size) - 1 ==> last == old(last) && last !in nodes && !Valid()
      ensures !(0 < index == old(size) - 1) ==> Valid()
    {
      if !ExistIndex(index) {
        return false;
      }
      var count := 0;
      var prevNode: Node?<E> := null;
      var node := first;
      while node != null
        invariant 0 <= count <= index
        invariant node == nodes[count]
        invariant prevNode == if count == 0 then null else nodes[count - 1]
        decreases size - count
      {
        assert count + 1 < size ==> node.next == nodes[count + 1];
        assert count + 1 == size ==> node.next == null;
        if index == 0 {
          if node.next != null {
            DropFirst();
          } else {
            DropOnly();
          }
          return true;
        } else if count == index {
          if node.next == null {
            DropLastAsWritten(prevNode);
          } else {
            DropAfter(index, prevNode);
          }
          return true;
        }
        prevNode := node;
        node := node.next;
        count := count + 1;
      }
      assert false;
      return false;
    }

    /** One removal of removeAll: unlinks node, at position at, with prevNode
        the node before it when there is one. Returns the node the walk goes on
        from: the node before the removed one when that stays in the middle of
        the list, otherwise the removed node itself, whose next link is intact. */
    method UnlinkAt(ghost at: nat, prevNode: Node?<E>, node: Node<E>) returns (cursor: Node<E>)
      requires Valid() && at < size && node == nodes[at]
      requires at > 0 ==> prevNode == nodes[at - 1]
      modifies this, {prevNode}`next
      ensures Valid()
      ensures nodes == old(nodes)[..at] + old(nodes)[at + 1..]
      ensures Contents() == old(Contents())[..at] + old(Contents())[at + 1..]
      ensures cursor == node || cursor == prevNode
      ensures forall k :: 0 <= k < |nodes| ==> nodes[k] in old(nodes)
      ensures cursor.next == if at < |nodes| then nodes[at] else null
      ensures 0 < at < |nodes| ==> cursor == nodes[at - 1]
    {
      ghost var spine := nodes;
      ChainAlone(spine, at);
      assert at + 1 < size ==> node.next == spine[at + 1];
      assert at + 1 == size ==> node.next == null;
      cursor := node;
      if size == 1 {
        DropOnly();
        assert spine[..at] + spine[at + 1..] == [];
        assert cursor.next == null;
      } else if node == first {
        DropFirst();
        assert spine[..at] + spine[at + 1..] == spine[1..];
        assert cursor.next == nodes[0];
      } else if node == last {
        DropLast(prevNode);
        assert spine[..at] + spine[at + 1..] == spine[..at];
        assert cursor.next == null;
      } else {
        DropAfter(at, prevNode);
        cursor := prevNode;
        assert prevNode == nodes[at - 1] && at < |nodes|;
      }
    }

    /** The state of removeAll's walk: node is the node at position at, or
        null past the end; prevNode is the node before it; the nodes still in
        the list, and prevNode, all come from spine. */
    ghost predicate Walk(spine: seq<Node<E>>, at: nat, node: Node?<E>, prevNode: Node?<E>)
      reads this, nodes`next
    {
      && Valid()
      && at <= |nodes|
      && (forall k :: 0 <= k < |nodes| ==> nodes[k] in spine)
      && node == (if at < |nodes| then nodes[at] else null)
      && (0 < at < |nodes| ==> prevNode == nodes[at - 1])
      && (prevNode == null || prevNode in spine)
    }

    /** One pass of removeAll's loop: node, at position at, is unlinked when it
        holds e. The walk has kept done and still has rest to visit. Returns
        the node the walk goes on from, whether node was removed, and the
        position of the node after cursor. */
    method RemoveAllStep(e: E, ghost spine: seq<Node<E>>, ghost done: seq<E>, ghost rest: seq<E>,
                         ghost at: nat, prevNode: Node?<E>, node: Node<E>)
      returns (cursor: Node<E>, removed: bool, ghost next: nat)
      requires Walk(spine, at, node, prevNode)
      requires |done| == at && Contents() == done + rest
      modifies this, {prevNode}`next
      ensures Walk(spine, next, cursor.next, cursor)
      ensures rest != [] && (removed <==> rest[0] == e)
      ensures next == if removed then at else at + 1
      ensures Contents() == (if removed then done else done + [rest[0]]) + rest[1..]
      ensures |nodes| - next < old(|nodes|) - at
    {
      assert at + 1 < size ==> node.next == nodes[at + 1];
      assert at + 1 == size ==> node.next == null;
      assert rest != [];
      DropAfterPrefix(done, rest);
      ShiftIntoPrefix(done, rest);
      cursor, removed, next := node, false, at + 1;
      if node.e == e {
        cursor := UnlinkAt(at, prevNode, node);
        removed, next := true, at;
      }
    }

    /** Removes every node holding e and returns how many there were. */
    method RemoveAll(e: E) returns (count: int)
      requires Valid()
      modifies this, nodes`next
      ensures Valid()
      ensures Contents() == Without(old(Contents()), e)
      ensures count == multiset(old(Contents()))[e]
    {
      ghost var s, spine := Contents(), nodes;
      if size == 0 {
        return 0;
      }
      count := 0;
      var prevNode: Node?<E> := null;
      var node := first;
      ghost var done, rest, at := [], s, 0;
      while node != null
        invariant Walk(spine, at, node, prevNode)
        invariant |done| == at && Contents() == done + rest
        invariant Without(s, e) == done + Without(rest, e)
        invariant count + multiset(rest)[e] == multiset(s)[e]
        decreases |nodes| - at
      {
        var removed;
        ghost var before := rest;
        node, removed, at := RemoveAllStep(e, spine, done, rest, at, prevNode, node);
        WithoutShift(done, before, e);
        CountShift(before, e);
        if removed {
          count := count + 1;
        } else {
          done := done + [before[0]];
        }
        rest := before[1..];
        prevNode := node;
        node := node.next;
      }
      assert rest == [] && Without(rest, e) == [];
    }
  }

  /** Each of the first n nodes of ns has its prev link on the node before it,
      the first on null. */
  ghost predicate BackLinked<E>(ns: seq<Node<E>>, n: nat)
    requires n <= |ns|
    reads ns`prev
  {
    && (n > 0 ==> ns[0].prev == null)
    && forall i, j :: 0 <= i && j == i + 1 && j < n ==> ns[j].prev == ns[i]
  }

  /** The prev link of node j of a back-linked prefix. */
  lemma BackLinkedAt<E>(ns: seq<Node<E>>, n: nat, j: nat)
    requires n <= |ns| && BackLinked(ns, n) && j < n
    ensures ns[j].prev == if j > 0 then ns[j - 1] else null
  {
    if j > 0 {
      var i := j - 1;
      assert 0 <= i && j == i + 1 && j < n;
    }
  }

  /** Adding the element just before a reversed slice at the end extends the
      reversal by one place. */
  lemma ReversedExtend<T>(before: seq<T>, s: seq<T>, lo: nat, hi: nat)
    requires 0 < lo <= hi <= |s|
    ensures (before + Reversed(s[lo..hi])) + [s[lo - 1]] == before + Reversed(s[lo - 1..hi])
  {
    assert s[lo - 1..hi][1..] == s[lo..hi];
    assert (before + Reversed(s[lo..hi])) + [s[lo - 1]] == before + (Reversed(s[lo..hi]) + [s[lo - 1]]);
  }

  /** A sequence whose k-th element is the k-th from the end of t is t reversed. */
  lemma ReversedFromIndex<T>(out: seq<T>, t: seq<T>)
    requires |out| == |t|
    requires forall k :: 0 <= k < |t| ==> out[k] == t[|t| - 1 - k]
    ensures out == Reversed(t)
  {
    ReversedIndex(t);
  }

  /** Links the prev of node count to the node before it, extending the
      back-linked prefix by one node. */
  method LinkPrev<E>(list: LinkedList<E>, node: Node<E>, prev: Node?<E>,
                     ghost spine: seq<Node<E>>, ghost s: seq<E>, ghost count: nat)
    requires list.Valid() && list.nodes == spine && list.Contents() == s
    requires count < |spine| && BackLinked(spine, count) && node == spine[count]
    requires prev == if count == 0 then null else spine[count - 1]
    modifies node`prev
    ensures list.Valid() && list.nodes == spine && list.Contents() == s
    ensures BackLinked(spine, count + 1)
  {
    ChainAlone(spine, count);
    node.prev := prev;
  }

  /** The first loop of reverse: walks the list from its first node, linking
      each node's prev to the node before it. */
  method LinkBack<E(==)>(list: LinkedList<E>)
    requires list.Valid()
    modifies list.nodes`prev
    ensures list.Valid() && list.Contents() == old(list.Contents())
    ensures BackLinked(list.nodes, |list.nodes|)
  {
    ghost var spine, s := list.nodes, list.Contents();
    var node := list.first;
    var prev: Node?<E> := null;
    ghost var i := 0;
    while node != null
      invariant list.Valid() && list.nodes == spine && list.Contents() == s
      invariant 0 <= i <= |spine|
      invariant node == if i < |spine| then spine[i] else null
      invariant prev == if i == 0 then null else spine[i - 1]
      invariant BackLinked(spine, i)
      decreases |spine| - i
    {
      assert i + 1 < |spine| ==> node.next == spine[i + 1];
      LinkPrev(list, node, prev, spine, s, i);
      prev := node;
      node := node.next;
      i := i + 1;
    }
  }

  /** The second loop of reverse: walks the prev links from the last node of
      list to the first, adding each element at the end of r. */
  method AppendBackward<E(==)>(list: LinkedList<E>, r: LinkedList<E>)
    requires r != list
    requires list.Valid() && BackLinked(list.nodes, |list.nodes|) && r.Valid() && r.Contents() == []
    requires r.last == null
    modifies r, r.nodes`next
    ensures list.Valid() && list.nodes == old(list.nodes) && list.Contents() == old(list.Contents())
    ensures BackLinked(list.nodes, |list.nodes|)
    ensures r.Valid() && r.Contents() == Reversed(list.Contents())
  {
    ghost var s, spine := list.Contents(), list.nodes;
    var node := list.last;
    ghost var j := |spine|;
    while node != null
      invariant list.Valid() && list.nodes == spine && list.Contents() == s
      invariant BackLinked(spine, |spine|)
      invariant 0 <= j <= |spine|
      invariant node == if j > 0 then spine[j - 1] else null
      invariant r.Valid() && |r.Contents()| == |s| - j
      invariant forall k :: 0 <= k < |s| - j ==> r.Contents()[k] == s[|s| - 1 - k]
      invariant r.last == null || fresh(r.last)
      decreases j
    {
      assert node.e == s[j - 1];
      var added := r.AddLast(node.e);
      node := node.prev;
      j := j - 1;
    }
    ReversedFromIndex(r.Contents(), s);
  }

  /** reverse(linkList): null for a null or empty list; otherwise a new list
      holding the elements in reverse order, built by walking the prev links
      from the last node. The given list keeps its elements and links, and
      gains its prev links. */
  method Reverse<E(==)>(list: LinkedList?<E>) returns (r: LinkedList?<E>)
    requires list != null ==> list.Valid()
    modifies (if list == null then [] else list.nodes)`prev
    ensures r == null <==> list == null || list.size == 0
    ensures list != null ==> list.Valid() && list.nodes == old(list.nodes)
    ensures list != null ==> list.Contents() == old(list.Contents())
    ensures r != null ==> fresh(r) && r.Valid() && r.Contents() == Reversed(list.Contents())
    ensures r != null ==> BackLinked(list.nodes, |list.nodes|)
  {
    if list == null || list.size == 0 {
      return null;
    }
    ghost var s, spine := list.Contents(), list.nodes;
    LinkBack(list);
    assert list.Valid() && list.nodes == spine && list.Contents() == s;
    r := new LinkedList();
    AppendBackward(list, r);
  }

  /** One pass of the inner loop of reverse(linkList, k): with tmp elements of
      the block ending at hi already added to r back to front, adds the element
      of the next node back and steps to the node before it. */
  method AppendPrev<E(==)>(list: LinkedList<E>, r: LinkedList<E>, nodeTmp: Node<E>,
                           ghost spine: seq<Node<E>>, ghost s: seq<E>, ghost before: seq<E>,
                           ghost hi: nat, ghost tmp: nat) returns (prev: Node?<E>)
    requires r != list
    requires list.Valid() && list.nodes == spine && list.Contents() == s
    requires tmp < hi <= |spine| && BackLinked(spine, hi) && nodeTmp == spine[hi - 1 - tmp]
    requires r.Valid() && r.Contents() == before + Reversed(s[hi - tmp..hi])
    requires r.last == null || r.last !in spine
    modifies r, {r.last}`next
    ensures list.Valid() && list.nodes == spine && list.Contents() == s && BackLinked(spine, hi)
    ensures r.Valid() && r.Contents() == before + Reversed(s[hi - (tmp + 1)..hi])
    ensures r.last != null && fresh(r.last) && r.last !in spine
    ensures prev == if tmp + 1 < hi then spine[hi - 2 - tmp] else null
  {
    BackLinkedAt(spine, hi, hi - 1 - tmp);
    var added := r.AddLast(nodeTmp.e);
    prev := nodeTmp.prev;
    ReversedExtend(before, s, hi - tmp, hi);
  }

  /** The inner loop of reverse(linkList, k): from node, the last of a block of
      k nodes whose prev links are set, walks k prev links back and adds each
      element at the end of r. */
  method AppendBlock<E(==)>(list: LinkedList<E>, r: LinkedList<E>, node: Node<E>, k: int,
                            ghost hi: nat)
    requires r != list
    requires list.Valid() && 1 <= k <= hi <= |list.nodes| && BackLinked(list.nodes, hi)
    requires node == list.nodes[hi - 1]
    requires r.Valid() && (r.last == null || r.last !in list.nodes)
    modifies r, {r.last}`next
    ensures list.Valid() && list.nodes == old(list.nodes) && list.Contents() == old(list.Contents())
    ensures BackLinked(list.nodes, hi)
    ensures r.Valid() && (r.last == old(r.last) || fresh(r.last))
    ensures r.Contents() == old(r.Contents()) + Reversed(list.Contents()[hi - k..hi])
  {
    ghost var s, spine, before := list.Contents(), list.nodes, r.Contents();
    var tmp := 0;
    var nodeTmp: Node?<E> := node;
    assert s[hi..hi] == [];
    while nodeTmp != null && tmp != k
      invariant list.Valid() && list.nodes == spine && list.Contents() == s && BackLinked(spine, hi)
      invariant 0 <= tmp <= k
      invariant nodeTmp == if tmp < hi then spine[hi - 1 - tmp] else null
      invariant r.Valid() && r.Contents() == before + Reversed(s[hi - tmp..hi])
      invariant r.last == old(r.last) || fresh(r.last)
      invariant r.last == null || r.last !in spine
      decreases k - tmp
    {
      nodeTmp := AppendPrev(list, r, nodeTmp, spine, s, before, hi, tmp);
      tmp := tmp + 1;
    }
  }

  /** A block of k ends at count: its elements go to r back to front, so r
      holds every whole block up to count, each reversed. */
  method CloseBlock<E(==)>(list: LinkedList<E>, r: LinkedList<E>, node: Node<E>, k: int,
                           ghost spine: seq<Node<E>>, ghost s: seq<E>,
                           ghost q: nat, ghost start: nat, ghost count: nat)
    requires r != list
    requires list.Valid() && list.nodes == spine && list.Contents() == s
    requires k >= 1 && start == q * k && count == start + k && count <= |spine|
    requires BackLinked(spine, count) && node == spine[count - 1]
    requires r.Valid() && r.Contents() == ReverseGroups(s[..start], k)
    requires r.last == null || r.last !in spine
    modifies r, {r.last}`next
    ensures list.Valid() && list.nodes == spine && list.Contents() == s && BackLinked(spine, count)
    ensures r.Valid() && r.Contents() == ReverseGroups(s[..count], k)
    ensures r.last == old(r.last) || fresh(r.last)
  {
    AppendBlock(list, r, node, k, count);
    ReverseGroupsPrefix(s, k, q, start, count);
  }

  /** The reversed groups of a prefix ending at a block boundary, then the
      next block reversed, are the reversed groups of the longer prefix. */
  lemma ReverseGroupsPrefix<T>(s: seq<T>, k: nat, q: nat, start: nat, count: nat)
    requires k >= 1 && start == q * k && count == start + k && count <= |s|
    ensures ReverseGroups(s[..start], k) + Reversed(s[start..count]) == ReverseGroups(s[..count], k)
  {
    ReverseGroupsSnoc(s[..start], s[start..count], k, q);
    assert s[..start] + s[start..count] == s[..count];
  }

  /** One pass of the outer loop of reverse(linkList, k): counts node, links
      its prev to the node before it and, when it ends a block of k, adds that
      block to r back to front. */
  method ReverseKStep<E(==)>(list: LinkedList<E>, r: LinkedList<E>, node: Node<E>, prev: Node?<E>,
                             k: int, count: int, ghost spine: seq<Node<E>>, ghost s: seq<E>,
                             ghost q: nat, ghost start: nat, ghost d: nat)
    returns (count': int, ghost q': nat, ghost start': nat, ghost d': nat)
    requires r != list
    requires list.Valid() && list.nodes == spine && list.Contents() == s
    requires 0 <= count < |spine| && BackLinked(spine, count) && node == spine[count]
    requires prev == if count == 0 then null else spine[count - 1]
    requires k >= 1 && start == q * k && count == start + d && d < k
    requires r.Valid() && r.Contents() == ReverseGroups(s[..start], k)
    requires r.last == null || r.last !in spine
    modifies r, {r.last}`next, node`prev
    ensures list.Valid() && list.nodes == spine && list.Contents() == s
    ensures count' == count + 1 && BackLinked(spine, count')
    ensures start' == q' * k && count' == start' + d' && d' < k
    ensures r.Valid() && r.Contents() == ReverseGroups(s[..start'], k)
    ensures r.last == old(r.last) || fresh(r.last)
  {
    LinkPrev(list, node, prev, spine, s, count);
    count' := count + 1;
    BlockEnd(count', q, d + 1, k);
    if count' % k == 0 {
      CloseBlock(list, r, node, k, spine, s, q, start, count');
      assert (q + 1) * k == start + k;
      q', start', d' := q + 1, count', 0;
    } else {
      q', start', d' := q, start, d + 1;
    }
  }

  /** reverse(linkList, k): null for a null or empty list, a k below 1, or a
      size that k does not divide; otherwise a new list holding each block of
      k elements reversed, blocks kept in order. The given list keeps its
      elements and links, and gains its prev links. */
  method ReverseK<E(==)>(list: LinkedList?<E>, k: int) returns (r: LinkedList?<E>)
    requires list != null ==> list.Valid()
    modifies (if list == null then [] else list.nodes)`prev
    ensures r == null <==> list == null || list.size == 0 || k < 1 || list.size % k != 0
    ensures list != null ==> list.Valid() && list.nodes == old(list.nodes)
    ensures list != null ==> list.Contents() == old(list.Contents())
    ensures r != null ==> k >= 1 && fresh(r) && r.Valid() && r.Contents() == ReverseGroups(list.Contents(), k)
    ensures r != null ==> BackLinked(list.nodes, |list.nodes|)
  {
    if list == null || list.size == 0 {
      return null;
    }
    if k < 1 {
      return null;
    }
    if list.size % k > 0 {
      return null;
    }
    ghost var s, spine := list.Contents(), list.nodes;
    var count := 0;
    r := new LinkedList();
    var node := list.first;
    var prev: Node?<E> := null;
    ghost var q: nat, start: nat, d: nat := 0, 0, 0;
    while node != null
      invariant list.Valid() && list.nodes == spine && list.Contents() == s
      invariant 0 <= count <= |spine| && BackLinked(spine, count)
      invariant node == if count < |spine| then spine[count] else null
      invariant prev == if count == 0 then null else spine[count - 1]
      invariant start == q * k && count == start + d && d < k
      invariant fresh(r) && r.Valid() && r.Contents() == ReverseGroups(s[..start], k)
      invariant r.last == null || fresh(r.last)
      decreases |spine| - count
    {
      ChainAlone(spine, count);
      assert count + 1 < |spine| ==> node.next == spine[count + 1];
      count, q, start, d := ReverseKStep(list, r, node, prev, k, count, spine, s, q, start, d);
      prev := node;
      node := node.next;
    }
    ModUnique(|s|, q, d, k);
    assert s[..start] == s;
  }

  /** getMiddleElement(linkList): null for a null list or one of even size;
      otherwise the element at the middle position, found by a slow node
      stepping one node while a fast node steps two. */
  method GetMiddleElement<E(==)>(list: LinkedList?<E>) returns (r: Option<E>)
    requires list != null ==> list.Valid()
    ensures r.None? <==> list == null || list.size % 2 == 0
    ensures r.Some? ==> list != null && r.value == list.Contents()[list.size / 2]
  {
    if list == null {
      return None;
    }
    if list.size % 2 == 0 {
      return None;
    }
    ghost var spine := list.nodes;
    var slowNode := list.first;
    var fastNode := slowNode;
    ghost var i := 0;
    while fastNode != null && fastNode.next != null
      invariant 0 <= 2 * i < |spine|
      invariant slowNode == spine[i] && fastNode == spine[2 * i]
      invariant fastNode.next == if 2 * i + 1 < |spine| then spine[2 * i + 1] else null
      decreases |spine| - 2 * i
    {
      assert 2 * i + 2 < |spine|;
      slowNode := slowNode.next;
      fastNode := fastNode.next.next;
      i := i + 1;
    }
    return Some(slowNode.e);
  }

  /** existLoop(linkList) as written: on a list of even size the fast node
      steps past the last node to null and the next round reads its next link,
      a NullPointerException; otherwise the answer is false. */
  method ExistLoopAsWritten<E(==)>(list: LinkedList?<E>) returns (r: Result<bool, Fault>)
    requires list != null ==> list.Valid()
    ensures r.Failure? <==> list != null && list.size > 0 && list.size % 2 == 0
    ensures r.Success? ==> r.value == false
  {
    if list == null {
      return Success(false);
    }
    if list.size == 0 {
      return Success(false);
    }
    ghost var spine := list.nodes;
    var fastNode: Node?<E> := list.first;
    var slowNode: Node?<E> := fastNode;
    ghost var i := 0;
    while slowNode != null
      invariant 0 <= i < |spine| && 2 * i <= |spine|
      invariant slowNode == spine[i]
      invariant fastNode == if 2 * i < |spine| then spine[2 * i] else null
      decreases |spine| - i
    {
      if fastNode == null {
        return Failure(NullPointer);
      }
      assert 2 * i + 1 < |spine| ==> fastNode.next == spine[2 * i + 1];
      if fastNode.next == null {
        break;
      }
      assert fastNode.next == spine[2 * i + 1];
      assert 2 * i + 2 < |spine| ==> fastNode.next.next == spine[2 * i + 2];
      fastNode := fastNode.next.next;
      slowNode := slowNode.next;
      i := i + 1;
      ChainAlone(spine, i);
      assert fastNode != null ==> fastNode in spine[i + 1..];
      if fastNode == slowNode {
        assert false;
        return Success(true);
      }
    }
    return Success(false);
  }

  /** existLoop with the fast node checked for null before its next link is
      read: every list the model can build ends in null, so the answer is
      always false and no exception is thrown. */
  method ExistLoop<E(==)>(list: LinkedList?<E>) returns (r: bool)
    requires list != null ==> list.Valid()
    ensures !r
  {
    if list == null {
      return false;
    }
    if list.size == 0 {
      return false;
    }
    ghost var spine := list.nodes;
    var fastNode: Node?<E> := list.first;
    var slowNode: Node?<E> := fastNode;
    ghost var i := 0;
    while slowNode != null
      invariant 0 <= i < |spine| && 2 * i <= |spine|
      invariant slowNode == spine[i]
      invariant fastNode == if 2 * i < |spine| then spine[2 * i] else null
      decreases |spine| - i
    {
      if fastNode == null || fastNode.next == null {
        break;
      }
      assert fastNode.next == spine[2 * i + 1];
      assert 2 * i + 2 < |spine| ==> fastNode.next.next == spine[2 * i + 2];
      fastNode := fastNode.next.next;
      slowNode := slowNode.next;
      i := i + 1;
      ChainAlone(spine, i);
      assert fastNode != null ==> fastNode in spine[i + 1..];
      if fastNode == slowNode {
        assert false;
        return true;
      }
    }
    return false;
  }
}
