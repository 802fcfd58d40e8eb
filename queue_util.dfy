/** The circular array queue of QueueUtil, and the Josephus ring built on it.
    Slot `head` is kept empty; the front element lives one slot after it and
    `tail` is the slot of the back element. */
module QueueUtil {
  import opened Wrappers
  import JavaArrays
  import opened ModArith

  /** Capacity allocated when a queue shorter than this has to grow. */
  const DEFAULT_CAPACITY: nat := 10

  datatype QueueError = IllegalCapacity | ArrayTooLarge

  /** The length expand() computes for a full array: the default capacity when
      the array is shorter than that, otherwise one and a half times its length. */
  function GrownLength(len: nat): (n: nat)
    ensures len < n && DEFAULT_CAPACITY <= n
  {
    if len >= DEFAULT_CAPACITY then len * 3 / 2 else DEFAULT_CAPACITY
  }

  /** Adding k to a reduced position lands where adding k to the position does. */
  lemma ModShift(a: int, k: int, n: int)
    requires n > 0 && a >= 0 && k >= 0
    ensures (a % n + k) % n == (a + k) % n
  {
    var q, r := a / n, a % n;
    var q2, r2 := (r + k) / n, (r + k) % n;
    assert a + k == (q + q2) * n + r2;
    ModUnique(a + k, q + q2, r2, n);
  }

  /** Two positions fewer than n apart never share a slot modulo n. */
  lemma ModDistinct(a: int, j: int, k: int, n: int)
    requires n > 0 && a >= 0 && 0 <= j < k < j + n
    ensures (a + j) % n != (a + k) % n
  {
    var r := (a + j) % n;
    ModShift(a + j, k - j, n);
    if r + (k - j) < n {
      ModUnique(r + (k - j), 0, r + (k - j), n);
    } else {
      ModUnique(r + (k - j), 1, r + (k - j) - n, n);
    }
  }

  /** The live part of a ring buffer a: n slots, starting one slot after h. */
  ghost function Window<E>(a: seq<E>, h: int, n: nat): (w: seq<E>)
    requires n <= |a| && 0 <= h
    ensures |w| == n
  {
    seq(n, k requires 0 <= k < n => a[(h + 1 + k) % |a|])
  }

  /** Writing the slot after the window's last one extends the window by that value. */
  lemma WindowAppend<E>(a: seq<E>, h: int, n: nat, e: E)
    requires 0 <= h < |a| && n < |a|
    ensures Window(a[(h + n + 1) % |a| := e], h, n + 1) == Window(a, h, n) + [e]
  {
    var b := a[(h + n + 1) % |a| := e];
    forall k | 0 <= k < n
      ensures Window(b, h, n + 1)[k] == Window(a, h, n)[k]
    {
      ModDistinct(h + 1, k, n, |a|);
    }
  }

  /** Moving h one slot on and clearing that slot drops the window's first element. */
  lemma WindowDrop<E>(a: seq<E>, h: int, n: nat, x: E)
    requires 0 <= h < |a| && 0 < n <= |a|
    ensures Window(a[(h + 1) % |a| := x], (h + 1) % |a|, n - 1) == Window(a, h, n)[1..]
  {
    var h' := (h + 1) % |a|;
    var b := a[h' := x];
    var w, v := Window(b, h', n - 1), Window(a, h, n);
    forall k | 0 <= k < n - 1
      ensures w[k] == v[1..][k]
    {
      var p := (h + 1 + (k + 1)) % |a|;
      ModShift(h + 1, k + 1, |a|);
      assert (h' + 1 + k) % |a| == p;
      ModDistinct(h + 1, 0, k + 1, |a|);
      assert p != h';
      assert w[k] == b[p] == a[p] == v[k + 1];
    }
  }

  /** With h == 0 the window is the slots 1..n. */
  lemma WindowFromZero<E>(a: seq<E>, n: nat)
    requires n < |a|
    ensures Window(a, 0, n) == a[1..n + 1]
  {
    forall k | 0 <= k < n
      ensures Window(a, 0, n)[k] == a[k + 1]
    {
      ModUnique(k + 1, 0, k + 1, |a|);
    }
  }

  /** Elements are Java references: `None` is a stored or vacated `null`. */
  class Queue<E> {
    var objects: array<Option<E>>
    var size: nat
    /** The slot before the front element. */
    var head: int
    /** The slot of the back element. */
    var tail: int

    ghost predicate Valid()
      reads this, objects
    {
      && size <= objects.Length < INT_MAX
      && (objects.Length == 0 ==> head == 0 && tail == 0)
      && (objects.Length > 0 ==> 0 <= head < objects.Length && tail == (head + size) % objects.Length)
    }

    /** The live elements, front first. */
    ghost function Contents(): (s: seq<Option<E>>)
      reads this, objects
      requires Valid()
      ensures |s| == size
    {
      Window(objects[..], head, size)
    }

    /** The no-argument constructor: an empty queue on an empty array. */
    constructor ()
      ensures Valid() && size == 0 && objects.Length == 0 && Contents() == []
    {
      objects := new Option<E>[0];
      size, head, tail := 0, 0, 0;
    }

    /** The capacity constructor for a capacity it accepts; `NewQueue` adds
        the rejection of a negative capacity. */
    constructor WithCapacity(capacity: nat)
      requires capacity < INT_MAX
      ensures Valid() && fresh(objects) && objects.Length == capacity
      ensures size == 0 && head == 0 && tail == 0 && Contents() == []
    {
      objects := new Option<E>[capacity](_ => None);
      size, head, tail := 0, 0, 0;
    }

    /** Makes room for one more element: a full array is copied into a longer
        one with the front element moved to slot 1. The copy reads from the
        old array; see `ExpandAsWritten` for the copy as the source writes it. */
    method Expand() returns (r: Result<(), QueueError>)
      requires Valid()
      modifies this
      ensures Valid() && size == old(size)
      ensures r.Failure? <==> old(size) + 1 > old(objects.Length) && GrownLength(old(objects.Length)) >= INT_MAX
      ensures r.Failure? ==> r.error == ArrayTooLarge && objects == old(objects) && head == old(head)
      ensures r.Success? ==> size < objects.Length && Contents() == old(Contents())
      ensures old(size) < old(objects.Length) ==> objects == old(objects) && head == old(head) && tail == old(tail)
      ensures r.Success? && old(size) == old(objects.Length) ==>
        fresh(objects) && objects.Length == GrownLength(old(objects.Length)) && head == 0 && tail == size
    {
      if size + 1 > objects.Length {
        var oldLen := objects.Length;
        var newLen := GrownLength(oldLen);
        if newLen >= INT_MAX {
          return Failure(ArrayTooLarge);
        }
        ghost var before := Contents();
        var grown := CopyRing(objects, head, size, newLen);
        objects := grown;
        head := 0;
        tail := size;
        objects[head] := None;
        WindowFromZero(objects[..], size);
        ModUnique(size, 0, size, newLen);
      }
      return Success(());
    }

    /** Enqueues e at the back. */
    method Add(e: Option<E>) returns (r: Result<bool, QueueError>)
      requires Valid()
      modifies this, objects
      ensures Valid()
      ensures r.Failure? <==> old(size) == old(objects.Length) && GrownLength(old(objects.Length)) >= INT_MAX
      ensures r.Failure? ==> r.error == ArrayTooLarge && size == old(size) && objects == old(objects)
      ensures r.Success? ==> r.value && size == old(size) + 1 && Contents() == old(Contents()) + [e]
      ensures old(size) < old(objects.Length) ==> objects == old(objects) && head == old(head)
    {
      var expanded := Expand();
      if expanded.Failure? {
        return Failure(expanded.error);
      }
      ModShift(head + size, 1, objects.Length);
      WindowAppend(objects[..], head, size, e);
      tail := (tail + 1) % objects.Length;
      objects[tail] := e;
      size := size + 1;
      return Success(true);
    }

    /** Dequeues the front element; an empty queue answers null and is left as it is. */
    method Poll() returns (r: Option<E>)
      requires Valid()
      modifies this, objects
      ensures Valid() && objects == old(objects)
      ensures r == old(Peek())
      ensures old(size) == 0 ==> size == 0 && head == old(head) && tail == old(tail) && unchanged(objects)
      ensures old(size) > 0 ==> size == old(size) - 1 && Contents() == old(Contents())[1..]
    {
      if size == 0 {
        return None;
      }
      ghost var a := objects[..];
      ModShift(head + 1, size - 1, objects.Length);
      WindowDrop(a, head, size, None);
      head := (head + 1) % objects.Length;
      r := objects[head];
      objects[head] := None;
      assert objects[..] == a[head := None];
      size := size - 1;
    }

    /** The front element without removing it; an empty queue answers null. */
    function Peek(): (r: Option<E>)
      reads this, objects
      requires Valid()
      ensures size == 0 ==> r == None
      ensures size > 0 ==> r == Contents()[0]
    {
      if size == 0 then None else objects[(head + 1) % objects.Length]
    }
  }

  /** The copy loop of expand() as the source writes it: once Arrays.copyOf has
      replaced the array, slot i is filled from slot (head + i) % oldLen of the
      NEW array, which an earlier iteration may already have overwritten. */
  function CopyLoopAsWritten<E>(b: seq<E>, head: int, oldLen: nat, i: nat, size: nat): (c: seq<E>)
    requires 0 < oldLen <= |b| && 0 <= head && 1 <= i && size < |b|
    ensures |c| == |b|
    decreases size + 1 - i
  {
    if i > size then b
    else CopyLoopAsWritten(b[i := b[(head + i) % oldLen]], head, oldLen, i + 1, size)
  }

  /** The slots expand() as written leaves for the full ring a whose slot
      before the front is head. */
  function ExpandAsWritten<E>(a: seq<Option<E>>, head: int): (c: seq<Option<E>>)
    requires 0 <= head < |a|
    ensures |c| == GrownLength(|a|)
  {
    var b := a + seq(GrownLength(|a|) - |a|, _ => None);
    CopyLoopAsWritten(b, head, |a|, 1, |a|)[0 := None]
  }

  /** A full queue of capacity 3 holding b, c, d with its front in slot 2 comes
      out of expand() as written holding b, c, b: d is lost and b duplicated. */
  lemma ExpandAsWrittenLosesElement()
    ensures var a := [Some('c'), Some('d'), Some('b')];
      && Window(a, 1, 3) == [Some('b'), Some('c'), Some('d')]
      && Window(ExpandAsWritten(a, 1), 0, 3) == [Some('b'), Some('c'), Some('b')]
  {
    var a := [Some('c'), Some('d'), Some('b')];
    var b := a + seq(7, _ => None);
    var b1 := b[1 := b[2]];
    var b2 := b1[2 := b1[0]];
    var b3 := b2[3 := b2[1]];
    assert CopyLoopAsWritten(b, 1, 3, 1, 3) == b3;
    assert ExpandAsWritten(a, 1)[1..4] == [Some('b'), Some('c'), Some('b')];
    WindowFromZero(ExpandAsWritten(a, 1), 3);
  }

  /** With the front in slot 1 (head == 0) the copy as written never reads a
      slot it has already overwritten: it only moves slot 0 to the end. */
  lemma {:induction false} CopyLoopAsWrittenFromZero<E>(b: seq<E>, oldLen: nat, i: nat)
    requires 0 < oldLen < |b| && 1 <= i <= oldLen + 1
    ensures CopyLoopAsWritten(b, 0, oldLen, i, oldLen)
            == if i <= oldLen then b[oldLen := b[0]] else b
    decreases oldLen + 1 - i
  {
    if i < oldLen {
      ModUnique(i, 0, i, oldLen);
      assert b[i := b[i % oldLen]] == b;
      CopyLoopAsWrittenFromZero(b, oldLen, i + 1);
    } else if i == oldLen {
      ModUnique(i, 1, 0, oldLen);
    }
  }

  /** Hence expand() as written keeps the queue's contents whenever head == 0. */
  lemma ExpandAsWrittenFromZero<E>(a: seq<Option<E>>)
    requires 0 < |a|
    ensures Window(ExpandAsWritten(a, 0), 0, |a|) == Window(a, 0, |a|)
  {
    var b := a + seq(GrownLength(|a|) - |a|, _ => None);
    CopyLoopAsWrittenFromZero(b, |a|, 1);
    WindowFromZero(ExpandAsWritten(a, 0), |a|);
    forall k | 0 <= k < |a|
      ensures Window(a, 0, |a|)[k] == ExpandAsWritten(a, 0)[k + 1]
    {
      if k + 1 < |a| {
        ModUnique(k + 1, 0, k + 1, |a|);
      } else {
        ModUnique(k + 1, 1, 0, |a|);
      }
    }
  }

  /** The people 1..n in numbering order. */
  function Range(n: nat): (s: seq<int>)
    ensures |s| == n
  {
    seq(n, k => k + 1)
  }

  /** The array josephus builds by adding 1..n to a queue of capacity n: slot
      0 holds n and slot j holds j. */
  function InitialRing(n: nat): (s: seq<int>)
    requires n > 0
    ensures |s| == n
  {
    [n] + Range(n - 1)
  }

  /** The ring holds each of the people 1..n exactly once. */
  lemma InitialRingHoldsEveryone(n: nat)
    requires n > 0
    ensures multiset(InitialRing(n)) == multiset(Range(n))
  {
    assert Range(n) == Range(n - 1) + [n];
  }

  /** The order in which josephus removes the people of ring: from slot head
      count out slots on, wrapping round, remove that person, and count on
      from the slot before the removed one. */
  function JosephusOrder<T>(ring: seq<T>, head: int, out: nat): (order: seq<T>)
    requires head >= -1 && out >= 1
    decreases |ring|
  {
    if ring == [] then []
    else
      var i := Advance(head, out, |ring|);
      [ring[i]] + JosephusOrder(ring[..i] + ring[i + 1..], i - 1, out)
  }

  /** The slot reached by counting out slots on from head in a ring of len slots. */
  function Advance(head: int, out: nat, len: nat): (i: int)
    requires len > 0 && head + out >= 0
    ensures 0 <= i < len
  {
    (head + out) % len
  }

  /** Every person of the ring leaves exactly once. */
  lemma {:induction false} JosephusOrderPermutes<T>(ring: seq<T>, head: int, out: nat)
    requires head >= -1 && out >= 1
    ensures multiset(JosephusOrder(ring, head, out)) == multiset(ring)
    decreases |ring|
  {
    if ring != [] {
      var i := Advance(head, out, |ring|);
      assert ring == ring[..i] + [ring[i]] + ring[i + 1..];
      JosephusOrderPermutes(ring[..i] + ring[i + 1..], i - 1, out);
    }
  }

  /** Five people counting from person 1 and removing every second one leave in
      the order 2, 4, 1, 5, 3. */
  lemma JosephusFiveTwo()
    ensures JosephusOrder(InitialRing(5), 0, 2) == [2, 4, 1, 5, 3]
  {
    assert InitialRing(5) == [5, 1, 2, 3, 4];
    JosephusStepAt([5, 1, 2, 3, 4], 0, 2, 2, [5, 1, 3, 4]);
    JosephusFiveTwoFrom4();
  }

  lemma JosephusFiveTwoFrom4()
    ensures JosephusOrder([5, 1, 3, 4], 1, 2) == [4, 1, 5, 3]
  {
    JosephusStepAt([5, 1, 3, 4], 1, 2, 3, [5, 1, 3]);
    JosephusFiveTwoFrom3();
  }

  lemma JosephusFiveTwoFrom3()
    ensures JosephusOrder([5, 1, 3], 2, 2) == [1, 5, 3]
  {
    JosephusStepAt([5, 1, 3], 2, 2, 1, [5, 3]);
    JosephusFiveTwoFrom2();
  }

  lemma JosephusFiveTwoFrom2()
    ensures JosephusOrder([5, 3], 0, 2) == [5, 3]
  {
    JosephusStepAt([5, 3], 0, 2, 0, [3]);
    JosephusStepAt([3], -1, 2, 0, []);
  }

  /** One removal, with the slot reached and the remaining ring named. */
  lemma JosephusStepAt<T>(ring: seq<T>, head: int, out: nat, i: nat, rest: seq<T>)
    requires ring != [] && head >= -1 && out >= 1
    requires i == Advance(head, out, |ring|) && rest == ring[..i] + ring[i + 1..]
    ensures JosephusOrder(ring, head, out) == [ring[i]] + JosephusOrder(rest, i - 1, out)
  {}

  /** The numbers held by slots that are all non-null. */
  function Values(s: seq<Option<int>>): (v: seq<int>)
    requires forall j :: 0 <= j < |s| ==> s[j].Some?
    ensures |v| == |s| && forall j :: 0 <= j < |s| ==> s[j] == Some(v[j])
  {
    seq(|s|, j requires 0 <= j < |s| => s[j].value)
  }

  /** A full window from slot 0 is the array rotated left by one. */
  lemma WindowFull<E>(a: seq<E>)
    requires 0 < |a|
    ensures Window(a, 0, |a|) == a[1..] + [a[0]]
  {
    forall k | 0 <= k < |a|
      ensures Window(a, 0, |a|)[k] == (a[1..] + [a[0]])[k]
    {
      if k + 1 < |a| {
        ModUnique(k + 1, 0, k + 1, |a|);
      } else {
        ModUnique(k + 1, 1, 0, |a|);
      }
    }
  }

  /** Adding 1..n to a queue of capacity n leaves the array InitialRing(n). */
  lemma RingAfterAdds(a: seq<Option<int>>)
    requires 0 < |a| && Window(a, 0, |a|) == seq(|a|, k => Some(k + 1))
    ensures forall j :: 0 <= j < |a| ==> a[j].Some?
    ensures Values(a) == InitialRing(|a|)
  {
    WindowFull(a);
    var n := |a|;
    assert a[0] == Some(n) by {
      assert (a[1..] + [a[0]])[n - 1] == a[0];
    }
    forall j | 1 <= j < n
      ensures a[j] == Some(j)
    {
      assert (a[1..] + [a[0]])[j - 1] == a[j];
    }
  }

  /** Closing the gap left by slot h of a ring of non-null slots. */
  lemma ValuesRemove(slots: seq<Option<int>>, ring: seq<int>, h: nat)
    requires h < |slots| == |ring|
    requires forall j :: 0 <= j < |slots| && j != h ==> slots[j] == Some(ring[j])
    ensures var rest := slots[..h] + slots[h + 1..]; forall j :: 0 <= j < |rest| ==> rest[j].Some?
    ensures Values(slots[..h] + slots[h + 1..]) == ring[..h] + ring[h + 1..]
  {}

  /** One pass of josephus's removal loop on the slots, in terms of JosephusOrder:
      the removed person joins the answer and the ring closes over the gap. */
  lemma EliminationStep(pre: seq<Option<int>>, h0: int, out: nat, h: nat, done: seq<int>, whole: seq<int>, post: seq<Option<int>>)
    requires |pre| > 0 && h0 >= -1 && out >= 1 && h == Advance(h0, out, |pre|)
    requires forall j :: 0 <= j < |pre| ==> pre[j].Some?
    requires done + JosephusOrder(Values(pre), h0, out) == whole
    requires post == pre[..h] + pre[h + 1..]
    ensures forall j :: 0 <= j < |post| ==> post[j].Some?
    ensures (done + [pre[h].value]) + JosephusOrder(Values(post), h - 1, out) == whole
  {
    var ring := Values(pre);
    assert Values(post) == ring[..h] + ring[h + 1..];
    JosephusStepAt(ring, h0, out, h, ring[..h] + ring[h + 1..]);
  }

  /** Whoever starts and whatever the count, each of 1..n leaves exactly once. */
  lemma JosephusOrderIsPermutation(n: nat, head: int, out: nat)
    requires n > 0 && head >= -1 && out >= 1
    ensures multiset(JosephusOrder(InitialRing(n), head, out)) == multiset(Range(n))
  {
    JosephusOrderPermutes(InitialRing(n), head, out);
    InitialRingHoldsEveryone(n);
  }

  /** The shifting loop of josephus: slots h+1..sz move one slot down over the
      removed slot h. */
  method CloseGap(a: array<Option<int>>, h: nat, sz: nat)
    requires h <= sz < a.Length
    modifies a
    ensures a[..sz] == old(a[..h]) + old(a[h + 1..sz + 1])
    ensures a[sz..] == old(a[sz..])
  {
    var k := h;
    while k < sz
      invariant h <= k <= sz
      invariant forall j :: 0 <= j < h ==> a[j] == old(a[j])
      invariant forall j :: h <= j < k ==> a[j] == old(a[j + 1])
      invariant forall j :: k <= j < a.Length ==> a[j] == old(a[j])
    {
      a[k] := a[k + 1];
      k := k + 1;
    }
    assert forall j :: 0 <= j < sz ==> a[..sz][j] == (old(a[..h]) + old(a[h + 1..sz + 1]))[j];
  }

  /** The first half of josephus: people 1..n enqueued, in order, on a queue
      of capacity n. */
  method Ring(n: nat) returns (q: Queue<int>)
    requires 0 < n < INT_MAX
    ensures fresh(q) && fresh(q.objects) && q.objects.Length == n && q.size == n
    ensures forall j :: 0 <= j < n ==> q.objects[j].Some?
    ensures Values(q.objects[..]) == InitialRing(n)
  {
    q := new Queue<int>.WithCapacity(n);
    var i := 0;
    while i < n
      invariant 0 <= i <= n
      invariant q.Valid() && fresh(q.objects) && q.objects.Length == n && q.head == 0
      invariant q.Contents() == seq(i, k => Some(k + 1))
    {
      var added := q.Add(Some(i + 1));
      i := i + 1;
    }
    RingAfterAdds(q.objects[..]);
  }

  /** One pass of josephus's removal loop: count out slots on from head, put
      that person in the answer, and close the ring over the emptied slot. */
  method RemoveNext(q: Queue<int>, out: int, result: array<int>, index: nat) returns (next: nat)
    requires out >= 1 && 0 < q.size == q.objects.Length && q.head >= -1
    requires index + q.size <= result.Length
    requires forall j :: 0 <= j < q.size ==> q.objects[j].Some?
    modifies q, q.objects, result
    ensures fresh(q.objects) && q.size == q.objects.Length == old(q.size) - 1 && q.head >= -1
    ensures q.head + 1 == Advance(old(q.head), out, old(q.size))
    ensures next == index + 1
    ensures result[..next] == old(result[..index]) + [old(q.objects[..])[q.head + 1].value]
    ensures q.objects[..] == old(q.objects[..])[..q.head + 1] + old(q.objects[..])[q.head + 2..]
  {
    var h := (q.head + out) % q.objects.Length;
    q.head := h;
    var tmp := q.objects[h];
    next := index;
    if tmp.Some? {
      result[next] := tmp.value;
      next := next + 1;
    }
    q.objects[h] := None;
    q.size := q.size - 1;
    var arr, sz := q.objects, q.size;
    CloseGap(arr, h, sz);
    q.objects := JavaArrays.CopyOf(arr, sz, None);
    q.head := q.head - 1;
  }

  /** The loop of josephus: empties the ring q, writing each person it
      removes to the next slot of result, so result ends up holding the
      elimination order of the ring. */
  method EliminateAll(q: Queue<int>, out: int, result: array<int>, ghost whole: seq<int>)
    requires out >= 1 && q.objects.Length == q.size == result.Length && q.head >= -1
    requires forall j :: 0 <= j < q.size ==> q.objects[j].Some?
    requires JosephusOrder(Values(q.objects[..]), q.head, out) == whole
    modifies q, q.objects, result
    ensures result[..] == whole
  {
    var index := 0;
    assert result[..index] + JosephusOrder(Values(q.objects[..]), q.head, out) == whole;
    while q.size > 0
      invariant q.objects == old(q.objects) || fresh(q.objects)
      invariant q.objects.Length == q.size && index + q.size == result.Length
      invariant q.head >= -1
      invariant forall j :: 0 <= j < q.size ==> q.objects[j].Some?
      invariant result[..index] + JosephusOrder(Values(q.objects[..]), q.head, out) == whole
      decreases q.size
    {
      ghost var pre, done, h0 := q.objects[..], result[..index], q.head;
      index := RemoveNext(q, out, result, index);
      EliminationStep(pre, h0, out, q.head + 1, done, whole, q.objects[..]);
    }
    assert q.objects[..] == [] && JosephusOrder(Values([]), q.head, out) == [];
    assert result[..] == result[..index];
  }

  /** The Josephus ring: n people numbered 1..n stand in a circle; counting
      starts at person start (person 1 when start <= 0) and every out-th person
      leaves. Answers the leaving order, or null when n or out is not positive. */
  method Josephus(n: int, start: int, out: int) returns (r: Option<seq<int>>)
    requires n < INT_MAX
    ensures r.None? <==> n <= 0 || out <= 0
    ensures r.Some? ==> r.value == JosephusOrder(InitialRing(n), (if start <= 0 then 1 else start) - 1, out)
    ensures r.Some? ==> multiset(r.value) == multiset(Range(n))
  {
    if n <= 0 || out <= 0 {
      return None;
    }
    var first := if start <= 0 then 1 else start;
    var q := Ring(n);
    q.head := first - 1;
    var result := new int[n];
    ghost var whole := JosephusOrder(InitialRing(n), (if start <= 0 then 1 else start) - 1, out);
    EliminateAll(q, out, result, whole);
    JosephusOrderIsPermutation(n, first - 1, out);
    r := Some(result[..]);
  }

  /** The copy step of expand(): a fresh array of length newLen whose slots
      1..n hold the window of n elements of a that starts after slot h. */
  method CopyRing<E>(a: array<Option<E>>, h: int, n: nat, newLen: nat) returns (grown: array<Option<E>>)
    requires 0 <= h && n <= a.Length < newLen
    ensures fresh(grown) && grown.Length == newLen
    ensures grown[1..n + 1] == Window(a[..], h, n)
  {
    grown := JavaArrays.CopyOf(a, newLen, None);
    var i := 1;
    while i <= n
      invariant 1 <= i <= n + 1
      invariant forall k :: 1 <= k < i ==> grown[k] == Window(a[..], h, n)[k - 1]
    {
      grown[i] := a[(h + i) % a.Length];
      i := i + 1;
    }
  }

  /** The capacity constructor, including its rejection of a negative capacity. */
  method NewQueue<E>(capacity: int) returns (r: Result<Queue<E>, QueueError>)
    requires capacity < INT_MAX
    ensures r.Failure? <==> capacity < 0
    ensures r.Failure? ==> r.error == IllegalCapacity
    ensures r.Success? ==> fresh(r.value) && r.value.Valid() && r.value.Contents() == []
                           && r.value.objects.Length == capacity
  {
    if capacity < 0 {
      return Failure(IllegalCapacity);
    }
    var q := new Queue<E>.WithCapacity(capacity);
    return Success(q);
  }
}
