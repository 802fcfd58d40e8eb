/** Recursion: the towers of Hanoi over three ArrayDeque stacks, and the
    recursive Fibonacci numbers. */
module Recursion {
  import opened Wrappers
  import opened ModArith

  /** An ArrayDeque used as a stack of disk sizes; `disks` lists them top first.
      The ghost counters record how many pushes the peg received and how many
      of them put a disk on one that is not larger. */
  class Peg {
    var disks: seq<int>
    ghost var pushes: nat
    ghost var misplaced: nat

    constructor ()
      ensures disks == [] && pushes == 0 && misplaced == 0
    {
      disks := [];
      pushes, misplaced := 0, 0;
    }

    method Push(d: int)
      modifies this
      ensures disks == [d] + old(disks) && pushes == old(pushes) + 1
      ensures misplaced == old(misplaced) + if old(disks) != [] && d >= old(disks)[0] then 1 else 0
    {
      if disks != [] && d >= disks[0] {
        misplaced := misplaced + 1;
      }
      disks := [d] + disks;
      pushes := pushes + 1;
    }

    /** ArrayDeque.pop; the empty case throws and is never reached here. */
    method Pop() returns (d: int)
      requires disks != []
      modifies this
      ensures d == old(disks)[0] && disks == old(disks)[1..]
      ensures pushes == old(pushes) && misplaced == old(misplaced)
    {
      d := disks[0];
      disks := disks[1..];
    }

    method Clear()
      modifies this
      ensures disks == [] && pushes == old(pushes) && misplaced == old(misplaced)
    {
      disks := [];
    }
  }

  /** Sizes strictly increase from top to bottom: no disk lies on a smaller one. */
  ghost predicate Increasing(s: seq<int>)
  {
    forall i, j :: 0 <= i < j < |s| ==> s[i] < s[j]
  }

  /** Every disk of s is smaller than the top of t, when t has one. */
  ghost predicate Below(s: seq<int>, t: seq<int>)
  {
    t != [] ==> forall i :: 0 <= i < |s| ==> s[i] < t[0]
  }

  function Pow2(n: nat): (p: nat)
    ensures p >= 1
  {
    if n == 0 then 1 else 2 * Pow2(n - 1)
  }

  /** The puzzle's legal starting position for moving the top n disks of x:
      all three pegs are ordered and those disks are smaller than the tops of
      the other two. */
  ghost predicate Legal(n: nat, x: seq<int>, y: seq<int>, z: seq<int>)
    requires n <= |x|
  {
    Increasing(x) && Increasing(y) && Increasing(z) && Below(x[..n], y) && Below(x[..n], z)
  }

  /** move: the top n disks of x end on top of z in the same order, y and the
      rest of x are as before, 2^n - 1 pushes happen, and from a legal position
      none of them puts a disk on a smaller one. */
  method Move(n: nat, x: Peg, y: Peg, z: Peg)
    requires x != y && y != z && x != z
    requires 1 <= n <= |x.disks|
    modifies x, y, z
    ensures x.disks == old(x.disks)[n..] && y.disks == old(y.disks)
    ensures z.disks == old(x.disks)[..n] + old(z.disks)
    ensures x.pushes + y.pushes + z.pushes == old(x.pushes + y.pushes + z.pushes) + Pow2(n) - 1
    ensures x.misplaced >= old(x.misplaced) && y.misplaced >= old(y.misplaced) && z.misplaced >= old(z.misplaced)
    ensures Legal(n, old(x.disks), old(y.disks), old(z.disks)) ==>
              x.misplaced + y.misplaced + z.misplaced == old(x.misplaced + y.misplaced + z.misplaced)
    decreases n
  {
    ghost var x0, y0, z0 := x.disks, y.disks, z.disks;
    if n == 1 {
      var d := x.Pop();
      z.Push(d);
      assert x0[..1] == [d];
      return;
    }
    Move(n - 1, x, z, y);
    var d := x.Pop();
    z.Push(d);
    assert x0[..n - 1] + [d] == x0[..n] && x.disks == x0[n..];
    ghost var y1 := y.disks;
    assert y1[..n - 1] == x0[..n - 1] && y1[n - 1..] == y0;
    ghost var legal := Legal(n, x0, y0, z0);
    if legal {
      LegalAfterSplit(n, x0, y0, z0);
    }
    Move(n - 1, y, x, z);
    assert x0[..n - 1] + ([d] + z0) == x0[..n] + z0;
  }

  /** From a legal position, the state before the second recursive move is
      legal for moving the n-1 disks now on y over onto z (with [d] on z). */
  lemma LegalAfterSplit(n: nat, x0: seq<int>, y0: seq<int>, z0: seq<int>)
    requires 2 <= n <= |x0| && Legal(n, x0, y0, z0)
    ensures Legal(n - 1, x0[..n - 1] + y0, x0[n..], [x0[n - 1]] + z0)
    ensures Legal(n - 1, x0, z0, y0)
  {
    var y1 := x0[..n - 1] + y0;
    assert y1[..n - 1] == x0[..n - 1];
    forall i, j | 0 <= i < j < |y1| ensures y1[i] < y1[j] {
      if j >= n - 1 && i < n - 1 {
        assert y1[i] == x0[i] && y1[j] == y0[j - (n - 1)];
        if j - (n - 1) > 0 {
          assert y0[0] < y0[j - (n - 1)];
        }
      }
    }
  }

  /** The exceptions HanoiTower throws when x and z are the same deque:
      ArrayDeque.pop on the emptied deque, and the unbounded descent of move
      once it is asked to move zero disks. */
  datatype HanoiError = NoSuchElement | StackOverflow

  /** HanoiTower: null for a null or empty x; otherwise z (a fresh stack when
      none is given, otherwise the given one emptied first) ends holding x's
      disks in x's top-to-bottom order, and x ends empty. An ordered x is moved
      without ever putting a disk on a smaller one. When z is x itself, the
      clearing empties x: one disk then fails in pop, and more disks make move
      start from a disk count of 0, which its n == 1 test never stops. */
  method HanoiTower(x: Peg?, z: Peg?) returns (r: Result<Peg?, HanoiError>)
    modifies if x == null then {} else {x}, if z == null then {} else {z}
    ensures r.Failure? <==> x != null && old(x.disks) != [] && x == z
    ensures r.Failure? ==> x.disks == []
    ensures r.Failure? ==> r.error == if |old(x.disks)| == 1 then NoSuchElement else StackOverflow
    ensures r.Success? ==> (r.value == null <==> x == null || old(x.disks) == [])
    ensures r.Success? && r.value != null ==> x != null && x.disks == [] && r.value.disks == old(x.disks)
    ensures r.Success? && r.value != null && z != null ==> r.value == z
    ensures r.Success? && r.value != null && z == null ==> fresh(r.value)
    ensures r.Success? && r.value != null && Increasing(old(x.disks)) ==>
              x.misplaced == old(x.misplaced) && r.value.misplaced == (if z == null then 0 else old(z.misplaced))
  {
    if x == null || x.disks == [] {
      return Success(null);
    }
    var n := |x.disks|;
    var target := z;
    if target == null {
      target := new Peg();
    } else {
      target.Clear();
    }
    if n == 1 {
      if x.disks == [] {
        return Failure(NoSuchElement);
      }
      var d := x.Pop();
      target.Push(d);
      return Success(target);
    }
    var y := new Peg();
    if |x.disks| == 0 {
      return Failure(StackOverflow);
    }
    Move(|x.disks|, x, y, target);
    assert old(x.disks)[..n] == old(x.disks);
    return Success(target);
  }

  /** sumResult in unbounded integers: the Fibonacci numbers. */
  function Fib(n: nat): nat
  {
    if n == 0 then 0 else if n == 1 then 1 else Fib(n - 2) + Fib(n - 1)
  }

  /** sumResult as Java computes it, every addition wrapping to 32 bits. */
  function SumResult(n: nat): (r: int)
    ensures INT_MIN <= r <= INT_MAX
  {
    if n == 0 then 0 else if n == 1 then 1 else Wrap(SumResult(n - 2) + SumResult(n - 1))
  }

  /** The wrapped recursion yields the true Fibonacci number wrapped once to
      32 bits, so it is exact as long as that number fits an `int`. */
  lemma SumResultIsFib(n: nat)
    ensures SumResult(n) == Wrap(Fib(n))
    ensures Fib(n) <= INT_MAX ==> SumResult(n) == Fib(n)
  {
    SumResultWrapsFib(n);
  }

  lemma {:induction false} SumResultWrapsFib(n: nat)
    ensures SumResult(n) == Wrap(Fib(n))
  {
    if n >= 2 {
      SumResultWrapsFib(n - 2);
      SumResultWrapsFib(n - 1);
      WrapCongruent(SumResult(n - 2), SumResult(n - 1), Fib(n - 2), Fib(n - 1));
    }
  }

  lemma WrapCongruent(a: int, b: int, x: int, y: int)
    requires a == Wrap(x) && b == Wrap(y)
    ensures Wrap(a + b) == Wrap(x + y)
  {
    WrapAdd(x, y);
  }

  datatype FibError = IllegalArgument

  /** fibonacci: rejects nx < 3, otherwise the nx-th Fibonacci number in
      32-bit arithmetic. */
  function Fibonacci(nx: int): (r: Result<int, FibError>)
    ensures r.Failure? <==> nx < 3
    ensures r.Success? ==> r.value == Wrap(Fib(nx))
  {
    if nx < 3 then Failure(IllegalArgument)
    else
      SumResultIsFib(nx);
      Success(SumResult(nx))
  }
}
