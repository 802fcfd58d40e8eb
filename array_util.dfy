/** ArrayUtil: exercises that work in place on an `int[]`. */
module ArrayUtil {
  import opened Wrappers
  import opened Sequences

  /** The exceptions of overturn and calcTimes: reading the length of a null
      array, and calcTimes deleting the last comma of an empty report (no
      number is appended, so it reads position -1). */
  datatype ArrayError = NullPointer | EmptyArray

  /** overturn: swaps arr[i] with arr[n-1-i] for every i below n/2, which
      leaves the array reversed; a null array throws when its length is read. */
  method Overturn(arr: array?<int>) returns (r: Result<(), ArrayError>)
    modifies arr
    ensures r.Failure? <==> arr == null
    ensures r.Failure? ==> r.error == NullPointer
    ensures arr != null ==> arr[..] == Reversed(old(arr[..]))
  {
    if arr == null {
      return Failure(NullPointer);
    }
    var n := arr.Length;
    ghost var s := arr[..];
    for i := 0 to n / 2
      invariant forall k :: 0 <= k < i ==> arr[k] == s[n - 1 - k] && arr[n - 1 - k] == s[k]
      invariant forall k :: i <= k < n - i ==> arr[k] == s[k]
    {
      var tmp := arr[i];
      arr[i] := arr[n - i - 1];
      arr[n - i - 1] := tmp;
    }
    ReversedIndex(s);
    forall k | 0 <= k < n
      ensures arr[k] == Reversed(s)[k]
    {
      if k >= n - n / 2 {
        assert arr[n - 1 - (n - 1 - k)] == s[n - 1 - k];
      }
    }
    r := Success(());
  }

  /** Overturning twice gives the original contents back. */
  method OverturnTwice(arr: array<int>)
    modifies arr
    ensures arr[..] == old(arr[..])
  {
    var _ := Overturn(arr);
    var _ := Overturn(arr);
    ReversedInvolution(old(arr[..]));
  }

  // ---------------------------------------------------------------- score

  /** Why score stops without touching the array: a null array or fewer than
      five scores, two equal scores, or a score outside 0..100. */
  datatype ScoreError = TooFew | Repeated | OutOfRange

  ghost predicate Distinct(s: seq<int>)
  {
    forall i, j :: 0 <= i < j < |s| ==> s[i] != s[j]
  }

  ghost predicate InRange(s: seq<int>)
  {
    forall i :: 0 <= i < |s| ==> 0 <= s[i] <= 100
  }

  /** The first of score's three checks that s fails, in the order score
      makes them, or None when s is a valid set of scores. */
  ghost function ScoreCheck(s: seq<int>): Option<ScoreError>
  {
    if |s| < 5 then Some(TooFew)
    else if !Distinct(s) then Some(Repeated)
    else if !InRange(s) then Some(OutOfRange)
    else None
  }

  /** The extremes score prints: the highest and lowest score and where they were. */
  datatype Extremes = Extremes(maxIndex: nat, maxVal: int, minIndex: nat, minVal: int)

  /** s with every occurrence of a and of b removed, order kept. */
  function Without(s: seq<int>, a: int, b: int): seq<int>
  {
    if s == [] then []
    else (if s[0] == a || s[0] == b then [] else [s[0]]) + Without(s[1..], a, b)
  }

  /** score, up to the float average: on a valid array the unique highest and
      lowest scores are found and removed, the remaining scores keep their
      order at the front and the last two cells become 0. Every check comes
      before the first write, so a rejected array is left as it was. */
  method Score(arr: array?<int>) returns (r: Result<Extremes, ScoreError>)
    modifies arr
    ensures arr == null ==> r == Failure(TooFew)
    ensures arr != null && ScoreCheck(old(arr[..])).Some? ==>
              r == Failure(ScoreCheck(old(arr[..])).value) && arr[..] == old(arr[..])
    ensures arr != null && ScoreCheck(old(arr[..])).None? ==> r.Success?
    ensures r.Success? ==> arr != null && arr.Length >= 5
    ensures r.Success? && arr != null && arr.Length >= 5 ==>
              var s, e, n := old(arr[..]), r.value, arr.Length;
              && e.maxIndex < n && s[e.maxIndex] == e.maxVal
              && (forall k :: 0 <= k < n && k != e.maxIndex ==> s[k] < e.maxVal)
              && e.minIndex < n && s[e.minIndex] == e.minVal
              && (forall k :: 0 <= k < n && k != e.minIndex ==> s[k] > e.minVal)
              && arr[..n - 2] == Without(s, e.maxVal, e.minVal)
              && arr[n - 2] == 0 && arr[n - 1] == 0
  {
    if arr == null || arr.Length < 5 {
      return Failure(TooFew);
    }
    var n := arr.Length;
    ghost var s := arr[..];
    var repeated := HasRepeat(arr);
    if repeated {
      return Failure(Repeated);
    }
    var ok, e := ScanExtremes(arr);
    if !ok {
      return Failure(OutOfRange);
    }
    forall k | 0 <= k < n && k != e.maxIndex
      ensures s[k] < e.maxVal && (k != e.minIndex ==> s[k] > e.minVal)
    {
      if k < e.maxIndex { assert s[k] != s[e.maxIndex]; } else { assert s[e.maxIndex] != s[k]; }
      if k < e.minIndex { assert s[k] != s[e.minIndex]; } else if k > e.minIndex { assert s[e.minIndex] != s[k]; }
    }
    assert e.maxIndex != e.minIndex by {
      var k := if e.maxIndex == 0 then 1 else 0;
      assert s[k] < e.maxVal;
    }
    var before, after := e.maxIndex, e.minIndex;
    if e.maxIndex < e.minIndex {
      before, after := e.minIndex, e.maxIndex;
    }
    RemoveTwo(arr, after, before);
    DropTwoIsWithout(s, after, before, e.maxVal, e.minVal);
    r := Success(e);
  }

  /** The duplicate check of score: two nested loops that stop at the first
      equal pair. */
  method HasRepeat(arr: array<int>) returns (found: bool)
    ensures found <==> !Distinct(arr[..])
  {
    var n := arr.Length;
    for i := 0 to n
      invariant forall a, b :: 0 <= a < i && a < b < n ==> arr[a] != arr[b]
    {
      for j := i + 1 to n
        invariant forall b :: i < b < j ==> arr[i] != arr[b]
      {
        if arr[i] == arr[j] {
          return true;
        }
      }
    }
    return false;
  }

  /** The scan of score: stops at the first score outside 0..100, and
      otherwise finds the first highest and the first lowest score. */
  method ScanExtremes(arr: array<int>) returns (ok: bool, e: Extremes)
    requires arr.Length > 0
    ensures ok <==> InRange(arr[..])
    ensures ok ==> e.maxIndex < arr.Length && arr[e.maxIndex] == e.maxVal &&
                   forall k :: 0 <= k < arr.Length ==> arr[k] <= e.maxVal
    ensures ok ==> e.minIndex < arr.Length && arr[e.minIndex] == e.minVal &&
                   forall k :: 0 <= k < arr.Length ==> arr[k] >= e.minVal
  {
    var n := arr.Length;
    var maxIndex, minIndex, maxVal, minVal := 0, 0, 0, 0;
    for i := 0 to n
      invariant forall k :: 0 <= k < i ==> 0 <= arr[k] <= 100
      invariant maxIndex < n && minIndex < n && (i == 0 ==> maxIndex == 0 && minIndex == 0)
      invariant i > 0 ==> maxIndex < i && arr[maxIndex] == maxVal && forall k :: 0 <= k < i ==> arr[k] <= maxVal
      invariant i > 0 ==> minIndex < i && arr[minIndex] == minVal && forall k :: 0 <= k < i ==> arr[k] >= minVal
    {
      if i == 0 {
        maxVal, minVal := arr[i], arr[i];
      }
      if arr[i] < 0 || arr[i] > 100 {
        return false, Extremes(0, 0, 0, 0);
      }
      if arr[i] > maxVal {
        maxIndex, maxVal := i, arr[i];
      }
      if arr[i] < minVal {
        minIndex, minVal := i, arr[i];
      }
    }
    return true, Extremes(maxIndex, maxVal, minIndex, minVal);
  }

  /** s without the elements at positions lo and hi. */
  function DropTwo(s: seq<int>, lo: nat, hi: nat): (d: seq<int>)
    requires lo < hi < |s|
  {
    s[..lo] + s[lo + 1..hi] + s[hi + 1..]
  }

  lemma DropTwoIndex(s: seq<int>, lo: nat, hi: nat, m: nat)
    requires lo < hi < |s| && m < |s| - 2
    ensures |DropTwo(s, lo, hi)| == |s| - 2
    ensures DropTwo(s, lo, hi)[m] == s[if m < lo then m else if m < hi - 1 then m + 1 else m + 2]
  {
  }

  /** The deletions of score: the cell at hi is removed first, then the cell
      at lo, each by shifting the cells after it one place left, and the last
      two cells are set to 0. */
  method RemoveTwo(arr: array<int>, lo: nat, hi: nat)
    requires lo < hi < arr.Length
    modifies arr
    ensures arr[..arr.Length - 2] == DropTwo(old(arr[..]), lo, hi)
    ensures arr[arr.Length - 2] == 0 && arr[arr.Length - 1] == 0
  {
    var n := arr.Length;
    ghost var s := arr[..];
    ShiftLeft(arr, hi);
    ghost var t := arr[..];
    ShiftLeft(arr, lo);
    arr[n - 2] := 0;
    arr[n - 1] := 0;
    forall m | 0 <= m < n - 2
      ensures arr[m] == DropTwo(s, lo, hi)[m]
    {
      DropTwoIndex(s, lo, hi, m);
    }
  }

  /** One deletion loop of score: from position k on, every cell takes the
      value of its right neighbour; the last cell keeps its value. */
  method ShiftLeft(arr: array<int>, k: nat)
    requires k < arr.Length
    modifies arr
    ensures forall m :: 0 <= m < arr.Length - 1 ==> arr[m] == old(arr[..])[if m < k then m else m + 1]
    ensures arr[arr.Length - 1] == old(arr[..])[arr.Length - 1]
  {
    ghost var s := arr[..];
    for i := k to arr.Length - 1
      invariant forall m :: k <= m < i ==> arr[m] == s[m + 1]
      invariant forall m :: 0 <= m < k || i <= m < arr.Length ==> arr[m] == s[m]
    {
      arr[i] := arr[i + 1];
    }
  }

  lemma {:induction false} WithoutNone(s: seq<int>, a: int, b: int)
    requires forall k :: 0 <= k < |s| ==> s[k] != a && s[k] != b
    ensures Without(s, a, b) == s
  {
    if s != [] {
      WithoutNone(s[1..], a, b);
    }
  }

  /** Removing the one position holding a or b is removing the values a and b. */
  lemma {:induction false} DropOneIsWithout(s: seq<int>, h: nat, a: int, b: int)
    requires h < |s| && (s[h] == a || s[h] == b)
    requires forall k :: 0 <= k < |s| && k != h ==> s[k] != a && s[k] != b
    ensures s[..h] + s[h + 1..] == Without(s, a, b)
  {
    if h == 0 {
      WithoutNone(s[1..], a, b);
    } else {
      DropOneIsWithout(s[1..], h - 1, a, b);
      assert s[..h] == [s[0]] + s[1..][..h - 1] && s[h + 1..] == s[1..][h..];
    }
  }

  /** Removing the two positions holding the extremes is removing the two
      extreme values, when no other position holds either of them. */
  lemma {:induction false} DropTwoIsWithout(s: seq<int>, lo: nat, hi: nat, a: int, b: int)
    requires lo < hi < |s|
    requires (s[lo] == a && s[hi] == b) || (s[lo] == b && s[hi] == a)
    requires forall k :: 0 <= k < |s| && k != lo && k != hi ==> s[k] != a && s[k] != b
    ensures DropTwo(s, lo, hi) == Without(s, a, b)
  {
    if lo == 0 {
      DropOneIsWithout(s[1..], hi - 1, a, b);
      assert DropTwo(s, lo, hi) == s[1..][..hi - 1] + s[1..][hi..];
    } else {
      DropTwoIsWithout(s[1..], lo - 1, hi - 1, a, b);
      assert DropTwo(s, lo, hi) == [s[0]] + DropTwo(s[1..], lo - 1, hi - 1);
    }
  }

  // ------------------------------------------------------------ calcTimes

  ghost predicate NoDuplicates(s: seq<int>)
  {
    forall i, j :: 0 <= i < j < |s| ==> s[i] != s[j]
  }

  /** calcTimes: counts every number in a map, takes the largest count, and
      reports each number with that count once. The map is visited in the
      order its keys were first inserted; the contract does not depend on
      that order, which a HashMap leaves unspecified. A null array throws
      when its length is read; an empty one when the last comma is deleted. */
  method CalcTimes(arr: array?<int>) returns (r: Result<(seq<int>, nat), ArrayError>)
    ensures r.Failure? <==> arr == null || arr.Length == 0
    ensures r.Failure? ==> r.error == if arr == null then NullPointer else EmptyArray
    ensures r.Success? ==> arr != null
    ensures r.Success? ==>
              var (reported, timesMax) := r.value;
              && reported != [] && NoDuplicates(reported)
              && (forall v :: v in arr[..] ==> multiset(arr[..])[v] <= timesMax)
              && (forall v :: v in reported <==> v in arr[..] && multiset(arr[..])[v] == timesMax)
  {
    if arr == null {
      return Failure(NullPointer);
    }
    var counts, keys := CountAll(arr);
    var timesMax := MaxCount(counts, keys);
    var reported := KeysWithCount(counts, keys, timesMax);
    assert arr.Length > 0 ==> reported != [] by {
      if arr.Length > 0 {
        assert arr[..][0] == arr[0] && arr[0] in counts && arr[0] in keys;
        var u :| 0 <= u < |keys| && counts[keys[u]] == timesMax;
        assert keys[u] in reported;
      }
    }
    if |reported| == 0 {
      return Failure(EmptyArray);
    }
    r := Success((reported, timesMax));
  }

  /** The counting loop of calcTimes: each number of arr maps to its number
      of occurrences; `keys` lists the map's keys once each, in the order
      they were inserted. */
  method CountAll(arr: array<int>) returns (counts: map<int, nat>, keys: seq<int>)
    ensures forall v :: v in counts <==> v in arr[..]
    ensures forall v :: v in counts ==> counts[v] == multiset(arr[..])[v]
    ensures forall u :: 0 <= u < |keys| ==> keys[u] in counts
    ensures forall v :: v in counts ==> v in keys
    ensures NoDuplicates(keys) && |keys| <= arr.Length
  {
    counts, keys := map[], [];
    for i := 0 to arr.Length
      invariant forall v :: v in counts <==> v in arr[..i]
      invariant forall v :: v in counts ==> counts[v] == multiset(arr[..i])[v]
      invariant forall u :: 0 <= u < |keys| ==> keys[u] in counts
      invariant forall v :: v in counts ==> v in keys
      invariant NoDuplicates(keys) && |keys| <= i
    {
      assert arr[..i + 1] == arr[..i] + [arr[i]];
      if arr[i] in counts {
        counts := counts[arr[i] := counts[arr[i]] + 1];
      } else {
        counts := counts[arr[i] := 1];
        keys := keys + [arr[i]];
      }
    }
    assert arr[..arr.Length] == arr[..];
  }

  /** The loop of calcTimes over the map's values: the largest count, 0 for
      an empty map. */
  method MaxCount(counts: map<int, nat>, keys: seq<int>) returns (timesMax: nat)
    requires forall u :: 0 <= u < |keys| ==> keys[u] in counts
    requires forall v :: v in counts ==> v in keys
    ensures forall v :: v in counts ==> counts[v] <= timesMax
    ensures keys != [] ==> exists u :: 0 <= u < |keys| && counts[keys[u]] == timesMax
  {
    timesMax := 0;
    ghost var at := 0;
    for t := 0 to |keys|
      invariant forall u :: 0 <= u < t ==> counts[keys[u]] <= timesMax
      invariant t == 0 ==> timesMax == 0
      invariant t > 0 ==> at < t && counts[keys[at]] == timesMax
    {
      if counts[keys[t]] >= timesMax {
        timesMax := counts[keys[t]];
        at := t;
      }
    }
    forall v | v in counts
      ensures counts[v] <= timesMax
    {
      var u :| 0 <= u < |keys| && keys[u] == v;
    }
  }

  /** The loop of calcTimes over the map's entries: the keys whose count is
      c, in visiting order. */
  method KeysWithCount(counts: map<int, nat>, keys: seq<int>, c: nat) returns (found: seq<int>)
    requires forall u :: 0 <= u < |keys| ==> keys[u] in counts
    requires forall v :: v in counts ==> v in keys
    requires NoDuplicates(keys)
    ensures forall v :: v in found <==> v in counts && counts[v] == c
    ensures NoDuplicates(found) && |found| <= |keys|
  {
    found := [];
    for t := 0 to |keys|
      invariant forall v :: v in found <==> v in keys[..t] && v in counts && counts[v] == c
      invariant NoDuplicates(found) && |found| <= t
    {
      assert keys[..t + 1] == keys[..t] + [keys[t]];
      assert keys[t] !in keys[..t];
      if counts[keys[t]] == c {
        found := found + [keys[t]];
      }
    }
    assert keys[..|keys|] == keys;
  }

  // ------------------------------------------------------------ removeDup

  /** The number of positions i with s[i] == s[i+1]. */
  function AdjacentEqual(s: seq<int>): nat
  {
    if |s| < 2 then 0
    else AdjacentEqual(s[..|s| - 1]) + if s[|s| - 2] == s[|s| - 1] then 1 else 0
  }

  /** s with every run of equal neighbours collapsed to one element: what
      removing the duplicates of a sorted array should leave. */
  function Squeezed(s: seq<int>): seq<int>
  {
    if |s| < 2 then s
    else if s[|s| - 2] == s[|s| - 1] then Squeezed(s[..|s| - 1])
    else Squeezed(s[..|s| - 1]) + [s[|s| - 1]]
  }

  /** Collapsing removes exactly one element per equal neighbour pair, and
      keeps the last element. */
  lemma {:induction false} SqueezedLength(s: seq<int>)
    ensures |Squeezed(s)| + AdjacentEqual(s) == |s|
    ensures s != [] ==> Squeezed(s) != [] && Squeezed(s)[|Squeezed(s)| - 1] == s[|s| - 1]
  {
    if |s| >= 2 {
      var t := s[..|s| - 1];
      SqueezedLength(t);
    }
  }

  /** Collapsing keeps exactly the values of s. */
  lemma {:induction false} SqueezedElements(s: seq<int>, x: int)
    ensures x in Squeezed(s) <==> x in s
  {
    if |s| >= 2 {
      var t := s[..|s| - 1];
      SqueezedElements(t, x);
      SqueezedLength(t);
      assert s == t + [s[|s| - 1]];
    }
  }

  ghost predicate Ascending(s: seq<int>)
  {
    forall i, j :: 0 <= i < j < |s| ==> s[i] <= s[j]
  }

  ghost predicate StrictlyAscending(s: seq<int>)
  {
    forall i, j :: 0 <= i < j < |s| ==> s[i] < s[j]
  }

  /** On a sorted array, collapsing leaves every value exactly once, in order. */
  lemma {:induction false} SqueezedStrictly(s: seq<int>)
    requires Ascending(s)
    ensures StrictlyAscending(Squeezed(s))
  {
    if |s| >= 2 {
      var t := s[..|s| - 1];
      assert Ascending(t);
      SqueezedStrictly(t);
      SqueezedLength(t);
      var u := Squeezed(t);
      if s[|s| - 2] != s[|s| - 1] {
        var v := u + [s[|s| - 1]];
        forall i, j | 0 <= i < j < |v| ensures v[i] < v[j] {
          if j == |u| && i < |u| - 1 {
            assert u[i] < u[|u| - 1];
          }
        }
      }
    }
  }

  /** removeDup as written: it counts the equal neighbour pairs correctly,
      but the cells it overwrites follow `SweptCell`, which does not compact
      the distinct values to the front (see AsWrittenKeepsDuplicate). Every
      step compares cells it has not yet written, and the last cell is never
      written. */
  method RemoveDupAsWritten(arr: array?<int>) returns (r: Option<nat>)
    modifies arr
    ensures r.Some? <==> arr != null && arr.Length > 0
    ensures r.Some? ==> r.value == AdjacentEqual(old(arr[..]))
    ensures r.Some? ==> arr[arr.Length - 1] == old(arr[arr.Length - 1])
    ensures r.Some? ==> forall m :: 0 <= m < arr.Length - 1 ==> arr[m] == SweptCell(old(arr[..]), m)
  {
    if arr == null || arr.Length == 0 {
      return None;
    }
    var n := arr.Length;
    ghost var s := arr[..];
    var count := 0;
    var tmp := 0;
    for i := 0 to n - 1
      invariant count == AdjacentEqual(s[..i + 1])
      invariant forall m :: 0 <= m < i ==> arr[m] == SweptCell(s, m)
      invariant forall m :: i <= m < n ==> arr[m] == s[m]
      invariant i > 0 ==> tmp == SweptCell(s, i - 1)
    {
      assert s[..i + 2][..i + 1] == s[..i + 1];
      if arr[i] == arr[i + 1] {
        arr[i] := arr[i + 1];
        count := count + 1;
      } else {
        if i > 0 && tmp == arr[i] {
          arr[i] := arr[i + 1];
        }
      }
      tmp := arr[i];
    }
    assert s[..n] == s;
    r := Some(count);
  }

  /** The value removeDup as written leaves in cell i (i < |s| - 1): the
      right neighbour when the two are equal, or when the cell equals the
      value just left in cell i - 1; otherwise the cell's own value. */
  function SweptCell(s: seq<int>, i: nat): int
    requires i + 1 < |s|
  {
    if s[i] == s[i + 1] then s[i + 1]
    else if i > 0 && SweptCell(s, i - 1) == s[i] then s[i + 1]
    else s[i]
  }

  /** Counterexample: for [1, 1, 1, 2] removeDup as written reports 2 removed
      elements, but the first 4 - 2 cells it leaves are [1, 1], not [1, 2]. */
  lemma AsWrittenKeepsDuplicate()
    ensures AdjacentEqual([1, 1, 1, 2]) == 2
    ensures [SweptCell([1, 1, 1, 2], 0), SweptCell([1, 1, 1, 2], 1)] == [1, 1]
    ensures Squeezed([1, 1, 1, 2]) == [1, 2]
  {
    var s := [1, 1, 1, 2];
    assert s[..3] == [1, 1, 1] && s[..3][..2] == [1, 1];
    assert AdjacentEqual([1, 1]) == 1 by {
      assert [1, 1][..1] == [1];
    }
    assert AdjacentEqual([1, 1, 1]) == 2;
    assert Squeezed([1, 1]) == [1] by {
      assert [1, 1][..1] == [1];
    }
    assert Squeezed([1, 1, 1]) == [1];
  }

  /** removeDup with the evidently intended effect: the same count, and the
      first n - count cells hold s with its runs collapsed (on a sorted array,
      each value once; see SqueezedStrictly). A write index trails the read
      index, so the space stays O(1). */
  method RemoveDup(arr: array?<int>) returns (r: Option<nat>)
    modifies arr
    ensures r.Some? <==> arr != null && arr.Length > 0
    ensures r.Some? ==> r.value == AdjacentEqual(old(arr[..])) && r.value < arr.Length
    ensures r.Some? ==> arr[..arr.Length - r.value] == Squeezed(old(arr[..]))
  {
    if arr == null || arr.Length == 0 {
      return None;
    }
    var n := arr.Length;
    ghost var s := arr[..];
    var count, k := 0, 1;
    assert s[..1] == [s[0]];
    for i := 1 to n
      invariant k + count == i && 1 <= k
      invariant arr[..k] == Squeezed(s[..i]) && count == AdjacentEqual(s[..i])
      invariant arr[k - 1] == s[i - 1]
      invariant forall m :: i <= m < n ==> arr[m] == s[m]
    {
      assert s[..i + 1][..i] == s[..i];
      if arr[i] == arr[k - 1] {
        count := count + 1;
      } else {
        arr[k] := arr[i];
        k := k + 1;
      }
      SqueezedLength(s[..i + 1]);
    }
    assert s[..n] == s;
    SqueezedLength(s);
    r := Some(count);
  }
}
