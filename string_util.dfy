/** The character buffer of StringUtil: a growable char array whose first
    `size` slots hold the text. */
module StringUtil {
  import opened Wrappers
  import opened CommonSubstring
  import opened Replacement
  import opened Sequences
  import JavaArrays

  /** Length `expand` gives an array that must hold at least 10 characters. */
  const DEFAULT_SIZE: nat := 10

  /** The exceptions the buffer's operations throw: the capacity
      constructor's IllegalArgumentException, and the NullPointerException
      of an operation that reads the array findMaxCommon left null. */
  datatype StringError = IllegalCapacity | NullPointer

  /** The length `expand(newLen)` allocates: the default size for a short
      text, otherwise half as much again as asked for. */
  function ExpandedLength(newLen: int): (n: nat)
    ensures newLen <= n && DEFAULT_SIZE <= n
    ensures newLen > DEFAULT_SIZE ==> n < 2 * newLen
  {
    if newLen <= DEFAULT_SIZE then DEFAULT_SIZE else newLen * 3 / 2
  }

  function Min(x: nat, y: nat): nat
  {
    if x <= y then x else y
  }

  /** Java `char[]` arguments are passed by value; `None` is `null`. */
  class CharBuffer {
    /** Null only after a findMaxCommon that found no shared character. */
    var chars: array?<char>
    var size: nat

    ghost predicate Valid()
      reads this
    {
      chars != null ==> size <= chars.Length
    }

    /** The text: the first `size` characters. */
    ghost function Contents(): (s: seq<char>)
      reads this, chars
      requires Valid() && chars != null
      ensures |s| == size
    {
      chars[..size]
    }

    /** The no-argument constructor: an empty text on an empty array. */
    constructor ()
      ensures Valid() && chars != null && chars.Length == 0 && size == 0
    {
      chars := new char[0];
      size := 0;
    }

    /** The capacity constructor for a capacity it accepts; `NewCharBuffer`
        adds the rejection of a negative capacity. */
    constructor WithCapacity(capacity: nat)
      ensures Valid() && chars != null && fresh(chars) && chars.Length == capacity && size == 0
    {
      chars := new char[capacity](_ => '\0');
      size := 0;
    }

    /** The constructor from a char array: an empty buffer that appends it. */
    constructor FromChars(a: Option<seq<char>>)
      ensures Valid() && chars != null
      ensures Contents() == if a.Some? then a.value else []
    {
      chars := new char[0];
      size := 0;
      new;
      var _ := AddLast(a);
    }

    /** Replaces the array by a copy of length ExpandedLength(newLen) that
        keeps the text. */
    method Expand(newLen: int)
      requires Valid() && chars != null && size <= newLen
      modifies this
      ensures Valid() && chars != null && fresh(chars) && size == old(size)
      ensures chars.Length == ExpandedLength(newLen)
      ensures Contents() == old(Contents())
    {
      var n := if newLen <= DEFAULT_SIZE then DEFAULT_SIZE else newLen * 3 / 2;
      var oldChars := chars;
      chars := JavaArrays.CopyOf(chars, n, '\0');
      assert chars[..size] == oldChars[..size] by {
        if n <= oldChars.Length {
          assert chars[..] == oldChars[..n];
        } else {
          assert chars[..oldChars.Length] == oldChars[..];
        }
      }
    }

    /** Appends a; a null or empty a changes nothing. Otherwise the array is
        trimmed to the new text, or, when the array is null, the length check
        throws NullPointerException and nothing changes. */
    method AddLast(a: Option<seq<char>>) returns (r: Result<(), StringError>)
      requires Valid()
      modifies this, chars
      ensures Valid()
      ensures r.Failure? <==> old(chars) == null && a.Some? && a.value != []
      ensures r.Failure? ==> r.error == NullPointer
      ensures r.Failure? || a.None? || a.value == [] ==>
                chars == old(chars) && size == old(size) && (chars != null ==> chars[..] == old(chars[..]))
      ensures old(chars) != null && a.Some? && a.value != [] ==>
                chars != null && fresh(chars) && chars.Length == size && Contents() == old(Contents()) + a.value
    {
      if a.None? || |a.value| == 0 {
        return Success(());
      }
      if chars == null {
        return Failure(NullPointer);
      }
      ghost var s := Contents();
      var newLen := |a.value| + size;
      if newLen > chars.Length {
        Expand(newLen);
      }
      WriteAt(chars, size, a.value, 0, |a.value|);
      assert chars[..newLen] == s + a.value;
      size := newLen;
      chars := JavaArrays.CopyOf(chars, size, '\0');
      r := Success(());
    }

    /** Inserts a before position index; an index outside [0, size) or a
        null or empty a changes nothing, so nothing is ever appended. Past
        those checks a null array throws NullPointerException. */
    method Add(index: int, a: Option<seq<char>>) returns (r: Result<(), StringError>)
      requires Valid()
      modifies this, chars
      ensures Valid()
      ensures r.Failure? <==> old(chars) == null && 0 <= index < old(size) && a.Some? && a.value != []
      ensures r.Failure? ==> r.error == NullPointer
      ensures r.Failure? || !(0 <= index < old(size)) || a.None? || a.value == [] ==>
                chars == old(chars) && size == old(size) && (chars != null ==> chars[..] == old(chars[..]))
      ensures old(chars) != null && 0 <= index < old(size) && a.Some? && a.value != [] ==>
                chars != null && fresh(chars) && chars.Length == size
                && Contents() == old(Contents())[..index] + a.value + old(Contents())[index..]
    {
      if index < 0 || index >= size {
        return Success(());
      }
      if a.None? || |a.value| == 0 {
        return Success(());
      }
      if chars == null {
        return Failure(NullPointer);
      }
      ghost var s := Contents();
      var addLen := |a.value|;
      var newLen := size + addLen;
      if newLen > chars.Length {
        Expand(newLen);
      }
      InsertAt(chars, index, size, a.value, 0);
      size := newLen;
      chars := JavaArrays.CopyOf(chars, size, '\0');
      r := Success(());
    }

    /** Every position where a occurs in the text, overlapping ones
        included, in ascending order. */
    method GetIndexes(a: seq<char>) returns (ints: array<int>)
      requires Valid() && chars != null && |a| > 0
      ensures fresh(ints) && ints[..] == Occurrences(Contents(), a, 0)
    {
      ghost var s := Contents();
      ghost var found: seq<int> := [];
      ints := new int[0];
      var index := 0;
      var len := 0;
      var i := 0;
      while i < size
        invariant 0 <= i <= size && index == len <= ints.Length && fresh(ints)
        invariant ints.Length == 0 || ints.Length >= 10
        invariant ints[..len] == found
        invariant found + Occurrences(s, a, i) == Occurrences(s, a, 0)
      {
        if chars[i] == a[0] {
          if size - i < |a| {
            break;
          }
          var count := CountMatches(a, i);
          if count == |a| {
            OccurrenceFound(s, a, i, found);
            if index >= ints.Length {
              var newLen := if ints.Length == 0 then 10 else ints.Length * 3 / 2;
              var oldInts := ints;
              ints := JavaArrays.CopyOf(ints, newLen, 0);
              assert ints[..len] == oldInts[..len];
            }
            ints[index] := i;
            index := index + 1;
            len := len + 1;
            found := found + [i];
            assert ints[..len] == ints[..len - 1] + [i];
          } else {
            OccurrenceMissed(s, a, i, found);
          }
        } else {
          OccurrenceMissed(s, a, i, found);
        }
        i := i + 1;
      }
      assert Occurrences(s, a, i) == [];
      assert found == Occurrences(s, a, 0);
      ints := JavaArrays.CopyOf(ints, len, 0);
    }

    /** The inner loop of getIndexes: how many of a's characters equal the
        text's from position i on; all of them exactly when a occurs at i. */
    method CountMatches(a: seq<char>, i: nat) returns (count: nat)
      requires Valid() && chars != null && i + |a| <= size
      ensures count == |a| <==> OccursAt(a, Contents(), i)
    {
      ghost var s := Contents();
      count := 0;
      var j := 0;
      while j < |a|
        invariant 0 <= j <= |a| && count <= j
        invariant count == j <==> forall l :: 0 <= l < j ==> s[i + l] == a[l]
      {
        if chars[i + j] == a[j] {
          count := count + 1;
        }
        j := j + 1;
      }
      if count == |a| {
        assert s[i..i + |a|] == a;
      } else {
        ghost var l :| 0 <= l < |a| && s[i + l] != a[l];
        assert s[i..i + |a|][l] == s[i + l];
      }
    }

    /** contains: false for a null or empty pattern or one longer than the
        text; otherwise whether the pattern occurs. On a null array the
        search reads it and throws NullPointerException. */
    method Contains(a: Option<seq<char>>) returns (r: Result<bool, StringError>)
      requires Valid()
      ensures r.Failure? <==> chars == null && a.Some? && 0 < |a.value| <= size
      ensures r.Failure? ==> r.error == NullPointer
      ensures r.Success? ==>
                (r.value <==> a.Some? && 0 < |a.value| <= size && chars != null && IsSubstring(a.value, Contents()))
    {
      if a.None? || |a.value| == 0 {
        return Success(false);
      }
      if |a.value| > size {
        return Success(false);
      }
      if chars == null {
        return Failure(NullPointer);
      }
      var ints := GetIndexes(a.value);
      OccurrencesMeaning(Contents(), a.value, 0);
      if ints.Length > 0 {
        assert ints[..][0] in Occurrences(Contents(), a.value, 0);
        return Success(true);
      }
      return Success(false);
    }

    /** Replaces every occurrence of o by nw, scanning left to right; an
        empty nw deletes. A null or empty o, an o longer than the text, a
        null nw, an empty text or a text without o are left alone. An nw of
        the same length as o is written over the old array. Past those
        checks a null array throws NullPointerException in the search. */
    method Replace(o: Option<seq<char>>, nw: Option<seq<char>>) returns (r: Result<(), StringError>)
      requires Valid()
      modifies this, chars
      ensures Valid()
      ensures r.Failure? <==> old(chars) == null && o.Some? && nw.Some? && 0 < |o.value| <= old(size)
      ensures r.Failure? ==> r.error == NullPointer
      ensures r.Failure? || old(size) == 0 || o.None? || nw.None? || |o.value| == 0 || |o.value| > old(size) ==>
                chars == old(chars) && size == old(size) && (chars != null ==> chars[..] == old(chars[..]))
      ensures old(chars) != null && o.Some? && nw.Some? && 0 < |o.value| && !IsSubstring(o.value, old(Contents())) ==>
                chars == old(chars) && size == old(size) && chars[..] == old(chars[..])
      ensures old(chars) != null && o.Some? && nw.Some? && 0 < |o.value| <= old(size) ==>
                chars != null && Contents() == ReplaceAll(old(Contents()), o.value, nw.value)
      ensures o.Some? && nw.Some? && |o.value| == |nw.value| ==> chars == old(chars)
    {
      if size == 0 {
        return Success(());
      }
      if o.None? || |o.value| == 0 || |o.value| > size {
        return Success(());
      }
      if nw.None? {
        return Success(());
      }
      if chars == null {
        return Failure(NullPointer);
      }
      ghost var s := Contents();
      var m, u := |o.value|, nw.value;
      var found := GetIndexes(o.value);
      OccurrencesMeaning(s, o.value, 0);
      if found.Length == 0 {
        ReplaceAllNoMatch(s, o.value, u);
        return Success(());
      }
      assert found[..][0] in Occurrences(s, o.value, 0);
      var ints := DropOverlapping(found, m);
      ghost var target := ReplaceAll(s, o.value, u);
      ReplaceCorrectedIsReplaceAll(s, o.value, u);
      SpliceAll(ints, m, u, target);
      r := Success(());
    }

    /** The loop of replace: one ReplaceStep per listed position. */
    method SpliceAll(ints: array<int>, m: nat, u: seq<char>, ghost target: seq<char>)
      requires Valid() && chars != null && m > 0
      requires SpliceEach(Contents(), ints[..], m, u, 0) == Some(target)
      modifies this, chars, ints
      ensures Valid() && chars != null && Contents() == target
      ensures chars == old(chars) || fresh(chars)
      ensures |u| == m ==> chars == old(chars)
    {
      assert ints[0..] == ints[..];
      var i := 0;
      while i < ints.Length
        invariant 0 <= i <= ints.Length
        invariant Valid() && chars != null && (chars == old(chars) || fresh(chars))
        invariant SpliceEach(Contents(), ints[i..], m, u, 0) == Some(target)
        invariant |u| == m ==> chars == old(chars)
      {
        ReplaceStep(ints, i, m, u, target);
        i := i + 1;
      }
      assert ints[i..] == [];
    }

    /** One pass of replace's loop: the occurrence at ints[i] is replaced
        (by ShrinkAt, GrowAt or OverwriteAt, as nw is shorter, longer or as
        long as o) and, when the length changed, the positions after it are
        moved by the change. */
    method ReplaceStep(ints: array<int>, i: nat, m: nat, u: seq<char>, ghost target: seq<char>)
      requires Valid() && chars != null && i < ints.Length && m > 0
      requires SpliceEach(Contents(), ints[i..], m, u, 0) == Some(target)
      modifies this, chars, ints
      ensures Valid() && chars != null
      ensures SpliceEach(Contents(), ints[i + 1..], m, u, 0) == Some(target)
      ensures |u| == m ==> chars == old(chars)
      ensures |u| != m ==> fresh(chars)
    {
      ghost var c := Contents();
      ghost var rest := ints[i + 1..];
      var q := ints[i];
      SpliceEachStep(c, ints[i..], m, u, target);
      assert ints[i..][0] == q && ints[i..][1..] == rest;
      if |u| < m {
        ShrinkAt(q, m, u);
      } else if |u| > m {
        GrowAt(q, m, u);
      } else {
        OverwriteAt(q, u);
      }
      if |u| != m {
        ShiftPositions(ints, i + 1, |u| - m);
      } else {
        assert Shifted(rest, |u| - m) == rest;
      }
    }

    /** One pass of replace where nw is shorter than o (or empty): nw is
        written at q and the tail moves left over the rest of o. */
    method ShrinkAt(q: nat, m: nat, u: seq<char>)
      requires Valid() && chars != null && |u| < m && q + m <= size
      modifies this, chars
      ensures Valid() && chars != null && fresh(chars) && chars.Length == size
      ensures Contents() == old(Contents())[..q] + u + old(Contents())[q + m..]
    {
      ghost var s := Contents();
      WriteAt(chars, q, u, 0, |u|);
      var delNum := m - |u|;
      ShiftLeft(chars, q + |u|, size, delNum);
      assert chars[..size - delNum] == s[..q] + u + s[q + m..] by {
        forall k | 0 <= k < size - delNum
          ensures chars[k] == (s[..q] + u + s[q + m..])[k]
        {
          if k >= q + |u| {
            assert chars[k] == s[k + delNum];
          }
        }
      }
      size := size - delNum;
      chars := JavaArrays.CopyOf(chars, size, '\0');
    }

    /** One pass of replace where nw is longer than o: the first |o|
        characters of nw overwrite o, the array grows when full, the tail
        moves right and the rest of nw fills the gap. */
    method GrowAt(q: nat, m: nat, u: seq<char>)
      requires Valid() && chars != null && 0 < m < |u| && q + m <= size
      modifies this, chars
      ensures Valid() && chars != null && fresh(chars) && chars.Length == size
      ensures Contents() == old(Contents())[..q] + u + old(Contents())[q + m..]
    {
      ghost var s := Contents();
      WriteAt(chars, q, u, 0, m);
      var index := q + m;
      var jIndex := m;
      var addNum := |u| - m;
      ghost var w := Contents();
      assert w == s[..q] + u[..m] + s[q + m..];
      if size + addNum > chars.Length {
        Expand(size + addNum);
      }
      assert chars[..index] == w[..index] == s[..q] + u[..m];
      assert chars[index..size] == w[index..] == s[q + m..];
      InsertAt(chars, index, size, u, jIndex);
      RejoinSplit(s[..q], u, m, s[q + m..]);
      size := size + addNum;
      chars := JavaArrays.CopyOf(chars, size, '\0');
    }

    /** One pass of replace where nw and o have the same length: nw is
        written over o in place. */
    method OverwriteAt(q: nat, u: seq<char>)
      requires Valid() && chars != null && q + |u| <= size
      modifies chars
      ensures Contents() == old(Contents())[..q] + u + old(Contents())[q + |u|..]
    {
      ghost var s := Contents();
      WriteAt(chars, q, u, 0, |u|);
      assert Contents() == s[..q] + u + s[q + |u|..] by {
        forall k | 0 <= k < size
          ensures chars[k] == (s[..q] + u + s[q + |u|..])[k]
        {
        }
      }
    }

    /** findMaxCommon: returns false (the source's null) when an argument is
        null or empty, leaving the buffer alone. Otherwise the buffer becomes
        the longest common substring of a and b, the first one met scanning
        a's positions and, for each, b's; when no character is shared the
        array is null and the size is kept. */
    method FindMaxCommon(a: Option<seq<char>>, b: Option<seq<char>>) returns (r: bool)
      requires Valid()
      modifies this
      ensures Valid()
      ensures r <==> a.Some? && b.Some? && a.value != [] && b.value != []
      ensures !r ==> chars == old(chars) && size == old(size)
      ensures r ==> (chars == null <==> forall x, y :: 0 <= x < |a.value| && 0 <= y < |b.value| ==> a.value[x] != b.value[y])
      ensures r && chars == null ==> size == old(size)
      ensures r && chars != null ==>
                fresh(chars) && chars.Length == size && 0 < size
                && IsLongestCommon(chars[..], a.value, b.value)
                && exists x, y :: FirstLongest(a.value, b.value, x, y, size) && chars[..] == b.value[y..y + size]
    {
      if a.None? || |a.value| == 0 || b.None? || |b.value| == 0 {
        return false;
      }
      var A, B := a.value, b.value;
      chars := null;
      var maxNum: nat := 0;
      ghost var bi, bj := 0, 0;
      var i := 0;
      while i < |A|
        invariant 0 <= i <= |A| && size == old(size)
        invariant ScanBest(A, B, i, 0, maxNum, bi, bj) && Holds(chars, B, bj, maxNum)
      {
        maxNum, chars, bi, bj := ScanRow(A, B, i, maxNum, chars, bi, bj);
        i := i + 1;
      }
      if maxNum > 0 {
        size := maxNum;
        chars := JavaArrays.CopyOf(chars, size, '\0');
        ScanFound(A, B, maxNum, bi, bj);
      } else {
        ScanFoundNothing(A, B, bi, bj);
      }
      return true;
    }

    /** Reverses the text in place, keeping the size and the slots past it.
        A null array is read, and throws NullPointerException, only when
        there are at least two characters to swap. */
    method Reverse() returns (r: Result<(), StringError>)
      requires Valid()
      modifies chars
      ensures r.Failure? <==> chars == null && size >= 2
      ensures r.Failure? ==> r.error == NullPointer
      ensures chars != null ==> Contents() == Reversed(old(Contents()))
      ensures chars != null ==> chars[size..] == old(chars[size..])
    {
      if size == 0 {
        return Success(());
      }
      if chars == null {
        if size / 2 > 0 {
          return Failure(NullPointer);
        }
        return Success(());
      }
      ReversePrefix(chars, size);
      assert chars[size..] == old(chars[size..]);
      r := Success(());
    }
  }

  /** The swapping loop of reverse over the first n slots of arr: slot k
      trades with slot n-1-k for every k below n/2. */
  method ReversePrefix(arr: array<char>, n: nat)
    requires n <= arr.Length
    modifies arr
    ensures arr[..n] == Reversed(old(arr[..n]))
    ensures forall k :: n <= k < arr.Length ==> arr[k] == old(arr[k])
  {
    ghost var s := arr[..n];
    var i := 0;
    while i < n / 2
      invariant 0 <= i <= n / 2
      invariant forall k :: 0 <= k < i ==> arr[k] == s[n - 1 - k] && arr[n - 1 - k] == s[k]
      invariant forall k :: i <= k < n - i ==> arr[k] == s[k]
      invariant forall k :: n <= k < arr.Length ==> arr[k] == old(arr[k])
    {
      var tmp := arr[i];
      arr[i] := arr[n - i - 1];
      arr[n - i - 1] := tmp;
      i := i + 1;
    }
    ReversedIndex(s);
    forall k | 0 <= k < n
      ensures arr[k] == Reversed(s)[k]
    {
      if k >= n - i {
        assert arr[n - 1 - (n - 1 - k)] == s[n - 1 - k];
      }
    }
  }

  /** The capacity constructor, including its IllegalArgumentException. */
  method NewCharBuffer(capacity: int) returns (r: Result<CharBuffer, StringError>)
    ensures r.Failure? <==> capacity < 0
    ensures r.Failure? ==> r.error == IllegalCapacity
    ensures r.Success? ==> fresh(r.value) && r.value.Valid() && r.value.size == 0
                           && r.value.chars != null && r.value.chars.Length == capacity
  {
    if capacity < 0 {
      return Failure(IllegalCapacity);
    }
    var buffer := new CharBuffer.WithCapacity(capacity);
    r := Success(buffer);
  }

  /** getIndexes records position i when a occurs there. */
  lemma OccurrenceFound(s: seq<char>, a: seq<char>, i: nat, found: seq<int>)
    requires OccursAt(a, s, i) && found + Occurrences(s, a, i) == Occurrences(s, a, 0)
    ensures (found + [i]) + Occurrences(s, a, i + 1) == Occurrences(s, a, 0)
  {
    assert Occurrences(s, a, i) == [i] + Occurrences(s, a, i + 1);
  }

  /** getIndexes passes over position i when a does not occur there (its
      first character already differs, or a later one does). */
  lemma OccurrenceMissed(s: seq<char>, a: seq<char>, i: nat, found: seq<int>)
    requires |a| > 0 && i < |s|
    requires !OccursAt(a, s, i) || s[i] != a[0]
    requires found + Occurrences(s, a, i) == Occurrences(s, a, 0)
    ensures found + Occurrences(s, a, i + 1) == Occurrences(s, a, 0)
  {
    if i + |a| <= |s| {
      assert s[i..i + |a|][0] == s[i];
      assert Occurrences(s, a, i) == Occurrences(s, a, i + 1);
    }
  }

  /** The run starting at (x, y) is the longest over all pairs of positions,
      and every pair met earlier in the scan (by x, then y) has a strictly
      shorter one. */
  ghost predicate FirstLongest(a: seq<char>, b: seq<char>, x: int, y: int, len: nat)
  {
    && 0 <= x < |a| && 0 <= y < |b| && CommonRun(a, b, x, y) == len
    && (forall x', y' :: 0 <= x' < |a| && 0 <= y' < |b| ==> CommonRun(a, b, x', y') <= len)
    && (forall x', y' :: 0 <= x' < |a| && 0 <= y' < |b| && (x' < x || (x' == x && y' < y)) ==>
          CommonRun(a, b, x', y') < len)
  }

  /** Pair (x, y) comes before (i, j) in the scan of findMaxCommon. */
  ghost predicate Before(x: int, y: int, i: int, j: int)
  {
    x < i || (x == i && y < j)
  }

  /** What findMaxCommon knows once the pairs before (i, j) are scanned:
      maxNum is their longest run, first reached at (bi, bj). */
  ghost predicate ScanBest(a: seq<char>, b: seq<char>, i: int, j: int, maxNum: nat, bi: int, bj: int)
  {
    && (forall x, y :: 0 <= x < |a| && 0 <= y < |b| && Before(x, y, i, j) ==> CommonRun(a, b, x, y) <= maxNum)
    && (maxNum > 0 ==>
          && 0 <= bi < |a| && 0 <= bj < |b| && Before(bi, bj, i, j)
          && CommonRun(a, b, bi, bj) == maxNum
          && (forall x, y :: 0 <= x < |a| && 0 <= y < |b| && Before(x, y, bi, bj) ==> CommonRun(a, b, x, y) < maxNum))
  }

  /** A pair whose run is no longer than the best so far changes nothing. */
  lemma ScanNext(a: seq<char>, b: seq<char>, i: nat, j: nat, maxNum: nat, bi: int, bj: int)
    requires i < |a| && j < |b| && ScanBest(a, b, i, j, maxNum, bi, bj)
    requires CommonRun(a, b, i, j) <= maxNum
    ensures ScanBest(a, b, i, j + 1, maxNum, bi, bj)
  {
  }

  /** A strictly longer run becomes the best, first reached at (i, j). */
  lemma ScanNewBest(a: seq<char>, b: seq<char>, i: nat, j: nat, maxNum: nat, bi: int, bj: int)
    requires i < |a| && j < |b| && ScanBest(a, b, i, j, maxNum, bi, bj)
    requires CommonRun(a, b, i, j) > maxNum
    ensures ScanBest(a, b, i, j + 1, CommonRun(a, b, i, j), i, j)
  {
  }

  /** Finishing a's position i moves the scan to the start of i + 1. */
  lemma ScanRowDone(a: seq<char>, b: seq<char>, i: nat, maxNum: nat, bi: int, bj: int)
    requires i < |a| && ScanBest(a, b, i, |b|, maxNum, bi, bj)
    ensures ScanBest(a, b, i + 1, 0, maxNum, bi, bj)
  {
  }

  /** `best` (findMaxCommon's `this.chars`) starts with the best run so
      far, and is null while there is none. */
  ghost predicate Holds(best: array?<char>, b: seq<char>, bj: int, maxNum: nat)
    reads best
  {
    && (maxNum == 0 <==> best == null)
    && (best != null ==> 0 <= bj && bj + maxNum <= |b| && maxNum <= best.Length && best[..maxNum] == b[bj..bj + maxNum])
  }

  /** The inner loop of findMaxCommon for a's position i: every b position
      whose character equals a[i] has its run measured, and a strictly
      longer run replaces the best so far. */
  method ScanRow(a: seq<char>, b: seq<char>, i: nat, maxNum: nat, best: array?<char>, ghost bi: int, ghost bj: int)
      returns (maxNum': nat, best': array?<char>, ghost bi': int, ghost bj': int)
    requires i < |a| && ScanBest(a, b, i, 0, maxNum, bi, bj) && Holds(best, b, bj, maxNum)
    ensures ScanBest(a, b, i + 1, 0, maxNum', bi', bj') && Holds(best', b, bj', maxNum')
  {
    maxNum', best', bi', bj' := maxNum, best, bi, bj;
    var j := 0;
    while j < |b|
      invariant 0 <= j <= |b|
      invariant ScanBest(a, b, i, j, maxNum', bi', bj') && Holds(best', b, bj', maxNum')
    {
      if a[i] == b[j] {
        var tmp, count := MatchRun(a, b, i, j);
        if count > maxNum' {
          ScanNewBest(a, b, i, j, maxNum', bi', bj');
          maxNum' := count;
          best' := tmp;
          bi', bj' := i, j;
        } else {
          ScanNext(a, b, i, j, maxNum', bi', bj');
        }
      } else {
        assert CommonRun(a, b, i, j) == 0;
        ScanNext(a, b, i, j, maxNum', bi', bj');
      }
      j := j + 1;
    }
    ScanRowDone(a, b, i, maxNum', bi', bj');
  }

  /** The run-measuring loop of findMaxCommon: the run of equal characters
      starting at a[i] and b[j], copied into a fresh buffer of the shorter
      length. */
  method MatchRun(a: seq<char>, b: seq<char>, i: nat, j: nat) returns (tmp: array<char>, count: nat)
    requires i < |a| && j < |b|
    ensures fresh(tmp) && tmp.Length == Min(|a|, |b|)
    ensures count == CommonRun(a, b, i, j) && count <= tmp.Length
    ensures j + count <= |b| && tmp[..count] == b[j..j + count]
  {
    var index := i;
    count := 0;
    tmp := new char[Min(|a|, |b|)](_ => '\0');
    var k := j;
    while k < |b|
      invariant j <= k <= |b| && index == i + count <= |a| && k == j + count
      invariant count <= Min(|a|, |b|)
      invariant a[i..index] == b[j..k] && tmp[..count] == b[j..k]
    {
      if index >= |a| {
        break;
      }
      if a[index] == b[k] {
        tmp[count] := b[k];
        assert a[i..index + 1] == a[i..index] + [a[index]];
        assert b[j..k + 1] == b[j..k] + [b[k]];
        index := index + 1;
        count := count + 1;
      } else {
        break;
      }
      k := k + 1;
    }
    CommonRunExact(a, b, i, j, count);
  }

  /** At the end of the scan the best run is the first longest one. */
  lemma ScanFound(a: seq<char>, b: seq<char>, maxNum: nat, bi: int, bj: int)
    requires maxNum > 0 && ScanBest(a, b, |a|, 0, maxNum, bi, bj)
    ensures FirstLongest(a, b, bi, bj, maxNum) && bj + maxNum <= |b|
    ensures IsLongestCommon(b[bj..bj + maxNum], a, b)
  {
    LongestRun(a, b, bi, bj, maxNum);
  }

  /** A scan that found no run found no shared character. */
  lemma ScanFoundNothing(a: seq<char>, b: seq<char>, bi: int, bj: int)
    requires ScanBest(a, b, |a|, 0, 0, bi, bj)
    ensures forall x, y :: 0 <= x < |a| && 0 <= y < |b| ==> a[x] != b[y]
  {
    forall x, y | 0 <= x < |a| && 0 <= y < |b|
      ensures a[x] != b[y]
    {
      if a[x] == b[y] {
        assert a[x..x + 1] == b[y..y + 1];
        CommonRunAtLeast(a, b, x, y, 1);
      }
    }
  }

  /** A run at (bi, bj) that no pair beats is a longest common substring. */
  lemma LongestRun(a: seq<char>, b: seq<char>, bi: nat, bj: nat, len: nat)
    requires bi < |a| && bj < |b| && CommonRun(a, b, bi, bj) == len
    requires forall x, y :: 0 <= x < |a| && 0 <= y < |b| ==> CommonRun(a, b, x, y) <= len
    ensures IsLongestCommon(b[bj..bj + len], a, b)
  {
    CommonRunMatches(a, b, bi, bj);
    var t := b[bj..bj + len];
    assert OccursAt(t, a, bi) && OccursAt(t, b, bj);
    forall t' | IsCommon(t', a, b)
      ensures |t'| <= len
    {
      var p :| OccursAt(t', a, p);
      var p' :| OccursAt(t', b, p');
      if |t'| > 0 {
        CommonRunAtLeast(a, b, p, p', |t'|);
      }
    }
  }

  /** Writing u in two parts, u[..m] and then u[m..], writes u. */
  lemma RejoinSplit(a: seq<char>, u: seq<char>, m: nat, b: seq<char>)
    requires m <= |u|
    ensures a + u[..m] + u[m..] + b == a + u + b
  {
    assert u[..m] + u[m..] == u;
  }

  /** Writes src[from..to] into arr starting at `at`. */
  method WriteAt(arr: array<char>, at: nat, src: seq<char>, from: nat, to: nat)
    requires from <= to <= |src| && at + (to - from) <= arr.Length
    modifies arr
    ensures forall k :: at <= k < at + (to - from) ==> arr[k] == src[from + k - at]
    ensures forall k :: 0 <= k < arr.Length && !(at <= k < at + (to - from)) ==> arr[k] == old(arr[k])
  {
    var j := from;
    var index := at;
    while j < to
      invariant from <= j <= to && index == at + (j - from)
      invariant forall k :: at <= k < index ==> arr[k] == src[from + k - at]
      invariant forall k :: 0 <= k < arr.Length && !(at <= k < index) ==> arr[k] == old(arr[k])
    {
      arr[index] := src[j];
      index := index + 1;
      j := j + 1;
    }
  }

  /** The shift-right loop of add and replace followed by the copy of
      src[from..] into the gap it opens at `index`. */
  method InsertAt(arr: array<char>, index: nat, n: nat, src: seq<char>, from: nat)
    requires index <= n && from <= |src| && n + (|src| - from) <= arr.Length
    modifies arr
    ensures arr[..n + (|src| - from)] == old(arr[..index]) + src[from..] + old(arr[index..n])
  {
    ghost var before := arr[..];
    var d := |src| - from;
    ShiftRight(arr, index, n, d);
    WriteAt(arr, index, src, from, |src|);
    assert arr[..n + d] == before[..index] + src[from..] + before[index..n] by {
      forall k | 0 <= k < n + d
        ensures arr[k] == (before[..index] + src[from..] + before[index..n])[k]
      {
        if k >= index + d {
          assert arr[k] == before[k - d];
        }
      }
    }
  }

  /** The shift-right loop of add and replace: arr[from..to] moves d places
      right, walking down from the end so nothing is read after it is
      overwritten. */
  method ShiftRight(arr: array<char>, from: nat, to: nat, d: nat)
    requires from <= to && to + d <= arr.Length
    modifies arr
    ensures forall k :: from + d <= k < to + d ==> arr[k] == old(arr[k - d])
    ensures forall k :: 0 <= k < arr.Length && !(from + d <= k < to + d) ==> arr[k] == old(arr[k])
  {
    var i: int := to - 1;
    while i >= from
      invariant from - 1 <= i <= to - 1
      invariant forall k :: i + 1 + d <= k < to + d ==> arr[k] == old(arr[k - d])
      invariant forall k :: 0 <= k < arr.Length && !(i + 1 + d <= k < to + d) ==> arr[k] == old(arr[k])
    {
      arr[i + d] := arr[i];
      i := i - 1;
    }
  }

  /** The shift-left loop of replace: arr[from + d..to] moves d places left,
      stopping once the source position reaches `to`. */
  method ShiftLeft(arr: array<char>, from: nat, to: nat, d: nat)
    requires from <= to <= arr.Length
    modifies arr
    ensures forall k :: from <= k < to - d ==> arr[k] == old(arr[k + d])
    ensures forall k :: 0 <= k < arr.Length && !(from <= k < to - d) ==> arr[k] == old(arr[k])
  {
    var k := from;
    while k < to
      invariant from <= k <= to
      invariant forall x :: from <= x < k ==> x + d < to && arr[x] == old(arr[x + d])
      invariant forall x :: 0 <= x < arr.Length && !(from <= x < k) ==> arr[x] == old(arr[x])
    {
      if k + d >= to {
        break;
      }
      arr[k] := arr[k + d];
      k := k + 1;
    }
  }

  /** replace's adjustment of the positions still to be processed. */
  method ShiftPositions(ints: array<int>, from: nat, d: int)
    requires from <= ints.Length
    modifies ints
    ensures ints[..from] == old(ints[..from])
    ensures ints[from..] == Shifted(old(ints[from..]), d)
  {
    var k := from;
    while k < ints.Length
      invariant from <= k <= ints.Length
      invariant forall x :: 0 <= x < from ==> ints[x] == old(ints[x])
      invariant forall x :: from <= x < k ==> ints[x] == old(ints[x]) + d
      invariant forall x :: k <= x < ints.Length ==> ints[x] == old(ints[x])
    {
      ints[k] := ints[k] + d;
      k := k + 1;
    }
  }

  /** The correction of replace: keeps a listed position only when it starts
      at or after the end of the last one kept. */
  method DropOverlapping(ps: array<int>, m: nat) returns (r: array<int>)
    ensures fresh(r) && r[..] == DropOverlaps(ps[..], m, 0)
  {
    var kept := new int[ps.Length];
    var len := 0;
    var next := 0;
    var i := 0;
    assert ps[0..] == ps[..];
    while i < ps.Length
      invariant 0 <= i <= ps.Length && 0 <= len <= i
      invariant kept[..len] + DropOverlaps(ps[i..], m, next) == DropOverlaps(ps[..], m, 0)
    {
      assert ps[i..][0] == ps[i] && ps[i..][1..] == ps[i + 1..];
      if ps[i] >= next {
        kept[len] := ps[i];
        len := len + 1;
        next := ps[i] + m;
        assert kept[..len] == kept[..len - 1] + [ps[i]];
      }
      i := i + 1;
    }
    r := JavaArrays.CopyOf(kept, len, 0);
  }
}
