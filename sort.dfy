/** Sort: five in-place sorts of an `int[]`. Bubble, selection and quick sort
    order the array from largest to smallest, insertion and merge sort from
    smallest to largest; every one of them returns a permutation of its input. */
module Sort {

  /** s[lo..hi) never increases. */
  ghost predicate Descending(s: seq<int>, lo: int, hi: int)
  {
    forall x, y :: 0 <= lo <= x < y < hi <= |s| ==> s[x] >= s[y]
  }

  /** s[lo..hi) never decreases. */
  ghost predicate Ascending(s: seq<int>, lo: int, hi: int)
  {
    forall x, y :: 0 <= lo <= x < y < hi <= |s| ==> s[x] <= s[y]
  }

  /** Exchanges two cells: the `tmp` swap every sort here is built from. */
  method Swap(arr: array<int>, i: nat, j: nat)
    requires i < arr.Length && j < arr.Length
    modifies arr
    ensures arr[i] == old(arr[j]) && arr[j] == old(arr[i])
    ensures forall k :: 0 <= k < arr.Length && k != i && k != j ==> arr[k] == old(arr[k])
    ensures multiset(arr[..]) == multiset(old(arr[..]))
  {
    var tmp := arr[i];
    arr[i] := arr[j];
    arr[j] := tmp;
  }

  // ------------------------------------------------------------ bubbleSort

  /** bubbleSort: null for a null or empty array; otherwise the same array,
      rearranged from largest to smallest. */
  method BubbleSort(arr: array?<int>) returns (r: array?<int>)
    modifies arr
    ensures arr == null || arr.Length == 0 ==> r == null
    ensures arr != null && arr.Length > 0 ==>
              r == arr && Descending(arr[..], 0, arr.Length) && multiset(arr[..]) == multiset(old(arr[..]))
  {
    if arr == null || arr.Length == 0 {
      return null;
    }
    var n := arr.Length;
    for i := 1 to n
      invariant multiset(arr[..]) == multiset(old(arr[..]))
      invariant Descending(arr[..], n - i + 1, n)
      invariant i > 1 ==> forall k :: 0 <= k <= n - i ==> arr[k] >= arr[n - i + 1]
    {
      BubblePass(arr, n - i);
    }
    return arr;
  }

  /** One pass of bubbleSort's inner loop over arr[0..m]: the smallest of
      those cells sinks to position m, and the cells after m stay put. */
  method BubblePass(arr: array<int>, m: nat)
    requires m < arr.Length
    requires m + 1 < arr.Length ==> forall k :: 0 <= k <= m ==> arr[k] >= arr[m + 1]
    modifies arr
    ensures multiset(arr[..]) == multiset(old(arr[..]))
    ensures forall k :: m < k < arr.Length ==> arr[k] == old(arr[k])
    ensures forall k :: 0 <= k <= m ==> arr[k] >= arr[m]
    ensures m + 1 < arr.Length ==> forall k :: 0 <= k <= m ==> arr[k] >= arr[m + 1]
  {
    for j := 0 to m
      invariant multiset(arr[..]) == multiset(old(arr[..]))
      invariant forall k :: m < k < arr.Length ==> arr[k] == old(arr[k])
      invariant forall k :: 0 <= k <= j ==> arr[k] >= arr[j]
      invariant m + 1 < arr.Length ==> forall k :: 0 <= k <= m ==> arr[k] >= arr[m + 1]
    {
      if arr[j] < arr[j + 1] {
        Swap(arr, j, j + 1);
      }
    }
  }

  // --------------------------------------------------------- insertionSort

  /** insertionSort: null for a null or empty array; otherwise the same
      array, rearranged from smallest to largest. */
  method InsertionSort(arr: array?<int>) returns (r: array?<int>)
    modifies arr
    ensures arr == null || arr.Length == 0 ==> r == null
    ensures arr != null && arr.Length > 0 ==>
              r == arr && Ascending(arr[..], 0, arr.Length) && multiset(arr[..]) == multiset(old(arr[..]))
  {
    if arr == null || arr.Length == 0 {
      return null;
    }
    for i := 1 to arr.Length
      invariant multiset(arr[..]) == multiset(old(arr[..]))
      invariant Ascending(arr[..], 0, i)
    {
      InsertPass(arr, i);
    }
    return arr;
  }

  /** One pass of insertionSort's inner loop: arr[i] is compared with each
      cell before it and exchanged whenever it is smaller, which inserts it
      into the sorted prefix arr[0..i) and leaves arr[0..i] sorted. */
  method InsertPass(arr: array<int>, i: nat)
    requires i < arr.Length && Ascending(arr[..], 0, i)
    modifies arr
    ensures multiset(arr[..]) == multiset(old(arr[..]))
    ensures forall k :: i < k < arr.Length ==> arr[k] == old(arr[k])
    ensures Ascending(arr[..], 0, i + 1)
  {
    assert Inserting(arr[..], i, 0);
    for j := 0 to i
      invariant multiset(arr[..]) == multiset(old(arr[..]))
      invariant forall k :: i < k < arr.Length ==> arr[k] == old(arr[k])
      invariant Inserting(arr[..], i, j)
    {
      ghost var before := arr[..];
      if arr[i] < arr[j] {
        Swap(arr, j, i);
      }
      InsertStep(before, arr[..], i, j);
    }
  }

  /** The state of insertionSort's inner loop at j: arr[0..j) is sorted and
      holds the j smallest of arr[0..i), none of them above arr[i];
      arr[j..i) is still the sorted rest. */
  ghost predicate Inserting(a: seq<int>, i: nat, j: nat)
  {
    j <= i < |a| && Ascending(a, 0, j) && Ascending(a, j, i)
    && (forall x, y :: 0 <= x < j <= y < i ==> a[x] <= a[y])
    && (forall k :: 0 <= k < j ==> a[k] <= a[i])
  }

  /** One comparison of the inner loop: exchanging arr[j] and arr[i] when
      arr[i] is smaller moves the boundary one cell on. */
  lemma InsertStep(a: seq<int>, a': seq<int>, i: nat, j: nat)
    requires Inserting(a, i, j) && j < i && |a'| == |a|
    requires a[i] < a[j] ==> a'[j] == a[i] && a'[i] == a[j]
    requires a[i] < a[j] ==> forall k :: 0 <= k < |a| && k != i && k != j ==> a'[k] == a[k]
    requires a[j] <= a[i] ==> a' == a
    ensures Inserting(a', i, j + 1)
  {
  }

  // --------------------------------------------------------- selectionSort

  /** selectionSort: the argument itself for a null or empty array;
      otherwise the same array, rearranged from largest to smallest. */
  method SelectionSort(arr: array?<int>) returns (r: array?<int>)
    modifies arr
    ensures r == arr
    ensures arr != null ==> Descending(arr[..], 0, arr.Length) && multiset(arr[..]) == multiset(old(arr[..]))
  {
    if arr == null || arr.Length == 0 {
      return arr;
    }
    var n := arr.Length;
    for i := 0 to n - 1
      invariant multiset(arr[..]) == multiset(old(arr[..]))
      invariant Descending(arr[..], 0, i)
      invariant forall a, b :: 0 <= a < i <= b < n ==> arr[a] >= arr[b]
    {
      ghost var before := arr[..];
      var index := MaxIndexFrom(arr, i);
      if index != i {
        Swap(arr, index, i);
      }
      SelectStep(before, arr[..], i, index);
    }
    return arr;
  }

  /** One pass of selectionSort: moving the largest of s[i..] to position i
      extends the sorted prefix by one cell, still above everything after it. */
  lemma SelectStep(before: seq<int>, after: seq<int>, i: nat, index: nat)
    requires i <= index < |before| == |after|
    requires Descending(before, 0, i)
    requires forall a, b :: 0 <= a < i <= b < |before| ==> before[a] >= before[b]
    requires forall k :: i <= k < |before| ==> before[k] <= before[index]
    requires after[i] == before[index] && after[index] == before[i]
    requires forall k :: 0 <= k < |before| && k != i && k != index ==> after[k] == before[k]
    ensures Descending(after, 0, i + 1)
    ensures forall a, b :: 0 <= a < i + 1 <= b < |after| ==> after[a] >= after[b]
  {
  }

  /** The inner loop of selectionSort: the first position of the largest
      value in arr[i..]. */
  method MaxIndexFrom(arr: array<int>, i: nat) returns (index: nat)
    requires i < arr.Length
    ensures i <= index < arr.Length
    ensures forall k :: i <= k < arr.Length ==> arr[k] <= arr[index]
    ensures forall k :: i <= k < index ==> arr[k] < arr[index]
  {
    index := i;
    for j := i + 1 to arr.Length
      invariant i <= index < j
      invariant forall k :: i <= k < j ==> arr[k] <= arr[index]
      invariant forall k :: i <= k < index ==> arr[k] < arr[index]
    {
      if arr[index] < arr[j] {
        index := j;
      }
    }
  }

  // ------------------------------------------------------------- mergeSort

  /** s never decreases. */
  ghost predicate Sorted(s: seq<int>)
  {
    forall x, y :: 0 <= x < y < |s| ==> s[x] <= s[y]
  }

  /** Every element of s is at least p. */
  ghost predicate AtLeast(s: seq<int>, p: int)
  {
    forall k :: 0 <= k < |s| ==> p <= s[k]
  }

  /** The merge of two runs that doMergeSortMerge writes into `result`: the
      smaller head goes first, and on a tie the left run's head does. */
  function Merge(l: seq<int>, r: seq<int>): (m: seq<int>)
    ensures |m| == |l| + |r|
  {
    MergeFrom(l, r, 0, 0)
  }

  /** The merge of what is left of the runs once l[..i] and r[..j] have been
      written out: the state of doMergeSortMerge's loops. While both runs
      have elements the smaller head goes next; then the rest of whichever
      run is left. */
  function MergeFrom(l: seq<int>, r: seq<int>, i: nat, j: nat): (m: seq<int>)
    requires i <= |l| && j <= |r|
    ensures |m| == |l| - i + |r| - j
    decreases |l| - i + |r| - j
  {
    if i == |l| && j == |r| then []
    else if j == |r| || (i < |l| && l[i] <= r[j]) then [l[i]] + MergeFrom(l, r, i + 1, j)
    else [r[j]] + MergeFrom(l, r, i, j + 1)
  }

  /** Merging loses and invents nothing. */
  lemma {:induction false} MergePermutes(l: seq<int>, r: seq<int>, i: nat, j: nat)
    requires i <= |l| && j <= |r|
    ensures multiset(MergeFrom(l, r, i, j)) == multiset(l[i..]) + multiset(r[j..])
    decreases |l| - i + |r| - j
  {
    if i == |l| && j == |r| {
      assert l[i..] == [] && r[j..] == [];
    } else if j == |r| || (i < |l| && l[i] <= r[j]) {
      MergePermutes(l, r, i + 1, j);
      HeadMultiset(l, i);
    } else {
      MergePermutes(l, r, i, j + 1);
      HeadMultiset(r, j);
    }
  }

  lemma HeadMultiset(s: seq<int>, i: nat)
    requires i < |s|
    ensures multiset(s[i..]) == multiset{s[i]} + multiset(s[i + 1..])
  {
    assert s[i..] == [s[i]] + s[i + 1..];
  }

  /** A lower bound of what is left of both runs bounds the rest of their merge. */
  lemma {:induction false} MergeAtLeast(l: seq<int>, r: seq<int>, i: nat, j: nat, p: int)
    requires i <= |l| && j <= |r|
    requires forall k :: i <= k < |l| ==> p <= l[k]
    requires forall k :: j <= k < |r| ==> p <= r[k]
    ensures AtLeast(MergeFrom(l, r, i, j), p)
    decreases |l| - i + |r| - j
  {
    if i == |l| && j == |r| {
    } else if j == |r| || (i < |l| && l[i] <= r[j]) {
      MergeAtLeast(l, r, i + 1, j, p);
    } else {
      MergeAtLeast(l, r, i, j + 1, p);
    }
  }

  /** The merge of two sorted runs is sorted. */
  lemma {:induction false} MergeSorted(l: seq<int>, r: seq<int>, i: nat, j: nat)
    requires i <= |l| && j <= |r|
    requires Sorted(l) && Sorted(r)
    ensures Sorted(MergeFrom(l, r, i, j))
    decreases |l| - i + |r| - j
  {
    if i == |l| && j == |r| {
    } else if j == |r| || (i < |l| && l[i] <= r[j]) {
      MergeSorted(l, r, i + 1, j);
      MergeAtLeast(l, r, i + 1, j, l[i]);
      SortedCons(l[i], MergeFrom(l, r, i + 1, j));
    } else {
      MergeSorted(l, r, i, j + 1);
      MergeAtLeast(l, r, i, j + 1, r[j]);
      SortedCons(r[j], MergeFrom(l, r, i, j + 1));
    }
  }

  /** A lower bound of a sorted sequence can go in front of it. */
  lemma SortedCons(x: int, s: seq<int>)
    requires Sorted(s) && AtLeast(s, x)
    ensures Sorted([x] + s)
  {
  }

  /** mergeSort: the argument itself; a non-empty array ends rearranged
      from smallest to largest, through a scratch array of the same length. */
  method MergeSort(arr: array?<int>) returns (r: array?<int>)
    modifies arr
    ensures r == arr
    ensures arr != null ==> Ascending(arr[..], 0, arr.Length) && multiset(arr[..]) == multiset(old(arr[..]))
  {
    if arr == null || arr.Length == 0 {
      return arr;
    }
    var result := new int[arr.Length];
    ghost var a0 := arr[..];
    DoMergeSortBinary(arr, result, 0, arr.Length - 1);
    assert a0 == a0[0..arr.Length] && arr[..] == arr[0..arr.Length];
    SortedSlice(arr[..], 0, arr.Length);
    return arr;
  }

  /** Sorted on a slice is Ascending on the range it was cut from. */
  lemma SortedSlice(s: seq<int>, lo: nat, hi: nat)
    requires lo <= hi <= |s|
    ensures Sorted(s[lo..hi]) <==> Ascending(s, lo, hi)
  {
    if Sorted(s[lo..hi]) {
      forall x, y | lo <= x < y < hi ensures s[x] <= s[y] {
        assert s[x] == s[lo..hi][x - lo] && s[y] == s[lo..hi][y - lo];
      }
    }
  }

  /** doMergeSortBinary: arr[low..high] ends sorted and a permutation of what
      it held; nothing else in arr changes. */
  method DoMergeSortBinary(arr: array<int>, result: array<int>, low: nat, high: nat)
    requires arr != result && arr.Length == result.Length
    requires low <= high < arr.Length
    modifies arr, result
    ensures Ascending(arr[..], low, high + 1)
    ensures multiset(arr[..]) == multiset(old(arr[..]))
    ensures forall k :: 0 <= k < arr.Length && !(low <= k <= high) ==> arr[k] == old(arr[k])
    decreases high - low
  {
    if low >= high {
      return;
    }
    var mid := (low + high) / 2;
    DoMergeSortBinary(arr, result, low, mid);
    DoMergeSortBinary(arr, result, mid + 1, high);
    DoMergeSortMerge(arr, result, low, mid, high);
  }

  /** doMergeSortMerge: merges the sorted runs arr[low..mid] and
      arr[mid+1..high] through `result` and copies the merge back, leaving
      the rest of arr alone. */
  method DoMergeSortMerge(arr: array<int>, result: array<int>, low: nat, mid: nat, high: nat)
    requires arr != result && arr.Length == result.Length
    requires low <= mid < high < arr.Length
    requires Ascending(arr[..], low, mid + 1) && Ascending(arr[..], mid + 1, high + 1)
    modifies arr, result
    ensures forall k :: low <= k <= high ==>
              arr[k] == Merge(old(arr[low..mid + 1]), old(arr[mid + 1..high + 1]))[k - low]
    ensures Ascending(arr[..], low, high + 1)
    ensures multiset(arr[..]) == multiset(old(arr[..]))
    ensures forall k :: 0 <= k < arr.Length && !(low <= k <= high) ==> arr[k] == old(arr[k])
  {
    ghost var merged := Merge(arr[low..mid + 1], arr[mid + 1..high + 1]);
    MergeIntoResult(arr, result, low, mid, high);
    for i := low to high + 1
      invariant forall k :: low <= k <= high ==> result[k] == merged[k - low]
      invariant forall k :: low <= k < i ==> arr[k] == merged[k - low]
      invariant forall k :: 0 <= k < arr.Length && !(low <= k < i) ==> arr[k] == old(arr[k])
    {
      arr[i] := result[i];
    }
    MergeKeepsOrder(old(arr[..]), arr[..], low, mid, high);
  }

  /** What copying the merge back establishes: the range is sorted and the
      whole array is a permutation of what it was. */
  lemma MergeKeepsOrder(before: seq<int>, after: seq<int>, low: nat, mid: nat, high: nat)
    requires low <= mid < high < |before| == |after|
    requires Ascending(before, low, mid + 1) && Ascending(before, mid + 1, high + 1)
    requires forall k :: low <= k <= high ==>
               after[k] == Merge(before[low..mid + 1], before[mid + 1..high + 1])[k - low]
    requires forall k :: 0 <= k < |after| && !(low <= k <= high) ==> after[k] == before[k]
    ensures Ascending(after, low, high + 1)
    ensures multiset(after) == multiset(before)
  {
    var left, right := before[low..mid + 1], before[mid + 1..high + 1];
    RangeIs(after, low, high + 1, Merge(left, right));
    MergedRangeSorted(before, after, low, mid, high);
    MergedRangePermutes(before, after, low, mid, high);
  }

  /** A range that agrees with m cell by cell is m. */
  lemma RangeIs(s: seq<int>, lo: nat, hi: nat, m: seq<int>)
    requires lo <= hi <= |s| && |m| == hi - lo
    requires forall k :: lo <= k < hi ==> s[k] == m[k - lo]
    ensures s[lo..hi] == m
  {
  }

  lemma MergedRangeSorted(before: seq<int>, after: seq<int>, low: nat, mid: nat, high: nat)
    requires low <= mid < high < |before| == |after|
    requires Ascending(before, low, mid + 1) && Ascending(before, mid + 1, high + 1)
    requires after[low..high + 1] == Merge(before[low..mid + 1], before[mid + 1..high + 1])
    ensures Ascending(after, low, high + 1)
  {
    SortedSlice(before, low, mid + 1);
    SortedSlice(before, mid + 1, high + 1);
    MergeSorted(before[low..mid + 1], before[mid + 1..high + 1], 0, 0);
    SortedSlice(after, low, high + 1);
  }

  lemma MergedRangePermutes(before: seq<int>, after: seq<int>, low: nat, mid: nat, high: nat)
    requires low <= mid < high < |before| == |after|
    requires after[low..high + 1] == Merge(before[low..mid + 1], before[mid + 1..high + 1])
    requires forall k :: 0 <= k < |after| && !(low <= k <= high) ==> after[k] == before[k]
    ensures multiset(after) == multiset(before)
  {
    var left, right := before[low..mid + 1], before[mid + 1..high + 1];
    MergeMultiset(left, right);
    assert before[low..high + 1] == left + right;
    SpliceMultiset(before, after, low, high + 1);
  }

  /** The merge of two runs holds exactly their elements. */
  lemma MergeMultiset(l: seq<int>, r: seq<int>)
    ensures multiset(Merge(l, r)) == multiset(l + r)
  {
    MergePermutes(l, r, 0, 0);
    assert l == l[0..] && r == r[0..];
  }

  /** Replacing a range by a permutation of it permutes the whole sequence. */
  lemma SpliceMultiset(before: seq<int>, after: seq<int>, lo: nat, hi: nat)
    requires lo <= hi <= |before| == |after|
    requires multiset(after[lo..hi]) == multiset(before[lo..hi])
    requires forall k :: 0 <= k < |after| && !(lo <= k < hi) ==> after[k] == before[k]
    ensures multiset(after) == multiset(before)
  {
    assert before == before[..lo] + before[lo..hi] + before[hi..];
    assert after == after[..lo] + after[lo..hi] + after[hi..];
    assert after[..lo] == before[..lo] && after[hi..] == before[hi..];
  }

  /** The three merging loops of doMergeSortMerge: result[low..high] ends
      holding the merge of arr[low..mid] and arr[mid+1..high]. */
  method MergeIntoResult(arr: array<int>, result: array<int>, low: nat, mid: nat, high: nat)
    requires arr != result && arr.Length == result.Length
    requires low <= mid < high < arr.Length
    modifies result
    ensures forall k :: low <= k <= high ==>
              result[k] == Merge(arr[low..mid + 1], arr[mid + 1..high + 1])[k - low]
  {
    ghost var left, right := arr[low..mid + 1], arr[mid + 1..high + 1];
    ghost var merged := Merge(left, right);
    var leftLow, rightLow, index := MergeHeads(arr, result, low, mid, high, left, right);
    ghost var start := index;
    assert left[leftLow - low..] == arr[leftLow..mid + 1];
    assert right[rightLow - mid - 1..] == arr[rightLow..high + 1];
    index := CopyRun(arr, result, leftLow, mid + 1, index);
    ghost var between := result[..];
    index := CopyRun(arr, result, rightLow, high + 1, index);
    forall k | low <= k <= high
      ensures result[k] == merged[k - low]
    {
      if k >= start {
        assert merged[k - low] == merged[start - low..][k - start];
        if k < index - (high + 1 - rightLow) {
          assert result[k] == between[k];
        }
      }
    }
  }

  /** The first merging loop: while both runs have elements, the smaller
      head (the left one on a tie) goes to result[index]. When it stops one
      run is used up, and the rest of the merge is what remains of the other. */
  method MergeHeads(arr: array<int>, result: array<int>, low: nat, mid: nat, high: nat,
                    ghost left: seq<int>, ghost right: seq<int>)
    returns (leftLow: nat, rightLow: nat, index: nat)
    requires arr != result && arr.Length == result.Length
    requires low <= mid < high < arr.Length
    requires left == arr[low..mid + 1] && right == arr[mid + 1..high + 1]
    modifies result
    ensures low <= leftLow <= mid + 1 <= rightLow <= high + 1
    ensures index == leftLow + rightLow - mid - 1
    ensures leftLow == mid + 1 || rightLow == high + 1
    ensures forall k :: low <= k < index ==> result[k] == Merge(left, right)[k - low]
    ensures Merge(left, right)[index - low..] == left[leftLow - low..] + right[rightLow - mid - 1..]
  {
    leftLow, rightLow, index := low, mid + 1, low;
    while leftLow <= mid && rightLow <= high
      invariant MergeState(result, low, mid, high, left, right, leftLow, rightLow, index)
      decreases high + mid - leftLow - rightLow
    {
      assert left[leftLow - low] == arr[leftLow] && right[rightLow - mid - 1] == arr[rightLow];
      leftLow, rightLow, index := MergeStep(arr, result, low, mid, high, left, right, leftLow, rightLow, index);
    }
    HeadsDone(result, low, mid, high, left, right, leftLow, rightLow, index);
  }

  /** Once one run is used up, the rest of the merge is the rest of the
      other run. */
  lemma HeadsDone(result: array<int>, low: nat, mid: nat, high: nat, left: seq<int>, right: seq<int>,
                  leftLow: nat, rightLow: nat, index: nat)
    requires MergeState(result, low, mid, high, left, right, leftLow, rightLow, index)
    requires leftLow == mid + 1 || rightLow == high + 1
    ensures Merge(left, right)[index - low..] == left[leftLow - low..] + right[rightLow - mid - 1..]
  {
    MergeFromExhausted(left, right, leftLow - low, rightLow - mid - 1);
  }

  /** The state of the first merging loop: result[low..index) holds the
      start of the merge, and the rest of the merge is the merge of what is
      left of the two runs. */
  ghost predicate MergeState(result: array<int>, low: nat, mid: nat, high: nat, left: seq<int>, right: seq<int>,
                             leftLow: nat, rightLow: nat, index: nat)
    reads result
  {
    && low <= leftLow <= mid + 1 <= rightLow <= high + 1 < result.Length + 1
    && |left| == mid + 1 - low && |right| == high - mid
    && index == leftLow + rightLow - mid - 1
    && (forall k :: low <= k < index ==> result[k] == Merge(left, right)[k - low])
    && Merge(left, right)[index - low..] == MergeFrom(left, right, leftLow - low, rightLow - mid - 1)
  }

  /** One pass of the first merging loop. */
  method MergeStep(arr: array<int>, result: array<int>, low: nat, mid: nat, high: nat,
                   ghost left: seq<int>, ghost right: seq<int>, leftLow: nat, rightLow: nat, index: nat)
    returns (leftLow': nat, rightLow': nat, index': nat)
    requires arr != result && arr.Length == result.Length
    requires MergeState(result, low, mid, high, left, right, leftLow, rightLow, index)
    requires leftLow <= mid && rightLow <= high
    requires left[leftLow - low] == arr[leftLow] && right[rightLow - mid - 1] == arr[rightLow]
    modifies result
    ensures MergeState(result, low, mid, high, left, right, leftLow', rightLow', index')
    ensures leftLow' + rightLow' == leftLow + rightLow + 1
  {
    ghost var merged := Merge(left, right);
    ghost var i, j, n := leftLow - low, rightLow - mid - 1, index - low;
    if arr[leftLow] <= arr[rightLow] {
      TakeLeft(merged, n, left, right, i, j);
      result[index] := arr[leftLow];
      leftLow', rightLow' := leftLow + 1, rightLow;
    } else {
      TakeRight(merged, n, left, right, i, j);
      result[index] := arr[rightLow];
      leftLow', rightLow' := leftLow, rightLow + 1;
    }
    index' := index + 1;
  }

  /** One step of the first merging loop when the left head is not larger:
      it is the next cell of the merge, and the left run advances. */
  lemma TakeLeft(merged: seq<int>, n: nat, l: seq<int>, r: seq<int>, i: nat, j: nat)
    requires i < |l| && j <= |r| && n < |merged| && merged[n..] == MergeFrom(l, r, i, j)
    requires j == |r| || l[i] <= r[j]
    ensures merged[n] == l[i] && merged[n + 1..] == MergeFrom(l, r, i + 1, j)
  {
    assert merged[n] == merged[n..][0];
    assert merged[n + 1..] == merged[n..][1..];
  }

  /** One step of the first merging loop when the right head is smaller. */
  lemma TakeRight(merged: seq<int>, n: nat, l: seq<int>, r: seq<int>, i: nat, j: nat)
    requires i <= |l| && j < |r| && n < |merged| && merged[n..] == MergeFrom(l, r, i, j)
    requires i == |l| || l[i] > r[j]
    ensures merged[n] == r[j] && merged[n + 1..] == MergeFrom(l, r, i, j + 1)
  {
    assert merged[n] == merged[n..][0];
    assert merged[n + 1..] == merged[n..][1..];
  }

  /** Once a run is used up, the rest of the merge is the other run's rest. */
  lemma {:induction false} MergeFromExhausted(l: seq<int>, r: seq<int>, i: nat, j: nat)
    requires i <= |l| && j <= |r| && (i == |l| || j == |r|)
    ensures MergeFrom(l, r, i, j) == l[i..] + r[j..]
    decreases |l| - i + |r| - j
  {
    if i < |l| {
      MergeFromExhausted(l, r, i + 1, j);
      assert l[i..] == [l[i]] + l[i + 1..];
    } else if j < |r| {
      MergeFromExhausted(l, r, i, j + 1);
      assert r[j..] == [r[j]] + r[j + 1..];
    }
  }

  /** The two draining loops: arr[from..to) is copied to result from index
      on, and the next free index is returned. */
  method CopyRun(arr: array<int>, result: array<int>, from: nat, to: nat, index: nat) returns (next: nat)
    requires arr != result && arr.Length == result.Length
    requires from <= to <= arr.Length && index + (to - from) <= result.Length
    modifies result
    ensures next == index + (to - from)
    ensures forall k :: index <= k < next ==> result[k] == arr[from + (k - index)]
    ensures forall k :: 0 <= k < result.Length && !(index <= k < next) ==> result[k] == old(result[k])
  {
    next := index;
    var i := from;
    while i < to
      invariant from <= i <= to && next == index + (i - from)
      invariant forall k :: index <= k < next ==> result[k] == arr[from + (k - index)]
      invariant forall k :: 0 <= k < result.Length && !(index <= k < next) ==> result[k] == old(result[k])
    {
      result[next] := arr[i];
      next := next + 1;
      i := i + 1;
    }
  }

  // ------------------------------------------------------------- quickSort

  /** quickSort: the argument itself; a non-empty array ends rearranged from
      largest to smallest. The source draws the first pivot at random and
      swaps it to the front; here the drawn index is the parameter
      `partIndex`, so every choice is covered. */
  method QuickSort(arr: array?<int>, partIndex: nat) returns (r: array?<int>)
    requires arr != null && arr.Length > 0 ==> partIndex < arr.Length
    modifies arr
    ensures r == arr
    ensures arr != null ==> Descending(arr[..], 0, arr.Length) && multiset(arr[..]) == multiset(old(arr[..]))
  {
    if arr == null || arr.Length == 0 {
      return arr;
    }
    Swap(arr, 0, partIndex);
    DoQuickRecursion(arr, 0, arr.Length - 1);
    return arr;
  }

  /** doQuickRecursion: arr[low..high] ends sorted from largest to smallest
      and a permutation of what it held; nothing else in arr changes. A range
      of at most one cell (including the empty ranges the recursive calls
      pass, such as high == low - 1) is left alone. */
  method DoQuickRecursion(arr: array<int>, low: int, high: int)
    requires 0 <= low && high < arr.Length
    modifies arr
    ensures Descending(arr[..], low, high + 1)
    ensures multiset(arr[..]) == multiset(old(arr[..]))
    ensures forall k :: 0 <= k < arr.Length && !(low <= k <= high) ==> arr[k] == old(arr[k])
    decreases high - low
  {
    if low >= high {
      return;
    }
    var j: int := QuickPartition(arr, low, high);
    ghost var part := arr[j];
    ghost var split := arr[..];
    DoQuickRecursion(arr, low, j - 1);
    ghost var leftDone := arr[..];
    DoQuickRecursion(arr, j + 1, high);
    QuickJoin(split, leftDone, arr[..], low, j, high);
  }

  /** The two sorted sides of a partitioned range around its pivot at j
      make the whole range sorted. */
  lemma QuickJoin(split: seq<int>, leftDone: seq<int>, final: seq<int>, low: nat, j: nat, high: nat)
    requires low <= j <= high < |split| == |leftDone| == |final|
    requires forall k :: low <= k < j ==> split[k] >= split[j]
    requires forall k :: j < k <= high ==> split[k] <= split[j]
    requires Descending(leftDone, low, j) && multiset(leftDone) == multiset(split)
    requires forall k :: 0 <= k < |split| && !(low <= k <= j - 1) ==> leftDone[k] == split[k]
    requires Descending(final, j + 1, high + 1) && multiset(final) == multiset(leftDone)
    requires forall k :: 0 <= k < |final| && !(j + 1 <= k <= high) ==> final[k] == leftDone[k]
    ensures Descending(final, low, high + 1)
  {
    var part := split[j];
    RangePermutes(split, leftDone, low, j);
    StillAtLeast(split, leftDone, low, j, part);
    RangePermutes(leftDone, final, j + 1, high + 1);
    StillAtMost(leftDone, final, j + 1, high + 1, part);
    assert final[j] == part;
  }

  /** The partition loop of doQuickRecursion, with arr[low] as the pivot:
      the pivot ends at the returned index i, every cell of arr[low..i-1] is
      at least the pivot and every cell of arr[i+1..high] at most it. The
      range is permuted and nothing outside it moves. */
  method QuickPartition(arr: array<int>, low: nat, high: nat) returns (i: nat)
    requires low < high < arr.Length
    modifies arr
    ensures low <= i <= high && arr[i] == old(arr[low])
    ensures forall k :: low <= k < i ==> arr[k] >= arr[i]
    ensures forall k :: i < k <= high ==> arr[k] <= arr[i]
    ensures multiset(arr[..]) == multiset(old(arr[..]))
    ensures forall k :: 0 <= k < arr.Length && !(low <= k <= high) ==> arr[k] == old(arr[k])
  {
    i := low;
    var j := high;
    var part := arr[low];
    while i < j
      invariant low <= i <= j <= high
      invariant arr[low] == part && arr[i] >= part
      invariant forall k :: low <= k < i ==> arr[k] >= part
      invariant forall k :: j < k <= high ==> arr[k] <= part
      invariant multiset(arr[..]) == multiset(old(arr[..]))
      invariant forall k :: 0 <= k < arr.Length && !(low <= k <= high) ==> arr[k] == old(arr[k])
      decreases j - i
    {
      while arr[j] <= part && i < j
        invariant i <= j <= high
        invariant forall k :: j < k <= high ==> arr[k] <= part
        decreases j
      {
        j := j - 1;
      }
      while arr[i] >= part && i < j
        invariant low <= i <= j
        invariant forall k :: low <= k < i ==> arr[k] >= part
        invariant i < j ==> arr[j] > part
        decreases j - i
      {
        i := i + 1;
      }
      Swap(arr, i, j);
    }
    Swap(arr, low, i);
  }

  /** A range whose outside did not change and whose whole sequence is a
      permutation of the old one is itself a permutation of the old range. */
  lemma RangePermutes(before: seq<int>, after: seq<int>, lo: int, hi: int)
    requires 0 <= lo && hi <= |before| == |after|
    requires multiset(after) == multiset(before)
    requires forall k :: 0 <= k < |after| && !(lo <= k < hi) ==> after[k] == before[k]
    ensures lo <= hi ==> multiset(after[lo..hi]) == multiset(before[lo..hi])
  {
    if lo <= hi {
      assert before == before[..lo] + before[lo..hi] + before[hi..];
      assert after == after[..lo] + after[lo..hi] + after[hi..];
      assert after[..lo] == before[..lo] && after[hi..] == before[hi..];
      assert multiset(before) == multiset(before[..lo]) + multiset(before[lo..hi]) + multiset(before[hi..]);
      assert multiset(after) == multiset(before[..lo]) + multiset(after[lo..hi]) + multiset(before[hi..]);
      forall v
        ensures multiset(after[lo..hi])[v] == multiset(before[lo..hi])[v]
      {
        assert multiset(after)[v] == multiset(before)[v];
      }
    }
  }

  /** A lower bound of a range survives any permutation of the range. */
  lemma StillAtLeast(before: seq<int>, after: seq<int>, lo: int, hi: int, p: int)
    requires 0 <= lo && hi <= |before| == |after|
    requires lo <= hi ==> multiset(after[lo..hi]) == multiset(before[lo..hi])
    requires forall k :: lo <= k < hi ==> before[k] >= p
    ensures forall k :: lo <= k < hi ==> after[k] >= p
  {
    forall k | lo <= k < hi ensures after[k] >= p {
      assert after[lo..hi][k - lo] == after[k];
      assert after[k] in multiset(before[lo..hi]);
      var m :| 0 <= m < hi - lo && before[lo..hi][m] == after[k];
      assert before[lo + m] == after[k];
    }
  }

  /** An upper bound of a range survives any permutation of the range. */
  lemma StillAtMost(before: seq<int>, after: seq<int>, lo: int, hi: int, p: int)
    requires 0 <= lo && hi <= |before| == |after|
    requires lo <= hi ==> multiset(after[lo..hi]) == multiset(before[lo..hi])
    requires forall k :: lo <= k < hi ==> before[k] <= p
    ensures forall k :: lo <= k < hi ==> after[k] <= p
  {
    forall k | lo <= k < hi ensures after[k] <= p {
      assert after[lo..hi][k - lo] == after[k];
      assert after[k] in multiset(before[lo..hi]);
      var m :| 0 <= m < hi - lo && before[lo..hi][m] == after[k];
      assert before[lo + m] == after[k];
    }
  }
}
