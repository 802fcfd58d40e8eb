/** Partition: the two binary searches over an ascending array. */
module Partition {

  /** The array order both searches are written for. */
  ghost predicate Ascending(s: seq<int>)
  {
    forall i, j :: 0 <= i < j < |s| ==> s[i] <= s[j]
  }

  /** ifExist. A true answer always follows an equality test, so it is sound on
      any array; on an ascending array the search is also complete. */
  method IfExist(arr: array?<int>, target: int) returns (r: bool)
    ensures arr == null || arr.Length == 0 ==> !r
    ensures r ==> arr != null && target in arr[..]
    ensures arr != null && Ascending(arr[..]) ==> (r <==> target in arr[..])
  {
    if arr == null || arr.Length == 0 {
      return false;
    }
    var low, high := 0, arr.Length - 1;
    while low <= high
      invariant 0 <= low && -1 <= high < arr.Length
      invariant Ascending(arr[..]) ==> forall k :: 0 <= k < arr.Length && arr[k] == target ==> low <= k <= high
      decreases high - low
    {
      if arr[low] == target || arr[high] == target {
        return true;
      }
      var middle := (low + high) / 2;
      if target == arr[middle] {
        return true;
      } else if target < arr[middle] {
        high := middle - 1;
      } else {
        low := middle + 1;
      }
    }
    return false;
  }

  /** The loop of findFirstNum as written, from the window [low, high]: it
      accepts arr[middle] once it exceeds the target and its left neighbour is
      at least the target. Whatever it returns other than -1 is an element
      greater than the target, and it returns -1 when no element of the
      window is. */
  function FirstNumLoop(s: seq<int>, target: int, low: int, high: int): (r: int)
    requires 0 <= low && high < |s|
    ensures r == -1 || (r > target && exists k :: low <= k <= high && s[k] == r)
    ensures (forall k :: low <= k <= high ==> s[k] <= target) ==> r == -1
    decreases high - low + 1
  {
    if low > high then -1
    else
      var middle := (low + high) / 2;
      if target < s[middle] && (middle == 0 || target <= s[middle - 1]) then s[middle]
      else if target > s[middle] then FirstNumLoop(s, target, middle + 1, high)
      else FirstNumLoop(s, target, low, middle - 1)
  }

  /** findFirstNum as written: -1 for a null or empty array, otherwise the loop
      over the whole array. */
  method FindFirstNumAsWritten(arr: array?<int>, target: int) returns (r: int)
    ensures arr == null || arr.Length == 0 ==> r == -1
    ensures arr != null && arr.Length > 0 ==> r == FirstNumLoop(arr[..], target, 0, arr.Length - 1)
  {
    if arr == null || arr.Length == 0 {
      return -1;
    }
    var low, high := 0, arr.Length - 1;
    while low <= high
      invariant 0 <= low && -1 <= high < arr.Length
      invariant FirstNumLoop(arr[..], target, low, high) == FirstNumLoop(arr[..], target, 0, arr.Length - 1)
      decreases high - low
    {
      var middle := (low + high) / 2;
      if target < arr[middle] && (middle == 0 || target <= arr[middle - 1]) {
        return arr[middle];
      } else if target > arr[middle] {
        low := middle + 1;
      } else {
        high := middle - 1;
      }
    }
    return -1;
  }

  /** Index of the first element greater than the target, |s| when there is none. */
  function FirstGreaterIndex(s: seq<int>, target: int): (f: nat)
    ensures f <= |s| && (f < |s| ==> s[f] > target)
    ensures forall k :: 0 <= k < f ==> s[k] <= target
  {
    if s == [] then 0
    else if s[0] > target then 0
    else 1 + FirstGreaterIndex(s[1..], target)
  }

  /** The value findFirstNum is documented to return: the first element greater
      than the target, or -1 when there is none. */
  function FirstGreater(s: seq<int>, target: int): int
  {
    var f := FirstGreaterIndex(s, target);
    if f < |s| then s[f] else -1
  }

  /** Concrete counterexample: in [1, 3, 5] the first number above 2 is 3, but
      the loop as written never accepts index 1 (its left neighbour 1 is below
      the target) and ends with -1. */
  lemma AsWrittenMissesFirst()
    ensures FirstGreater([1, 3, 5], 2) == 3
    ensures FirstNumLoop([1, 3, 5], 2, 0, 2) == -1
  {
    assert FirstGreaterIndex([1, 3, 5], 2) == 1 by {
      assert [1, 3, 5][1..] == [3, 5];
    }
    var s := [1, 3, 5];
    assert FirstNumLoop(s, 2, 0, 0) == -1 by {
      assert FirstNumLoop(s, 2, 1, 0) == -1;
    }
    assert FirstNumLoop(s, 2, 0, 2) == FirstNumLoop(s, 2, 0, 0);
  }

  /** Concrete counterexample: in [5, 6, 7] the first number above 1 is 5, but
      the loop as written returns 6, whose left neighbour is at least 1. */
  lemma AsWrittenSkipsFirst()
    ensures FirstGreater([5, 6, 7], 1) == 5
    ensures FirstNumLoop([5, 6, 7], 1, 0, 2) == 6
  {}

  /** findFirstNum with the evidently intended tests: accept arr[middle] when it
      exceeds the target and its left neighbour does not, and move right when
      arr[middle] does not exceed the target. On an ascending array it returns
      the first element greater than the target, or -1. */
  method FindFirstNum(arr: array?<int>, target: int) returns (r: int)
    ensures arr == null || arr.Length == 0 ==> r == -1
    ensures r != -1 ==> arr != null && r > target && r in arr[..]
    ensures arr != null && Ascending(arr[..]) ==> r == FirstGreater(arr[..], target)
  {
    if arr == null || arr.Length == 0 {
      return -1;
    }
    ghost var f := FirstGreaterIndex(arr[..], target);
    var low, high := 0, arr.Length - 1;
    while low <= high
      invariant 0 <= low && -1 <= high < arr.Length
      invariant Ascending(arr[..]) ==> low <= f && (f < arr.Length ==> f <= high)
      decreases high - low
    {
      var middle := (low + high) / 2;
      if target < arr[middle] && (middle == 0 || arr[middle - 1] <= target) {
        return arr[middle];
      } else if target >= arr[middle] {
        low := middle + 1;
      } else {
        high := middle - 1;
      }
    }
    return -1;
  }
}
