/** HashTableUtil: a per-key submission counter kept in a map, and the
    two-sum search over an array of distinct values. */
module HashTableUtil {
  import opened Wrappers
  import opened ModArith

  /** Number of occurrences of k in the submission history h. */
  function Count(h: seq<string>, k: string): (c: nat)
    ensures c <= |h|
    ensures c > 0 <==> k in h
  {
    if h == [] then 0
    else Count(h[..|h| - 1], k) + (if h[|h| - 1] == k then 1 else 0)
  }

  class HashTable {
    var counts: map<string, int>
    /** Every non-null key submitted so far, oldest first. */
    ghost var history: seq<string>

    /** The map holds, for every key ever submitted, its number of submissions. */
    ghost predicate Valid()
      reads this
    {
      forall k :: (k in counts <==> k in history) && (k in counts ==> counts[k] == Count(history, k))
    }

    constructor ()
      ensures Valid() && counts == map[] && history == []
    {
      counts := map[];
      history := [];
    }

    /** calcKeySubmit: -1 for a null key; otherwise the key's new count. */
    method CalcKeySubmit(key: Option<string>) returns (r: int)
      requires Valid()
      modifies this
      ensures Valid()
      ensures key.None? ==> r == -1 && counts == old(counts) && history == old(history)
      ensures key.Some? ==> history == old(history) + [key.value] && r == Count(history, key.value)
      ensures key.Some? ==> r == (if key.value in old(counts) then old(counts)[key.value] + 1 else 1)
      ensures key.Some? ==> counts == old(counts)[key.value := r]
    {
      if key.None? {
        return -1;
      }
      var k := key.value;
      r := if k in counts then counts[k] + 1 else 1;
      counts := counts[k := r];
      history := history + [k];
      assert history[..|history| - 1] == old(history);
    }
  }

  /** What one step of findTwoSum prints: a matching pair (value and index of
      the current element, value and index of its earlier partner), or the
      duplicate-element message after which it stops. */
  datatype Line = Answer(value1: int, index1: nat, value2: int, index2: nat) | Duplicate

  /** The value-to-index map findTwoSum has built after reading s: each value
      maps to its latest index. */
  function IndexMap(s: seq<int>): map<int, nat>
  {
    if s == [] then map[] else IndexMap(s[..|s| - 1])[s[|s| - 1] := |s| - 1]
  }

  /** The map's keys are exactly the values of s. */
  lemma {:induction false} IndexMapKeys(s: seq<int>, v: int)
    ensures v in IndexMap(s) <==> v in s
  {
    if s != [] {
      var t := s[..|s| - 1];
      IndexMapKeys(t, v);
      assert s == t + [s[|s| - 1]];
    }
  }

  /** Each value maps to the last index holding it. */
  lemma {:induction false} IndexMapIndex(s: seq<int>, v: int)
    requires v in IndexMap(s)
    ensures IndexMap(s)[v] < |s| && s[IndexMap(s)[v]] == v
    ensures forall i :: IndexMap(s)[v] < i < |s| ==> s[i] != v
  {
    var t := s[..|s| - 1];
    if s[|s| - 1] != v {
      IndexMapIndex(t, v);
    }
  }

  /** The first index whose value already occurs earlier, or |s| if none. */
  function FirstRepeat(s: seq<int>, from: nat): (r: nat)
    requires from <= |s|
    ensures from <= r <= |s|
    ensures r < |s| ==> s[r] in s[..r]
    ensures forall i :: from <= i < r ==> s[i] !in s[..i]
    decreases |s| - from
  {
    if from == |s| then |s|
    else if s[from] in s[..from] then from
    else FirstRepeat(s, from + 1)
  }

  /** The answer printed at index i, if any: the partner value target - s[i]
      (in 32-bit arithmetic) must occur before i. */
  function AnswerAt(s: seq<int>, target: int, i: nat): seq<Line>
    requires i < |s|
  {
    var other := Wrap(target - s[i]);
    var seen := IndexMap(s[..i]);
    if other in seen then [Answer(s[i], i, other, seen[other])] else []
  }

  /** The answers printed for the indices below n, in index order. */
  function Answers(s: seq<int>, target: int, n: nat): seq<Line>
    requires n <= |s|
  {
    if n == 0 then [] else Answers(s, target, n - 1) + AnswerAt(s, target, n - 1)
  }

  /** Everything findTwoSum prints for an array it does not reject. */
  function TwoSumOutput(s: seq<int>, target: int): seq<Line>
  {
    var stop := FirstRepeat(s, 0);
    Answers(s, target, stop) + (if stop < |s| then [Duplicate] else [])
  }

  /** Every printed pair is a pair of distinct earlier/later indices whose
      values sum to the target in 32-bit arithmetic. */
  lemma {:induction false} AnswersSound(s: seq<int>, target: int, n: nat)
    requires n <= |s| && INT_MIN <= target <= INT_MAX
    requires forall k :: 0 <= k < |s| ==> INT_MIN <= s[k] <= INT_MAX
    ensures forall l :: l in Answers(s, target, n) ==>
              l.Answer? && l.index2 < l.index1 < n && s[l.index1] == l.value1
              && s[l.index2] == l.value2 && Wrap(l.value1 + l.value2) == target
  {
    if n > 0 {
      AnswersSound(s, target, n - 1);
      var i := n - 1;
      var other := Wrap(target - s[i]);
      if other in IndexMap(s[..i]) {
        IndexMapIndex(s[..i], other);
        WrapAdd(s[i], target - s[i]);
      }
    }
  }

  /** Every pair is printed: for indices j < i below n, where n does not pass
      the first repeated value, whose values sum to the target in 32-bit
      arithmetic, the answer (s[i], i, s[j], j) is among the first n answers. */
  lemma {:induction false} AnswersComplete(s: seq<int>, target: int, n: nat, i: nat, j: nat)
    requires n <= FirstRepeat(s, 0) && j < i < n
    requires forall k :: 0 <= k < |s| ==> INT_MIN <= s[k] <= INT_MAX
    requires Wrap(s[i] + s[j]) == target
    ensures Answer(s[i], i, s[j], j) in Answers(s, target, n)
  {
    if i < n - 1 {
      AnswersComplete(s, target, n - 1, i, j);
    } else {
      var t := s[..i];
      WrapAdd(target, -s[i]);
      WrapAdd(s[i] + s[j], -s[i]);
      assert Wrap(target - s[i]) == s[j];
      assert t[j] == s[j];
      IndexMapKeys(t, s[j]);
      IndexMapIndex(t, s[j]);
      assert AnswerAt(s, target, i) == [Answer(s[i], i, s[j], j)];
    }
  }

  /** findTwoSum's whole output holds every pair before the first repeated
      value whose values sum to the target in 32-bit arithmetic. */
  lemma OutputComplete(s: seq<int>, target: int, i: nat, j: nat)
    requires j < i < FirstRepeat(s, 0)
    requires forall k :: 0 <= k < |s| ==> INT_MIN <= s[k] <= INT_MAX
    requires Wrap(s[i] + s[j]) == target
    ensures Answer(s[i], i, s[j], j) in TwoSumOutput(s, target)
  {
    AnswersComplete(s, target, FirstRepeat(s, 0), i, j);
  }

  /** One pass of findTwoSum's loop at a fresh value: the answer for index
      i is printed and i is entered into the map. */
  lemma TwoSumStep(s: seq<int>, target: int, i: nat, seen: map<int, nat>, out: seq<Line>)
    requires i < |s| && seen == IndexMap(s[..i]) && out == Answers(s, target, i)
    ensures var other := Wrap(target - s[i]);
            Answers(s, target, i + 1)
            == out + if other in seen then [Answer(s[i], i, other, seen[other])] else []
    ensures IndexMap(s[..i + 1]) == seen[s[i] := i]
  {
    assert s[..i + 1][..i] == s[..i];
  }

  /** Where findTwoSum's loop stops (the end, or the first repeated value),
      what it has printed so far completes its whole output. */
  lemma TwoSumStop(s: seq<int>, target: int, i: nat, out: seq<Line>)
    requires i <= |s| && FirstRepeat(s, 0) == FirstRepeat(s, i) && out == Answers(s, target, i)
    requires i == |s| || s[i] in s[..i]
    ensures out + (if i < |s| then [Duplicate] else []) == TwoSumOutput(s, target)
  {
  }

  /** findTwoSum: nothing for a null array, one shorter than 2 or a target
      below 1; otherwise, scanning left to right, the pairs found before the
      first repeated value, then the duplicate message if there is one. */
  method FindTwoSum(arr: array?<int>, target: int) returns (out: seq<Line>)
    requires arr != null ==> forall i :: 0 <= i < arr.Length ==> INT_MIN <= arr[i] <= INT_MAX
    requires INT_MIN <= target <= INT_MAX
    ensures arr == null || arr.Length < 2 || target < 1 ==> out == []
    ensures arr != null && arr.Length >= 2 && target >= 1 ==> out == TwoSumOutput(arr[..], target)
  {
    out := [];
    if arr == null || arr.Length < 2 {
      return;
    }
    if target < 1 {
      return;
    }
    var seen: map<int, nat> := map[];
    ghost var s := arr[..];
    var i := 0;
    while i < arr.Length
      invariant 0 <= i <= arr.Length && FirstRepeat(s, 0) == FirstRepeat(s, i)
      invariant seen == IndexMap(s[..i])
      invariant out == Answers(s, target, i)
    {
      var other := Wrap(target - arr[i]);
      IndexMapKeys(s[..i], arr[i]);
      if arr[i] in seen {
        TwoSumStop(s, target, i, out);
        out := out + [Duplicate];
        return;
      }
      TwoSumStep(s, target, i, seen, out);
      if other in seen {
        out := out + [Answer(arr[i], i, other, seen[other])];
      }
      seen := seen[arr[i] := i];
      i := i + 1;
    }
    TwoSumStop(s, target, i, out);
  }
}
