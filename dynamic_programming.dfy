/** DynamicProgramming.getCommonStr: the longest common substring of two
    strings through a table of common-suffix lengths. */
module DynamicProgramming {
  import opened CommonSubstring

  /** Some common substring of length len ends just before a[e]. */
  ghost predicate CommonEndsAt(a: seq<char>, b: seq<char>, len: nat, e: nat)
    requires len <= e <= |a|
  {
    IsSubstring(a[e - len..e], b)
  }

  /** r ends just before a[e], and no common substring as long as r ends earlier. */
  ghost predicate EarliestEnd(r: seq<char>, a: seq<char>, b: seq<char>, e: nat)
  {
    |r| <= e <= |a| && r == a[e - |r|..e] &&
    forall e' :: |r| <= e' < e ==> !CommonEndsAt(a, b, |r|, e')
  }

  /** What the scan over the finished table establishes: maxLen is the largest
      entry, it sits at (index, col), and every row above `index` stays below it. */
  ghost predicate ScanResult(a: seq<char>, b: seq<char>, maxLen: nat, index: nat, col: nat)
  {
    && index <= |a| && col <= |b| && CommonSuffix(a, b, index, col) == maxLen
    && (forall i, j :: 0 <= i <= |a| && 0 <= j <= |b| ==> CommonSuffix(a, b, i, j) <= maxLen)
    && (forall i, j :: 0 <= i < index && 0 <= j <= |b| ==> CommonSuffix(a, b, i, j) < maxLen)
  }

  /** The substring the scan selects is a longest common substring. */
  lemma ScanResultIsLongest(a: seq<char>, b: seq<char>, maxLen: nat, index: nat, col: nat)
    requires ScanResult(a, b, maxLen, index, col)
    ensures maxLen <= index && IsLongestCommon(a[index - maxLen..index], a, b)
  {
    var r := a[index - maxLen..index];
    CommonSuffixMatches(a, b, index, col);
    assert OccursAt(r, a, index - maxLen);
    assert OccursAt(r, b, col - maxLen);
    forall u | IsCommon(u, a, b) ensures |u| <= |r| {
      var p :| OccursAt(u, a, p);
      var q :| OccursAt(u, b, q);
      CommonSuffixAtLeast(a, b, p + |u|, q + |u|, |u|);
    }
  }

  /** No common substring as long as the selected one ends earlier in a. */
  lemma ScanResultIsEarliest(a: seq<char>, b: seq<char>, maxLen: nat, index: nat, col: nat)
    requires ScanResult(a, b, maxLen, index, col) && maxLen <= index
    ensures EarliestEnd(a[index - maxLen..index], a, b, index)
  {
    forall e | maxLen <= e < index ensures !CommonEndsAt(a, b, maxLen, e) {
      if CommonEndsAt(a, b, maxLen, e) {
        var q :| OccursAt(a[e - maxLen..e], b, q);
        CommonSuffixAtLeast(a, b, e, q + maxLen, maxLen);
        assert false;
      }
    }
  }

  /** getCommonStr: fills the table row by row, scans it for the first
      strictly largest entry, and copies the run of str1 ending at that row.
      The result is a longest common substring (empty when no character is
      shared) and, among those, the one ending earliest in str1. */
  method GetCommonStr(str1: string, str2: string) returns (r: string)
    ensures IsLongestCommon(r, str1, str2)
    ensures exists e :: EarliestEnd(r, str1, str2, e)
  {
    var strategies := FillTable(str1, str2);
    var maxLen, index, col := ScanTable(strategies, str1, str2);
    ScanResultIsLongest(str1, str2, maxLen, index, col);
    ScanResultIsEarliest(str1, str2, maxLen, index, col);
    r := [];
    for k := index - maxLen to index
      invariant r == str1[index - maxLen..k]
    {
      r := r + [str1[k]];
    }
  }

  /** The table-filling loops: entry [i, j] becomes the common-suffix length
      of str1[..i] and str2[..j]; row 0 and column 0 stay 0. */
  method FillTable(str1: string, str2: string) returns (strategies: array2<int>)
    ensures fresh(strategies)
    ensures strategies.Length0 == |str1| + 1 && strategies.Length1 == |str2| + 1
    ensures forall a, b :: 0 <= a <= |str1| && 0 <= b <= |str2| ==>
              strategies[a, b] == CommonSuffix(str1, str2, a, b)
  {
    var n1, n2 := |str1|, |str2|;
    strategies := new int[n1 + 1, n2 + 1]((i, j) => 0);
    for i := 1 to n1 + 1
      invariant forall a, b :: 0 <= a <= n1 && 0 <= b <= n2 ==>
                  strategies[a, b] == if a < i then CommonSuffix(str1, str2, a, b) else 0
    {
      for j := 1 to n2 + 1
        invariant forall a, b :: 0 <= a <= n1 && 0 <= b <= n2 ==>
                    strategies[a, b] == if a < i || (a == i && b < j) then CommonSuffix(str1, str2, a, b) else 0
      {
        if str1[i - 1] == str2[j - 1] {
          strategies[i, j] := strategies[i - 1, j - 1] + 1;
        }
      }
    }
  }

  /** The scan loops: the first strictly largest entry in row-major order,
      with its row kept as `index`. */
  method ScanTable(strategies: array2<int>, str1: string, str2: string)
    returns (maxLen: nat, index: nat, ghost col: nat)
    requires strategies.Length0 == |str1| + 1 && strategies.Length1 == |str2| + 1
    requires forall a, b :: 0 <= a <= |str1| && 0 <= b <= |str2| ==>
               strategies[a, b] == CommonSuffix(str1, str2, a, b)
    ensures ScanResult(str1, str2, maxLen, index, col)
  {
    var n1, n2 := |str1|, |str2|;
    maxLen, index, col := 0, 0, 0;
    for i := 0 to n1 + 1
      invariant index <= n1 && col <= n2 && strategies[index, col] == maxLen
      invariant forall a, b :: 0 <= a < i && 0 <= b <= n2 ==> strategies[a, b] <= maxLen
      invariant forall a, b :: 0 <= a < index && 0 <= b <= n2 ==> strategies[a, b] < maxLen
    {
      for j := 0 to n2 + 1
        invariant index <= n1 && col <= n2 && strategies[index, col] == maxLen
        invariant forall a, b :: 0 <= a <= n1 && 0 <= b <= n2 && (a < i || (a == i && b < j)) ==> strategies[a, b] <= maxLen
        invariant forall a, b :: 0 <= a < index && 0 <= b <= n2 ==> strategies[a, b] < maxLen
      {
        if strategies[i, j] > maxLen {
          maxLen, index, col := strategies[i, j], i, j;
        }
      }
    }
  }
}
