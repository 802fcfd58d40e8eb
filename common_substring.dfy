/** Substrings shared by the two longest-common-substring searches
    (DynamicProgramming.getCommonStr and StringUtil.findMaxCommon) and by the
    substring search of StringUtil. */
module CommonSubstring {

  /** t occurs in s starting at position p. */
  ghost predicate OccursAt(t: seq<char>, s: seq<char>, p: int)
  {
    0 <= p && p + |t| <= |s| && s[p..p + |t|] == t
  }

  ghost predicate IsSubstring(t: seq<char>, s: seq<char>)
  {
    exists p :: OccursAt(t, s, p)
  }

  ghost predicate IsCommon(t: seq<char>, a: seq<char>, b: seq<char>)
  {
    IsSubstring(t, a) && IsSubstring(t, b)
  }

  /** t is a common substring of a and b and none is longer. */
  ghost predicate IsLongestCommon(t: seq<char>, a: seq<char>, b: seq<char>)
  {
    IsCommon(t, a, b) && forall u :: IsCommon(u, a, b) ==> |u| <= |t|
  }

  /** Length of the longest common run of a and b ending just before a[i] and
      b[j]: the dynamic-programming table entry. */
  function CommonSuffix(a: seq<char>, b: seq<char>, i: nat, j: nat): (r: nat)
    requires i <= |a| && j <= |b|
    ensures r <= i && r <= j
  {
    if i == 0 || j == 0 || a[i - 1] != b[j - 1] then 0
    else CommonSuffix(a, b, i - 1, j - 1) + 1
  }

  /** The table entry is the length of a run the two strings share. */
  lemma {:induction false} CommonSuffixMatches(a: seq<char>, b: seq<char>, i: nat, j: nat)
    requires i <= |a| && j <= |b|
    ensures var r := CommonSuffix(a, b, i, j); a[i - r..i] == b[j - r..j]
  {
    if i > 0 && j > 0 && a[i - 1] == b[j - 1] {
      CommonSuffixMatches(a, b, i - 1, j - 1);
      var r := CommonSuffix(a, b, i, j);
      assert a[i - r..i] == a[i - r..i - 1] + [a[i - 1]];
      assert b[j - r..j] == b[j - r..j - 1] + [b[j - 1]];
    }
  }

  /** Any common run ending at (i, j) is no longer than the table entry. */
  lemma {:induction false} CommonSuffixAtLeast(a: seq<char>, b: seq<char>, i: nat, j: nat, len: nat)
    requires len <= i <= |a| && len <= j <= |b| && a[i - len..i] == b[j - len..j]
    ensures CommonSuffix(a, b, i, j) >= len
    decreases len
  {
    if len > 0 {
      assert a[i - 1] == a[i - len..i][len - 1] == b[j - len..j][len - 1] == b[j - 1];
      assert a[i - len..i - 1] == a[i - len..i][..len - 1];
      assert b[j - len..j - 1] == b[j - len..j][..len - 1];
      CommonSuffixAtLeast(a, b, i - 1, j - 1, len - 1);
    }
  }

  /** Length of the longest common run of a and b starting at a[i] and b[j]. */
  function CommonRun(a: seq<char>, b: seq<char>, i: nat, j: nat): (r: nat)
    requires i <= |a| && j <= |b|
    ensures i + r <= |a| && j + r <= |b|
    decreases |a| - i
  {
    if i == |a| || j == |b| || a[i] != b[j] then 0
    else CommonRun(a, b, i + 1, j + 1) + 1
  }

  /** CommonRun measures a shared run that cannot be extended. */
  lemma {:induction false} CommonRunMatches(a: seq<char>, b: seq<char>, i: nat, j: nat)
    requires i <= |a| && j <= |b|
    ensures var r := CommonRun(a, b, i, j); a[i..i + r] == b[j..j + r]
    ensures var r := CommonRun(a, b, i, j); i + r < |a| && j + r < |b| ==> a[i + r] != b[j + r]
    decreases |a| - i
  {
    if i < |a| && j < |b| && a[i] == b[j] {
      CommonRunMatches(a, b, i + 1, j + 1);
      var r := CommonRun(a, b, i, j);
      assert a[i..i + r] == [a[i]] + a[i + 1..i + r];
      assert b[j..j + r] == [b[j]] + b[j + 1..j + r];
    }
  }

  /** Any common run starting at (i, j) is no longer than CommonRun. */
  lemma {:induction false} CommonRunAtLeast(a: seq<char>, b: seq<char>, i: nat, j: nat, len: nat)
    requires i + len <= |a| && j + len <= |b| && a[i..i + len] == b[j..j + len]
    ensures CommonRun(a, b, i, j) >= len
    decreases len
  {
    if len > 0 {
      assert a[i] == a[i..i + len][0] == b[j..j + len][0] == b[j];
      assert a[i + 1..i + len] == a[i..i + len][1..] == b[j..j + len][1..] == b[j + 1..j + len];
      CommonRunAtLeast(a, b, i + 1, j + 1, len - 1);
    }
  }

  /** A run that ends where the strings end or disagree is exactly CommonRun. */
  lemma {:induction false} CommonRunExact(a: seq<char>, b: seq<char>, i: nat, j: nat, len: nat)
    requires i + len <= |a| && j + len <= |b| && a[i..i + len] == b[j..j + len]
    requires i + len == |a| || j + len == |b| || a[i + len] != b[j + len]
    ensures CommonRun(a, b, i, j) == len
  {
    CommonRunAtLeast(a, b, i, j, len);
    CommonRunMatches(a, b, i, j);
  }
}
