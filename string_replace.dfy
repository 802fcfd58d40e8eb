/** Substring search and replacement on character sequences: the
    specification of StringUtil.getIndexes and StringUtil.replace. */
module Replacement {
  import opened Wrappers
  import opened CommonSubstring

  /** Every position at or after `from` where t occurs in s, in ascending
      order: what getIndexes collects (overlapping occurrences included). */
  function Occurrences(s: seq<char>, t: seq<char>, from: nat): (ps: seq<int>)
    decreases |s| - from
  {
    if from + |t| > |s| then []
    else (if s[from..from + |t|] == t then [from] else []) + Occurrences(s, t, from + 1)
  }

  /** ps is strictly ascending. */
  ghost predicate Ascending(ps: seq<int>)
  {
    forall x, y :: 0 <= x < y < |ps| ==> ps[x] < ps[y]
  }

  /** Occurrences lists exactly the positions at or after `from` where t
      occurs, each once, in ascending order. */
  lemma {:induction false} OccurrencesMeaning(s: seq<char>, t: seq<char>, from: nat)
    ensures forall p :: p in Occurrences(s, t, from) <==> from <= p && OccursAt(t, s, p)
    ensures Ascending(Occurrences(s, t, from))
    ensures forall k :: 0 <= k < |Occurrences(s, t, from)| ==> from <= Occurrences(s, t, from)[k]
    decreases |s| - from
  {
    if from + |t| <= |s| {
      OccurrencesMeaning(s, t, from + 1);
      OccurrencesStep(s, t, from, Occurrences(s, t, from + 1));
    }
  }

  /** One step of the scan: an occurrence at `from` is listed ahead of the
      ones after it. */
  lemma OccurrencesStep(s: seq<char>, t: seq<char>, from: nat, rest: seq<int>)
    requires from + |t| <= |s| && rest == Occurrences(s, t, from + 1)
    requires forall p :: p in rest <==> from + 1 <= p && OccursAt(t, s, p)
    requires Ascending(rest)
    requires forall k :: 0 <= k < |rest| ==> from + 1 <= rest[k]
    ensures forall p :: p in Occurrences(s, t, from) <==> from <= p && OccursAt(t, s, p)
    ensures Ascending(Occurrences(s, t, from))
    ensures forall k :: 0 <= k < |Occurrences(s, t, from)| ==> from <= Occurrences(s, t, from)[k]
  {
    var x := if s[from..from + |t|] == t then [from] else [];
    assert Occurrences(s, t, from) == x + rest;
  }

  /** No two occurrences of t in s overlap. */
  ghost predicate NonOverlapping(s: seq<char>, t: seq<char>)
  {
    forall p, p' :: OccursAt(t, s, p) && OccursAt(t, s, p') && p < p' ==> p + |t| <= p'
  }

  /** The occurrences a left-to-right scan replaces: the first one at or
      after `from`, then the first one at or after its end, and so on. */
  function Greedy(s: seq<char>, t: seq<char>, from: nat): (ps: seq<int>)
    requires |t| > 0
    decreases |s| - from
  {
    if from + |t| > |s| then []
    else if s[from..from + |t|] == t then [from] + Greedy(s, t, from + |t|)
    else Greedy(s, t, from + 1)
  }

  /** Replacement of every occurrence of t by u, scanning from the left and
      resuming after each replaced occurrence; an empty u deletes. */
  function ReplaceAll(s: seq<char>, t: seq<char>, u: seq<char>): seq<char>
    requires |t| > 0
    decreases |s|
  {
    if |s| < |t| then s
    else if s[..|t|] == t then u + ReplaceAll(s[|t|..], t, u)
    else [s[0]] + ReplaceAll(s[1..], t, u)
  }

  /** ReplaceAll of a suffix that starts with t: u, then the rest after t. */
  lemma ReplaceAllMatch(s: seq<char>, t: seq<char>, u: seq<char>, from: nat)
    requires |t| > 0 && from + |t| <= |s| && s[from..from + |t|] == t
    ensures ReplaceAll(s[from..], t, u) == u + ReplaceAll(s[from + |t|..], t, u)
  {
    var r := s[from..];
    assert r[..|t|] == t && r[|t|..] == s[from + |t|..];
  }

  /** ReplaceAll of a suffix that does not start with t: its first
      character, then the rest. */
  lemma ReplaceAllSkip(s: seq<char>, t: seq<char>, u: seq<char>, from: nat)
    requires |t| > 0 && from + |t| <= |s| && s[from..from + |t|] != t
    ensures ReplaceAll(s[from..], t, u) == [s[from]] + ReplaceAll(s[from + 1..], t, u)
  {
    var r := s[from..];
    assert r[..|t|] == s[from..from + |t|] && r[1..] == s[from + 1..] && r[0] == s[from];
  }

  /** k times d, added up one at a time. */
  function Growth(k: nat, d: int): int
  {
    if k == 0 then 0 else Growth(k - 1, d) + d
  }

  lemma {:induction false} GrowthIsProduct(k: nat, d: int)
    ensures Growth(k, d) == k * d
  {
    if k > 0 {
      GrowthIsProduct(k - 1, d);
      MulStep(k - 1, d);
    }
  }

  lemma MulStep(n: int, d: int)
    ensures (n + 1) * d == n * d + d
  {
  }

  /** Each replaced occurrence changes the length by |u| - |t|. */
  lemma ReplaceAllLength(s: seq<char>, t: seq<char>, u: seq<char>)
    requires |t| > 0
    ensures |ReplaceAll(s, t, u)| == |s| + |Greedy(s, t, 0)| * (|u| - |t|)
  {
    ReplaceAllLengthFrom(s, t, u, 0);
    GrowthIsProduct(|Greedy(s, t, 0)|, |u| - |t|);
    assert s[0..] == s;
  }

  lemma {:induction false} ReplaceAllLengthFrom(s: seq<char>, t: seq<char>, u: seq<char>, from: nat)
    requires |t| > 0 && from <= |s|
    ensures |ReplaceAll(s[from..], t, u)| == |s| - from + Growth(|Greedy(s, t, from)|, |u| - |t|)
    decreases |s| - from, 1
  {
    if from + |t| <= |s| {
      if s[from..from + |t|] == t {
        LengthAfterMatch(s, t, u, from);
      } else {
        LengthAfterSkip(s, t, u, from);
      }
    } else {
      LengthAtEnd(s, t, u, from);
    }
  }

  /** A suffix shorter than t is copied as it is. */
  lemma LengthAtEnd(s: seq<char>, t: seq<char>, u: seq<char>, from: nat)
    requires |t| > 0 && from <= |s| < from + |t|
    ensures |ReplaceAll(s[from..], t, u)| == |s| - from + Growth(|Greedy(s, t, from)|, |u| - |t|)
  {
  }

  /** A replaced occurrence at `from` adds one more |u| - |t|. */
  lemma {:induction false} LengthAfterMatch(s: seq<char>, t: seq<char>, u: seq<char>, from: nat)
    requires |t| > 0 && from + |t| <= |s| && s[from..from + |t|] == t
    ensures |ReplaceAll(s[from..], t, u)| == |s| - from + Growth(|Greedy(s, t, from)|, |u| - |t|)
    decreases |s| - from, 0
  {
    ReplaceAllLengthFrom(s, t, u, from + |t|);
    ReplaceAllMatch(s, t, u, from);
    assert Greedy(s, t, from) == [from] + Greedy(s, t, from + |t|);
  }

  /** A copied character at `from` keeps its length. */
  lemma {:induction false} LengthAfterSkip(s: seq<char>, t: seq<char>, u: seq<char>, from: nat)
    requires |t| > 0 && from + |t| <= |s| && s[from..from + |t|] != t
    ensures |ReplaceAll(s[from..], t, u)| == |s| - from + Growth(|Greedy(s, t, from)|, |u| - |t|)
    decreases |s| - from, 0
  {
    ReplaceAllLengthFrom(s, t, u, from + 1);
    ReplaceAllSkip(s, t, u, from);
    assert Greedy(s, t, from) == Greedy(s, t, from + 1);
  }

  /** A text without occurrences comes back unchanged. */
  lemma {:induction false} ReplaceAllNoMatch(s: seq<char>, t: seq<char>, u: seq<char>)
    requires |t| > 0 && forall p :: !OccursAt(t, s, p)
    ensures ReplaceAll(s, t, u) == s
    decreases |s|
  {
    if |s| >= |t| {
      assert !OccursAt(t, s, 0);
      assert s[0..|t|] == s[..|t|];
      forall p ensures !OccursAt(t, s[1..], p) {
        if OccursAt(t, s[1..], p) {
          assert s[1..][p..p + |t|] == s[p + 1..p + 1 + |t|];
          assert OccursAt(t, s, p + 1);
        }
      }
      ReplaceAllNoMatch(s[1..], t, u);
      assert s == [s[0]] + s[1..];
    }
  }

  /** Replacing t by itself changes nothing. */
  lemma {:induction false} ReplaceAllSelf(s: seq<char>, t: seq<char>)
    requires |t| > 0
    ensures ReplaceAll(s, t, t) == s
    decreases |s|
  {
    if |s| >= |t| {
      if s[..|t|] == t {
        ReplaceAllSelf(s[|t|..], t);
        assert s == s[..|t|] + s[|t|..];
      } else {
        ReplaceAllSelf(s[1..], t);
        assert s == [s[0]] + s[1..];
      }
    }
  }

  /** The loop of replace over a list of start positions: each position,
      moved by the shift that the earlier replacements caused, has its m
      characters replaced by u. None when a moved position falls outside the
      text, where the source's loops index out of range or shrink the text
      below zero. */
  function SpliceEach(c: seq<char>, ps: seq<int>, m: nat, u: seq<char>, shift: int): Option<seq<char>>
    decreases |ps|
  {
    if ps == [] then Some(c)
    else
      var q := ps[0] + shift;
      if 0 <= q && q + m <= |c| then SpliceEach(c[..q] + u + c[q + m..], ps[1..], m, u, shift + |u| - m)
      else None
  }

  /** ps with d added to every position: the source's adjustment of the
      positions still to be processed. */
  function Shifted(ps: seq<int>, d: int): (r: seq<int>)
    ensures |r| == |ps| && forall k :: 0 <= k < |ps| ==> r[k] == ps[k] + d
  {
    seq(|ps|, k requires 0 <= k < |ps| => ps[k] + d)
  }

  /** Adjusting the stored positions by d is the same as carrying d in the shift. */
  lemma {:induction false} SpliceEachShifted(c: seq<char>, ps: seq<int>, m: nat, u: seq<char>, shift: int, d: int)
    ensures SpliceEach(c, Shifted(ps, d), m, u, shift) == SpliceEach(c, ps, m, u, shift + d)
    decreases |ps|
  {
    if ps != [] {
      assert Shifted(ps, d)[1..] == Shifted(ps[1..], d);
      var q := ps[0] + shift + d;
      if 0 <= q && q + m <= |c| {
        SpliceEachShifted(c[..q] + u + c[q + m..], ps[1..], m, u, shift + |u| - m, d);
      }
    }
  }

  /** One step of SpliceEach: the first listed position, moved to q, is
      spliced, giving c'. */
  lemma SpliceEachHead(c: seq<char>, p: int, g: seq<int>, m: nat, u: seq<char>, shift: int, q: int, shift': int, c': seq<char>)
    requires q == p + shift && 0 <= q && q + m <= |c| && shift' == shift + |u| - m
    requires c' == c[..q] + u + c[q + m..]
    ensures SpliceEach(c, [p] + g, m, u, shift) == SpliceEach(c', g, m, u, shift')
  {
    assert ([p] + g)[0] == p && ([p] + g)[1..] == g;
  }

  /** One pass of the source's replace loop: the first position is spliced
      and the positions still to come are moved by the change in length, so
      the rest of the splicing starts again from shift 0. */
  lemma SpliceEachStep(c: seq<char>, ps: seq<int>, m: nat, u: seq<char>, r: seq<char>)
    requires ps != [] && SpliceEach(c, ps, m, u, 0) == Some(r)
    ensures 0 <= ps[0] && ps[0] + m <= |c|
    ensures SpliceEach(c[..ps[0]] + u + c[ps[0] + m..], Shifted(ps[1..], |u| - m), m, u, 0) == Some(r)
  {
    SpliceEachShifted(c[..ps[0]] + u + c[ps[0] + m..], ps[1..], m, u, 0, |u| - m);
  }

  /** Splicing at the greedy positions is the left-to-right replacement:
      whatever has been produced so far (`done`) followed by the rest of s
      becomes `done` followed by the replacement of the rest. */
  lemma {:induction false} SpliceEachGreedy(s: seq<char>, t: seq<char>, u: seq<char>, done: seq<char>, from: nat)
    requires |t| > 0 && from <= |s|
    ensures SpliceEach(done + s[from..], Greedy(s, t, from), |t|, u, |done| - from)
            == Some(done + ReplaceAll(s[from..], t, u))
    decreases |s| - from, 1
  {
    if from + |t| > |s| {
      assert Greedy(s, t, from) == [] && ReplaceAll(s[from..], t, u) == s[from..];
    } else if s[from..from + |t|] == t {
      SpliceEachGreedyMatch(s, t, u, done, from);
    } else {
      SpliceEachGreedySkip(s, t, u, done, from);
    }
  }

  /** SpliceEachGreedy when t occurs at `from`: both sides replace it. */
  lemma {:induction false} SpliceEachGreedyMatch(s: seq<char>, t: seq<char>, u: seq<char>, done: seq<char>, from: nat)
    requires |t| > 0 && from + |t| <= |s| && s[from..from + |t|] == t
    ensures SpliceEach(done + s[from..], Greedy(s, t, from), |t|, u, |done| - from)
            == Some(done + ReplaceAll(s[from..], t, u))
    decreases |s| - from, 0
  {
    var rest := s[from + |t|..];
    var g := Greedy(s, t, from + |t|);
    assert s[from..] == t + rest;
    assert Greedy(s, t, from) == [from] + g;
    SpliceShape(done, t, rest, u);
    SpliceFront(done, t, rest, from, g, u);
    SpliceEachGreedy(s, t, u, done + u, from + |t|);
    ReplaceAllMatch(s, t, u, from);
    AppendAssoc(done, u, ReplaceAll(rest, t, u));
  }

  /** Splicing at the front of what is left after `done`. */
  lemma SpliceFront(done: seq<char>, t: seq<char>, rest: seq<char>, from: int, g: seq<int>, u: seq<char>)
    requires done + u + rest == (done + (t + rest))[..|done|] + u + (done + (t + rest))[|done| + |t|..]
    ensures SpliceEach(done + (t + rest), [from] + g, |t|, u, |done| - from)
            == SpliceEach(done + u + rest, g, |t|, u, |done + u| - (from + |t|))
  {
    SpliceEachHead(done + (t + rest), from, g, |t|, u, |done| - from, |done|, |done + u| - (from + |t|), done + u + rest);
  }

  lemma SpliceShape(done: seq<char>, t: seq<char>, rest: seq<char>, u: seq<char>)
    ensures done + u + rest == (done + (t + rest))[..|done|] + u + (done + (t + rest))[|done| + |t|..]
  {
    var c := done + (t + rest);
    assert c[..|done|] == done && c[|done| + |t|..] == rest;
  }

  /** SpliceEachGreedy when t does not occur at `from`: both sides copy s[from]. */
  lemma {:induction false} SpliceEachGreedySkip(s: seq<char>, t: seq<char>, u: seq<char>, done: seq<char>, from: nat)
    requires |t| > 0 && from + |t| <= |s| && s[from..from + |t|] != t
    ensures SpliceEach(done + s[from..], Greedy(s, t, from), |t|, u, |done| - from)
            == Some(done + ReplaceAll(s[from..], t, u))
    decreases |s| - from, 0
  {
    var done' := done + [s[from]];
    SkipShape(s, done, from);
    ReplaceAllSkip(s, t, u, from);
    assert Greedy(s, t, from) == Greedy(s, t, from + 1);
    SpliceEachGreedy(s, t, u, done', from + 1);
    AppendAssoc(done, [s[from]], ReplaceAll(s[from + 1..], t, u));
  }

  /** Moving the first character of what is left onto what is done. */
  lemma SkipShape(s: seq<char>, done: seq<char>, from: nat)
    requires from < |s|
    ensures done + s[from..] == (done + [s[from]]) + s[from + 1..]
  {
    assert s[from..] == [s[from]] + s[from + 1..];
  }

  lemma AppendAssoc(a: seq<char>, b: seq<char>, c: seq<char>)
    ensures a + (b + c) == (a + b) + c
  {
  }

  /** The corrected replace: the listed positions with every one dropped that
      starts before the end of the last one kept. */
  function DropOverlaps(ps: seq<int>, m: nat, next: int): (r: seq<int>)
    ensures |r| <= |ps|
  {
    if ps == [] then []
    else if ps[0] >= next then [ps[0]] + DropOverlaps(ps[1..], m, ps[0] + m)
    else DropOverlaps(ps[1..], m, next)
  }

  /** Occurrences before `next` are all dropped. */
  lemma {:induction false} DropOverlapsSkip(s: seq<char>, t: seq<char>, from: nat, next: nat)
    requires from <= next
    ensures DropOverlaps(Occurrences(s, t, from), |t|, next) == DropOverlaps(Occurrences(s, t, next), |t|, next)
    decreases next - from
  {
    if from < next {
      if from + |t| <= |s| {
        var x := if s[from..from + |t|] == t then [from] else [];
        var rest := Occurrences(s, t, from + 1);
        assert Occurrences(s, t, from) == x + rest;
        assert DropOverlaps(x + rest, |t|, next) == DropOverlaps(rest, |t|, next) by {
          if x != [] {
            assert (x + rest)[0] == from && (x + rest)[1..] == rest;
          } else {
            assert x + rest == rest;
          }
        }
        DropOverlapsSkip(s, t, from + 1, next);
      } else {
        assert Occurrences(s, t, next) == [];
      }
    }
  }

  /** A threshold below every listed position keeps the first one either way. */
  lemma DropOverlapsLow(ps: seq<int>, m: nat, a: int, b: int)
    requires b <= a && forall k :: 0 <= k < |ps| ==> a <= ps[k]
    ensures DropOverlaps(ps, m, a) == DropOverlaps(ps, m, b)
  {
  }

  /** An occurrence at `from` is kept, and everything before its end is
      dropped, just as the greedy scan jumps past it. */
  lemma DropOverlapsMatch(s: seq<char>, t: seq<char>, from: nat)
    requires |t| > 0 && from + |t| <= |s| && s[from..from + |t|] == t
    requires DropOverlaps(Occurrences(s, t, from + |t|), |t|, from + |t|) == Greedy(s, t, from + |t|)
    ensures DropOverlaps(Occurrences(s, t, from), |t|, from) == Greedy(s, t, from)
  {
    var rest := Occurrences(s, t, from + 1);
    assert Occurrences(s, t, from) == [from] + rest;
    assert ([from] + rest)[1..] == rest;
    assert DropOverlaps([from] + rest, |t|, from) == [from] + DropOverlaps(rest, |t|, from + |t|);
    DropOverlapsSkip(s, t, from + 1, from + |t|);
    assert Greedy(s, t, from) == [from] + Greedy(s, t, from + |t|);
  }

  /** Without an occurrence at `from`, the threshold can move past it, just
      as the greedy scan does. */
  lemma DropOverlapsMiss(s: seq<char>, t: seq<char>, from: nat)
    requires |t| > 0 && from + |t| <= |s| && s[from..from + |t|] != t
    requires DropOverlaps(Occurrences(s, t, from + 1), |t|, from + 1) == Greedy(s, t, from + 1)
    ensures DropOverlaps(Occurrences(s, t, from), |t|, from) == Greedy(s, t, from)
  {
    var rest := Occurrences(s, t, from + 1);
    assert Occurrences(s, t, from) == rest;
    OccurrencesMeaning(s, t, from + 1);
    DropOverlapsLow(rest, |t|, from + 1, from);
    assert Greedy(s, t, from) == Greedy(s, t, from + 1);
  }

  /** Dropping the overlapping occurrences leaves the greedy ones. */
  lemma {:induction false} DropOverlapsGreedy(s: seq<char>, t: seq<char>, from: nat)
    requires |t| > 0
    ensures DropOverlaps(Occurrences(s, t, from), |t|, from) == Greedy(s, t, from)
    decreases |s| - from
  {
    if from + |t| <= |s| {
      if s[from..from + |t|] == t {
        DropOverlapsGreedy(s, t, from + |t|);
        DropOverlapsMatch(s, t, from);
      } else {
        DropOverlapsGreedy(s, t, from + 1);
        DropOverlapsMiss(s, t, from);
      }
    }
  }

  /** A list whose positions are already spaced at least m apart, starting at
      or after `next`, loses nothing. */
  lemma {:induction false} DropOverlapsSpaced(ps: seq<int>, m: nat, next: int)
    requires forall k :: 0 <= k < |ps| - 1 ==> ps[k] + m <= ps[k + 1]
    requires ps != [] ==> next <= ps[0]
    ensures DropOverlaps(ps, m, next) == ps
    decreases |ps|
  {
    if ps != [] {
      DropOverlapsSpaced(ps[1..], m, ps[0] + m);
    }
  }

  /** The replacement the source's loops perform: splicing at every listed
      occurrence, overlapping ones included. */
  function ReplaceAsWritten(s: seq<char>, t: seq<char>, u: seq<char>): Option<seq<char>>
  {
    SpliceEach(s, Occurrences(s, t, 0), |t|, u, 0)
  }

  /** The corrected replacement: splicing at the occurrences left once the
      overlapping ones are dropped. */
  function ReplaceCorrected(s: seq<char>, t: seq<char>, u: seq<char>): Option<seq<char>>
  {
    SpliceEach(s, DropOverlaps(Occurrences(s, t, 0), |t|, 0), |t|, u, 0)
  }

  /** The corrected replacement is the left-to-right replacement of every
      occurrence, on every text. */
  lemma ReplaceCorrectedIsReplaceAll(s: seq<char>, t: seq<char>, u: seq<char>)
    requires |t| > 0
    ensures ReplaceCorrected(s, t, u) == Some(ReplaceAll(s, t, u))
  {
    DropOverlapsGreedy(s, t, 0);
    SpliceEachGreedy(s, t, u, [], 0);
    assert [] + s[0..] == s && [] + ReplaceAll(s[0..], t, u) == ReplaceAll(s, t, u);
  }

  /** Without overlapping occurrences the source's replacement is already
      the left-to-right replacement of every occurrence. */
  lemma AsWrittenWithoutOverlap(s: seq<char>, t: seq<char>, u: seq<char>)
    requires |t| > 0 && NonOverlapping(s, t)
    ensures ReplaceAsWritten(s, t, u) == Some(ReplaceAll(s, t, u))
  {
    var ps := Occurrences(s, t, 0);
    OccurrencesMeaning(s, t, 0);
    forall k | 0 <= k < |ps| - 1 ensures ps[k] + |t| <= ps[k + 1] {
      assert ps[k] in ps && ps[k + 1] in ps;
    }
    DropOverlapsSpaced(ps, |t|, 0);
    ReplaceCorrectedIsReplaceAll(s, t, u);
  }

  /** Overlapping occurrences break the source's replacement: replacing "aa"
      by "b" in "aaa" gives "b" where "ba" is meant, and deleting "aa" from
      "aaa" moves the second position to -1 (the source then shrinks the
      text to a negative size). */
  lemma ReplaceOverlapCounterexample()
    ensures ReplaceAsWritten("aaa", "aa", "b") == Some("b")
    ensures ReplaceAll("aaa", "aa", "b") == "ba"
    ensures ReplaceAsWritten("aaa", "aa", "") == None
  {
    var s, t := "aaa", "aa";
    assert Occurrences(s, t, 2) == [];
    assert Occurrences(s, t, 1) == [1];
    assert Occurrences(s, t, 0) == [0, 1];
    assert SpliceEach("a", [], 2, "b", 0) == Some("a");
    assert "ba"[..0] + "b" + "ba"[2..] == "b";
    assert SpliceEach("ba", [1], 2, "b", -1) == Some("b");
    assert s[..0] + "b" + s[2..] == "ba";
    assert ReplaceAll("a", t, "b") == "a";
    assert s[..2] == t && s[2..] == "a";
    assert s[..0] + "" + s[2..] == "a";
    assert SpliceEach("a", [1], 2, "", -2) == None;
  }
}
