/**
 * Rust's `str::split` with a non-empty string pattern, as `parse_peer_id` uses it:
 * a left-to-right scan that cuts the text at each match it finds, resumes after
 * that match (so matches never overlap), and yields the pieces in between.
 * `slice::last` is `Last`.
 */
module StrSplit {
  import opened Wrappers

  /** `pat` occurs in `s` starting at index `i`. */
  predicate MatchAt(s: string, pat: string, i: int) {
    0 <= i && i + |pat| <= |s| && s[i..i + |pat|] == pat
  }

  /** `pat` occurs somewhere in `s`. */
  ghost predicate Contains(s: string, pat: string) {
    exists j: nat :: MatchAt(s, pat, j)
  }

  predicate EndsWith(s: string, suffix: string) {
    |suffix| <= |s| && s[|s| - |suffix|..] == suffix
  }

  /** The searcher: the position of the next match at or after `from`. */
  function FindFrom(s: string, pat: string, from: nat): (r: Option<nat>)
    ensures r.Some? ==> from <= r.value && r.value + |pat| <= |s|
    decreases |s| - from
  {
    if from + |pat| > |s| then None
    else if MatchAt(s, pat, from) then Some(from)
    else FindFrom(s, pat, from + 1)
  }

  /** The searcher finds the leftmost match at or after `from`, or reports that none exists. */
  lemma {:induction false} FindFromLeftmost(s: string, pat: string, from: nat)
    ensures var r := FindFrom(s, pat, from);
      && (r.Some? ==> MatchAt(s, pat, r.value))
      && (r.Some? ==> forall j: nat :: from <= j < r.value ==> !MatchAt(s, pat, j))
      && (r.None? ==> forall j: nat :: from <= j ==> !MatchAt(s, pat, j))
    decreases |s| - from
  {
    if from + |pat| <= |s| && !MatchAt(s, pat, from) {
      FindFromLeftmost(s, pat, from + 1);
    }
  }

  /** `slice::join`: the inverse of `Split`. */
  function Join(parts: seq<string>, pat: string): string {
    if |parts| == 0 then ""
    else if |parts| == 1 then parts[0]
    else parts[0] + pat + Join(parts[1..], pat)
  }

  /**
   * `s.split(pat).collect::<Vec<_>>()`: never empty. `SplitSingleIffAbsent`,
   * `SplitJoin` and `SplitPiecesFree` show that there is a single piece exactly
   * when `pat` does not occur, that the pieces put back together give `s`, and
   * that none contains `pat`.
   */
  function Split(s: string, pat: string): (parts: seq<string>)
    requires |pat| > 0
    ensures |parts| >= 1
    decreases |s|
  {
    match FindFrom(s, pat, 0)
    case None => [s]
    case Some(i) => [s[..i]] + Split(s[i + |pat|..], pat)
  }

  /** A split has a single piece exactly when the pattern does not occur. */
  lemma SplitSingleIffAbsent(s: string, pat: string)
    requires |pat| > 0
    ensures |Split(s, pat)| == 1 <==> !Contains(s, pat)
  {
    FoundIffContains(s, pat);
    match FindFrom(s, pat, 0)
    case None =>
    case Some(i) => SplitAtFirstCut(s, pat, i);
  }

  /** No piece of a split contains the pattern. */
  lemma {:induction false} SplitPiecesFree(s: string, pat: string)
    requires |pat| > 0
    ensures forall k :: 0 <= k < |Split(s, pat)| ==> !Contains(Split(s, pat)[k], pat)
    decreases |s|
  {
    match FindFrom(s, pat, 0)
    case None => FoundIffContains(s, pat);
    case Some(i) =>
      SplitPiecesFree(s[i + |pat|..], pat);
      FindFromLeftmost(s, pat, 0);
      NoMatchInPrefix(s, pat, i);
      SplitAtFirstCut(s, pat, i);
  }

  /** Joining the pieces of a split with the pattern gives back the text. */
  lemma {:induction false} SplitJoin(s: string, pat: string)
    requires |pat| > 0
    ensures Join(Split(s, pat), pat) == s
    decreases |s|
  {
    match FindFrom(s, pat, 0)
    case None =>
    case Some(i) =>
      var rest := s[i + |pat|..];
      SplitJoin(rest, pat);
      SplitAtFirstCut(s, pat, i);
      JoinCons(s[..i], Split(rest, pat), pat);
      FindFromLeftmost(s, pat, 0);
      CutAtMatch(s, pat, i);
  }

  /** The scan's first cut yields the text before it, then the split of the rest. */
  lemma SplitAtFirstCut(s: string, pat: string, i: nat)
    requires |pat| > 0 && FindFrom(s, pat, 0) == Some(i)
    ensures Split(s, pat) == [s[..i]] + Split(s[i + |pat|..], pat)
  {
  }

  lemma JoinCons(first: string, rest: seq<string>, pat: string)
    requires |rest| >= 1
    ensures Join([first] + rest, pat) == first + pat + Join(rest, pat)
  {
    assert ([first] + rest)[1..] == rest;
  }

  /** `slice::last`. */
  function Last<T>(xs: seq<T>): (r: Option<T>)
    ensures r.Some? <==> |xs| > 0
    ensures r.Some? ==> r.value == xs[|xs| - 1]
  {
    if |xs| == 0 then None else Some(xs[|xs| - 1])
  }

  /** The text after the final match the scan finds: what `parts.last()` returns. */
  function LastSegment(s: string, pat: string): (seg: string)
    requires |pat| > 0
    ensures Last(Split(s, pat)) == Some(seg)
  {
    var parts := Split(s, pat);
    parts[|parts| - 1]
  }

  /**
   * The last segment is a suffix of `s` free of `pat`: all of `s` when `pat`
   * does not occur, otherwise directly preceded by a match.
   */
  lemma LastSegmentShape(s: string, pat: string)
    requires |pat| > 0
    ensures var seg := LastSegment(s, pat);
      && !Contains(seg, pat)
      && |seg| <= |s| && s[|s| - |seg|..] == seg
      && (!Contains(s, pat) ==> seg == s)
      && (Contains(s, pat) ==> |seg| + |pat| <= |s| && MatchAt(s, pat, |s| - |seg| - |pat|))
  {
    SplitSingleIffAbsent(s, pat);
    LastPieceFacts(s, pat);
    SplitPiecesFree(s, pat);
  }

  /** Without a match the split yields the whole text, which is then the last segment. */
  lemma LastSegmentWhenAbsent(s: string, pat: string)
    requires |pat| > 0 && !Contains(s, pat)
    ensures Split(s, pat) == [s]
    ensures LastSegment(s, pat) == s
  {
    FoundIffContains(s, pat);
  }

  lemma LastPieceFacts(s: string, pat: string)
    requires |pat| > 0
    ensures var parts := Split(s, pat); var seg := parts[|parts| - 1];
      && |seg| <= |s| && s[|s| - |seg|..] == seg
      && (|parts| == 1 ==> seg == s)
      && (|parts| > 1 ==> |seg| + |pat| <= |s| && MatchAt(s, pat, |s| - |seg| - |pat|))
  {
    SplitJoin(s, pat);
    var parts := Split(s, pat);
    JoinEndsWithLast(parts, pat, s);
  }

  /** The searcher, started at the front, finds a match exactly when `pat` occurs. */
  lemma FoundIffContains(s: string, pat: string)
    ensures FindFrom(s, pat, 0).Some? <==> Contains(s, pat)
  {
    FindFromLeftmost(s, pat, 0);
    if FindFrom(s, pat, 0).Some? {
      assert MatchAt(s, pat, FindFrom(s, pat, 0).value);
    }
  }

  lemma NoMatchInPrefix(s: string, pat: string, n: nat)
    requires |pat| > 0 && n <= |s|
    requires forall j: nat :: j < n ==> !MatchAt(s, pat, j)
    ensures !Contains(s[..n], pat)
  {
    var prefix := s[..n];
    forall j: nat ensures !MatchAt(prefix, pat, j) {
      if j + |pat| <= n {
        assert s[..n][j..j + |pat|] == s[j..j + |pat|];
        assert j < n;
        assert !MatchAt(s, pat, j);
      }
    }
  }

  lemma CutAtMatch(s: string, pat: string, i: nat)
    requires MatchAt(s, pat, i)
    ensures s[..i] + pat + s[i + |pat|..] == s
  {
    assert s == s[..i] + s[i..i + |pat|] + s[i + |pat|..];
  }

  /** Matches in a suffix of `s` are the matches of `s` shifted by the cut. */
  lemma MatchShift(s: string, pat: string, k: nat, j: nat)
    requires k <= |s|
    ensures MatchAt(s[k..], pat, j) <==> MatchAt(s, pat, k + j)
  {
    if j + |pat| <= |s| - k {
      assert s[k..][j..j + |pat|] == s[k + j..k + j + |pat|];
    }
  }

  lemma {:induction false} JoinEndsWithLast(parts: seq<string>, pat: string, j: string)
    requires |parts| >= 1 && j == Join(parts, pat)
    ensures var last := parts[|parts| - 1];
      |last| <= |j| && j[|j| - |last|..] == last
    ensures var last := parts[|parts| - 1];
      |parts| > 1 ==> |last| + |pat| <= |j| && MatchAt(j, pat, |j| - |last| - |pat|)
    decreases |parts|
  {
    if |parts| > 1 {
      var tail := parts[1..];
      var jt := Join(tail, pat);
      var last := parts[|parts| - 1];
      JoinEndsWithLast(tail, pat, jt);
      assert tail[|tail| - 1] == last;
      var k := |parts[0]| + |pat|;
      assert j == parts[0] + pat + jt;
      assert j[k..] == jt;
      if |tail| == 1 {
        assert j[|j| - |last| - |pat|..|j| - |last|] == pat;
      } else {
        MatchShift(j, pat, k, |jt| - |last| - |pat|);
      }
    }
  }

  /**
   * A match with no other match overlapping it from the left and none after it
   * is where the scan makes its final cut: the last segment is the text after it,
   * whatever precedes it.
   */
  lemma {:induction false} LastSegmentAfterIsolatedMatch(s: string, pat: string, m: nat)
    requires |pat| > 0
    requires MatchAt(s, pat, m)
    requires forall j: nat :: m < j + |pat| && j != m ==> !MatchAt(s, pat, j)
    ensures LastSegment(s, pat) == s[m + |pat|..]
    decreases |s|
  {
    var i := FirstCutBeforeIsolated(s, pat, m);
    LastSegmentOfRest(s, pat, i);
    if i == m {
      NoMatchAfterIsolated(s, pat, m);
      LastSegmentWhenAbsent(s[m + |pat|..], pat);
    } else {
      var k := i + |pat|;
      IsolatedMatchInRest(s, pat, k, m);
      LastSegmentAfterIsolatedMatch(s[k..], pat, m - k);
      assert s[k..][m - k + |pat|..] == s[m + |pat|..];
    }
  }

  /** The scan's first cut is the isolated match itself or lies wholly before it. */
  lemma FirstCutBeforeIsolated(s: string, pat: string, m: nat) returns (i: nat)
    requires |pat| > 0
    requires MatchAt(s, pat, m)
    requires forall j: nat :: m < j + |pat| && j != m ==> !MatchAt(s, pat, j)
    ensures FindFrom(s, pat, 0) == Some(i)
    ensures i == m || i + |pat| <= m
  {
    FindFromLeftmost(s, pat, 0);
    i := FindFrom(s, pat, 0).value;
  }

  /** After the scan's first cut, the last segment is that of the rest of the text. */
  lemma LastSegmentOfRest(s: string, pat: string, i: nat)
    requires |pat| > 0 && FindFrom(s, pat, 0) == Some(i)
    ensures LastSegment(s, pat) == LastSegment(s[i + |pat|..], pat)
  {
    SplitAtFirstCut(s, pat, i);
    LastOfCons(s[..i], Split(s[i + |pat|..], pat));
  }

  lemma LastOfCons<T>(x: T, xs: seq<T>)
    requires |xs| >= 1
    ensures var ys := [x] + xs; ys[|ys| - 1] == xs[|xs| - 1]
  {
  }

  lemma NoMatchAfterIsolated(s: string, pat: string, m: nat)
    requires |pat| > 0 && MatchAt(s, pat, m)
    requires forall j: nat :: m < j + |pat| && j != m ==> !MatchAt(s, pat, j)
    ensures !Contains(s[m + |pat|..], pat)
  {
    var rest := s[m + |pat|..];
    forall j: nat ensures !MatchAt(rest, pat, j) {
      MatchShift(s, pat, m + |pat|, j);
    }
  }

  lemma IsolatedMatchInRest(s: string, pat: string, k: nat, m: nat)
    requires |pat| > 0 && k <= m && MatchAt(s, pat, m)
    requires forall j: nat :: m < j + |pat| && j != m ==> !MatchAt(s, pat, j)
    ensures MatchAt(s[k..], pat, m - k)
    ensures forall j: nat :: m - k < j + |pat| && j != m - k ==> !MatchAt(s[k..], pat, j)
  {
    var rest := s[k..];
    MatchShift(s, pat, k, m - k);
    forall j: nat | m - k < j + |pat| && j != m - k ensures !MatchAt(rest, pat, j) {
      MatchShift(s, pat, k, j);
    }
  }
}
