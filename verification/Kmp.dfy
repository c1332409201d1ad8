/** The string searches of base/coding.cc: brute force, and Knuth-Morris-Pratt with its table of borders. */
module Kmp {

  /** needle stands in haystack at p. */
  predicate OccursAt<T(==)>(haystack: seq<T>, needle: seq<T>, p: nat) {
    p + |needle| <= |haystack| && haystack[p..p + |needle|] == needle
  }

  datatype Answer = Found(pos: nat) | NotFound

  /** The first occurrence, or that there is none. */
  ghost predicate IsAnswer<T>(haystack: seq<T>, needle: seq<T>, r: Answer) {
    && (r.Found? ==> OccursAt(haystack, needle, r.pos) && forall p: nat :: p < r.pos ==> !OccursAt(haystack, needle, p))
    && (r.NotFound? ==> forall p: nat :: !OccursAt(haystack, needle, p))
  }

  /** There is only one answer: both searches agree on every haystack and needle. */
  lemma AnswersAgree<T>(haystack: seq<T>, needle: seq<T>, a: Answer, b: Answer)
    requires IsAnswer(haystack, needle, a) && IsAnswer(haystack, needle, b)
    ensures a == b
  {
    if a.Found? && b.Found? {
      assert OccursAt(haystack, needle, a.pos) && OccursAt(haystack, needle, b.pos);
    }
  }

  method BruteForce<T(==)>(haystack: seq<T>, needle: seq<T>) returns (r: Answer)
    ensures IsAnswer(haystack, needle, r)
  {
    if |needle| > |haystack| { return NotFound; }
    var i := 0;
    while i <= |haystack| - |needle|
      invariant i <= |haystack| - |needle| + 1
      invariant forall p: nat :: p < i ==> !OccursAt(haystack, needle, p)
    {
      var j := 0;
      while j < |needle|
        invariant j <= |needle| && haystack[i..i + j] == needle[..j]
      {
        if haystack[i + j] != needle[j] {
          assert haystack[i..i + |needle|][j] != needle[j];
          break;
        }
        assert haystack[i..i + (j + 1)] == haystack[i..i + j] + [haystack[i + j]];
        assert needle[..j + 1] == needle[..j] + [needle[j]];
        j := j + 1;
      }
      if j == |needle| {
        assert needle[..j] == needle;
        return Found(i);
      }
      i := i + 1;
    }
    return NotFound;
  }

  // ----- borders

  /** The first k elements of s, but not all of s, are also its last k. */
  predicate Border<T(==)>(s: seq<T>, k: nat) { k < |s| && s[..k] == s[|s| - k..] }

  predicate LongestBorder<T(==)>(s: seq<T>, k: nat) {
    Border(s, k) && forall j: nat :: k < j < |s| ==> !Border(s, j)
  }

  lemma Prefixes<T>(s: seq<T>, a: nat, b: nat)
    requires a <= b <= |s|
    ensures s[..b][..a] == s[..a] && s[..b][b - a..] == s[b - a..b]
  {
  }

  /** A shorter border of a string is a border of a longer one. */
  lemma BorderOfBorder<T>(s: seq<T>, k: nat, j: nat)
    requires Border(s, k) && j < k
    ensures Border(s, j) ==> Border(s[..k], j)
  {
    assert s[..k][k - j..] == s[|s| - k..][k - j..];
  }

  /** A border can be extended exactly when the next elements agree. */
  lemma ExtendBorder<T>(s: seq<T>, i: nat, k: nat)
    requires i < |s| && k < i
    ensures Border(s[..i + 1], k + 1) <==> Border(s[..i], k) && s[k] == s[i]
  {
    Prefixes(s, k, i);
    Prefixes(s, k + 1, i + 1);
    assert s[..k + 1] == s[..k] + [s[k]];
    assert s[i - k..i + 1] == s[i - k..i] + [s[i]];
  }

  lemma NoBorder<T>(s: seq<T>)
    requires |s| > 0
    ensures Border(s, 0)
  {
    assert s[..0] == s[|s|..];
  }

  /** Every longer border of needle[..i + 1] extends a border of needle[..i] of length j at most. */
  predicate Candidates<T(==)>(needle: seq<T>, i: nat, j: int) {
    i < |needle| ==> forall k: nat :: j < k < i && needle[k] == needle[i] ==> !Border(needle[..i], k)
  }

  predicate Table<T(==)>(next: seq<int>, needle: seq<T>, i: nat) {
    && i <= |needle| <= |next| && 0 < |next| && next[0] == -1
    && forall k {:trigger next[k]} :: 1 <= k <= i && k < |next| ==> next[k] >= 0 && LongestBorder(needle[..k], next[k])
  }

  lemma Matched<T>(needle: seq<T>, i: nat, j: int)
    requires i < |needle| && -1 <= j < i
    requires (j >= 0 ==> Border(needle[..i], j) && needle[i] == needle[j]) && Candidates(needle, i, j)
    ensures LongestBorder(needle[..i + 1], j + 1)
  {
    if j >= 0 { ExtendBorder(needle, i, j); } else { NoBorder(needle[..i + 1]); }
    var s := needle[..i + 1];
    forall k: nat | j + 1 < k < i + 1 ensures !Border(s, k) {
      ExtendBorder(needle, i, k - 1);
    }
  }

  lemma Mismatched<T>(next: seq<int>, needle: seq<T>, i: nat, j: nat)
    requires i < |needle| && j < i && Table(next, needle, i) && Border(needle[..i], j) && needle[i] != needle[j]
    requires Candidates(needle, i, j)
    ensures -1 <= next[j] < j && Candidates(needle, i, next[j])
    ensures next[j] >= 0 ==> Border(needle[..i], next[j])
  {
    Prefixes(needle, j, i);
    forall k: nat | next[j] < k < i && needle[k] == needle[i] ensures !Border(needle[..i], k) {
      if k < j { BorderOfBorder(needle[..i], j, k); }
    }
    if next[j] >= 0 {
      assert Border(needle[..j], next[j]);
      Prefixes(needle, next[j], j);
      Prefixes(needle, next[j], i);
      assert needle[j - next[j]..j] == needle[..i][i - j..][j - next[j]..] by {
        assert needle[..i][..j][j - next[j]..] == needle[j - next[j]..j];
      }
    }
  }

  lemma LongestIsCandidate<T>(needle: seq<T>, i: nat, j: nat)
    requires i <= |needle| && LongestBorder(needle[..i], j)
    ensures Candidates(needle, i, j)
  {
  }

  datatype Code = Ok | InvalidParam

  /** next[k] is the length of the longest border of the first k elements of the needle.  When the
      table has no more entries than the needle, as `KMP` allocates it, the last entry computed is
      stored behind its end, where nothing of the table is. */
  method BuildNext<T(==)>(needle: seq<T>, next: array<int>) returns (code: Code, ghost behind: bool)
    modifies next
    ensures code == if |needle| == 0 || next.Length < |needle| then InvalidParam else Ok
    ensures code == Ok ==> Table(next[..], needle, |needle|) && (behind <==> next.Length == |needle|)
    ensures code != Ok ==> next[..] == old(next[..]) && !behind
    ensures forall k :: |needle| < k < next.Length ==> next[k] == old(next[k])
  {
    hide Candidates, LongestBorder, Border;
    behind := false;
    if |needle| == 0 || next.Length < |needle| { return InvalidParam, behind; }
    next[0] := -1;
    var i, j := 0, -1;
    NothingYet(needle);
    while i < |needle|
      invariant i <= |needle| && -1 <= j < |needle| && (i < |needle| ==> j < i)
      invariant Table(next[..], needle, i) && Candidates(needle, i, j)
      invariant j >= 0 && i < |needle| ==> Border(needle[..i], j)
      invariant behind <==> i == next.Length
      invariant forall k :: |needle| < k < next.Length ==> next[k] == old(next[k])
      decreases |needle| - i, j + 1
    {
      if j == -1 || needle[i] == needle[j] {
        Matched(needle, i, j);
        i := i + 1;
        j := j + 1;
        LongestIsCandidate(needle, i, j);
        LongestIsBorder(needle[..i], j);
        if i < next.Length { next[i] := j; } else { behind := true; }
      } else {
        Mismatched(next[..], needle, i, j);
        j := next[j];
      }
    }
    code := Ok;
  }

  lemma NothingYet<T>(needle: seq<T>)
    ensures Candidates(needle, 0, -1)
  {
  }

  lemma LongestIsBorder<T>(s: seq<T>, k: nat)
    requires LongestBorder(s, k)
    ensures Border(s, k) && k < |s|
  {
  }

  // ----- the search

  /** The first j elements of the needle stand before i, and no occurrence starts earlier. */
  ghost predicate Searched<T>(haystack: seq<T>, needle: seq<T>, i: nat, j: int) {
    && -1 <= j <= |needle| && j <= i <= |haystack|
    && (j >= 0 ==> haystack[i - j..i] == needle[..j])
    && forall p: nat :: p < i - j ==> !OccursAt(haystack, needle, p)
  }

  lemma StepForward<T>(haystack: seq<T>, needle: seq<T>, i: nat, j: int)
    requires Searched(haystack, needle, i, j) && i < |haystack| && j < |needle| && (j >= 0 ==> haystack[i] == needle[j])
    ensures Searched(haystack, needle, i + 1, j + 1)
  {
    if j >= 0 {
      assert haystack[i - j..i + 1] == haystack[i - j..i] + [haystack[i]];
      assert needle[..j + 1] == needle[..j] + [needle[j]];
    }
  }

  lemma FallBack<T>(next: seq<int>, haystack: seq<T>, needle: seq<T>, i: nat, j: nat)
    requires Table(next, needle, |needle|) && Searched(haystack, needle, i, j)
    requires i < |haystack| && j < |needle| && haystack[i] != needle[j]
    ensures -1 <= next[j] < j && Searched(haystack, needle, i, next[j])
  {
    var b := next[j];
    if j > 0 {
      LongestIsBorder(needle[..j], b);
      assert needle[..b] == needle[..j][..b] == needle[..j][j - b..] == haystack[i - j..i][j - b..]
        == haystack[i - b..i];
    }
    forall p: nat | p < i - b ensures !OccursAt(haystack, needle, p) {
      if p == i - j {
        if p + |needle| <= |haystack| { assert haystack[p..p + |needle|][j] == haystack[i]; }
      } else if p > i - j {
        OverlapIsBorder(haystack, needle, i, j, p);
      }
    }
  }

  /** An occurrence that starts later shares a border with what has been matched. */
  lemma OverlapIsBorder<T>(haystack: seq<T>, needle: seq<T>, i: nat, j: nat, p: nat)
    requires j <= |needle| && j <= i <= |haystack| && haystack[i - j..i] == needle[..j] && i - j < p <= i
    ensures OccursAt(haystack, needle, p) ==> Border(needle[..j], i - p)
  {
    if OccursAt(haystack, needle, p) {
      var k := i - p;
      assert needle[..j][..k] == needle[..k] == haystack[p..p + |needle|][..k] == haystack[p..i];
      assert needle[..j][j - k..] == haystack[i - j..i][j - k..] == haystack[p..i];
    }
  }

  lemma NoRoom<T>(haystack: seq<T>, needle: seq<T>, i: nat, j: int)
    requires Searched(haystack, needle, i, j) && i == |haystack| && j < |needle|
    ensures forall p: nat :: !OccursAt(haystack, needle, p)
  {
  }

  method Search<T(==)>(haystack: seq<T>, needle: seq<T>) returns (r: Answer)
    ensures IsAnswer(haystack, needle, r)
  {
    if needle == [] {
      assert OccursAt(haystack, needle, 0);
      return Found(0);
    }
    if |needle| > |haystack| { return NotFound; }
    var next := new int[|needle|];
    var code, _ := BuildNext(needle, next);
    var i, j := 0, 0;
    assert haystack[0..0] == needle[..0];
    while i < |haystack| && j < |needle|
      invariant Searched(haystack, needle, i, j) && Table(next[..], needle, |needle|)
      decreases |haystack| - i, j + 1
    {
      if j == -1 || haystack[i] == needle[j] {
        StepForward(haystack, needle, i, j);
        i := i + 1;
        j := j + 1;
      } else {
        FallBack(next[..], haystack, needle, i, j);
        j := next[j];
      }
    }
    if j == |needle| { return Found(i - j); }
    NoRoom(haystack, needle, i, j);
    return NotFound;
  }
}
