/** Elements under a strict weak order, and rearrangements of a range of an array. */
module Range {

  /** An element with its place in the order: elements of the same rank are
      equivalent without being equal. */
  datatype Elem = Elem(rank: real, tag: int)

  predicate Less(x: Elem, y: Elem) { x.rank < y.rank }

  predicate Sorted(s: seq<Elem>, lo: nat, hi: nat)
    requires hi <= |s|
  {
    forall i, j :: lo <= i < j < hi ==> !Less(s[j], s[i])
  }

  /** t is s with the elements of lo..hi rearranged. */
  predicate Permuted(s: seq<Elem>, t: seq<Elem>, lo: nat, hi: nat) {
    && lo <= hi <= |s| == |t|
    && s[..lo] == t[..lo] && s[hi..] == t[hi..] && multiset(s[lo..hi]) == multiset(t[lo..hi])
  }

  lemma PermutedRefl(s: seq<Elem>, lo: nat, hi: nat)
    requires lo <= hi <= |s|
    ensures Permuted(s, s, lo, hi)
  {
  }

  lemma PermutedLen(s: seq<Elem>, t: seq<Elem>, lo: nat, hi: nat)
    requires Permuted(s, t, lo, hi)
    ensures lo <= hi <= |s| == |t|
  {
  }

  lemma PermutedTrans(s: seq<Elem>, t: seq<Elem>, u: seq<Elem>, lo: nat, hi: nat)
    requires Permuted(s, t, lo, hi) && Permuted(t, u, lo, hi)
    ensures Permuted(s, u, lo, hi)
  {
  }

  lemma Outside(s: seq<Elem>, t: seq<Elem>, lo: nat, hi: nat, k: nat)
    requires Permuted(s, t, lo, hi) && k < |s| && !(lo <= k < hi)
    ensures s[k] == t[k]
  {
    if k < lo { assert s[..lo][k] == t[..lo][k]; } else { assert s[hi..][k - hi] == t[hi..][k - hi]; }
  }

  lemma OutsideAll(s: seq<Elem>, t: seq<Elem>, lo: nat, hi: nat)
    requires Permuted(s, t, lo, hi)
    ensures |s| == |t| && forall k :: 0 <= k < |s| && !(lo <= k < hi) ==> s[k] == t[k]
  {
    forall k | 0 <= k < |s| && !(lo <= k < hi) ensures s[k] == t[k] { Outside(s, t, lo, hi, k); }
  }

  lemma PermutedWiden(s: seq<Elem>, t: seq<Elem>, lo: nat, hi: nat, lo': nat, hi': nat)
    requires Permuted(s, t, lo, hi) && lo' <= lo && hi <= hi' <= |s|
    ensures Permuted(s, t, lo', hi')
  {
    OutsideAll(s, t, lo, hi);
    assert s[lo'..hi'] == s[lo'..lo] + s[lo..hi] + s[hi..hi'];
    assert t[lo'..hi'] == t[lo'..lo] + t[lo..hi] + t[hi..hi'];
    assert s[lo'..lo] == t[lo'..lo] && s[hi..hi'] == t[hi..hi'];
  }

  /** Every element of the range is still somewhere in the range. */
  lemma Survives(s: seq<Elem>, t: seq<Elem>, lo: nat, hi: nat, k: nat) returns (m: nat)
    requires Permuted(s, t, lo, hi) && lo <= k < hi
    ensures lo <= m < hi && t[m] == s[k]
  {
    assert s[lo..hi][k - lo] in multiset(s[lo..hi]);
    assert s[k] in t[lo..hi];
    var i :| 0 <= i < hi - lo && t[lo..hi][i] == s[k];
    m := lo + i;
  }

  predicate AtMost(s: seq<Elem>, lo: nat, hi: nat, x: real)
    requires hi <= |s|
  {
    forall k :: lo <= k < hi ==> s[k].rank <= x
  }

  predicate AtLeast(s: seq<Elem>, lo: nat, hi: nat, x: real)
    requires hi <= |s|
  {
    forall k :: lo <= k < hi ==> s[k].rank >= x
  }

  lemma PermutedBack(s: seq<Elem>, t: seq<Elem>, lo: nat, hi: nat)
    requires Permuted(s, t, lo, hi)
    ensures Permuted(t, s, lo, hi)
  {
  }

  /** A rearranged range has the same bounds. */
  lemma BoundsKept(s: seq<Elem>, t: seq<Elem>, lo: nat, hi: nat, x: real)
    requires Permuted(s, t, lo, hi)
    ensures AtMost(s, lo, hi, x) ==> AtMost(t, lo, hi, x)
    ensures AtLeast(s, lo, hi, x) ==> AtLeast(t, lo, hi, x)
  {
    PermutedBack(s, t, lo, hi);
    hide Permuted;
    forall k | lo <= k < hi
      ensures AtMost(s, lo, hi, x) ==> t[k].rank <= x
      ensures AtLeast(s, lo, hi, x) ==> t[k].rank >= x
    {
      var m := Survives(t, s, lo, hi, k);
    }
  }

  /** Everything in lo..mid is no greater than anything in mid..hi. */
  predicate Split(s: seq<Elem>, lo: nat, mid: nat, hi: nat)
    requires hi <= |s|
  {
    forall i, j :: lo <= i < mid <= j < hi ==> s[i].rank <= s[j].rank
  }

  /** A split survives a rearrangement of either side. */
  lemma SplitKept(s: seq<Elem>, t: seq<Elem>, lo: nat, mid: nat, hi: nat, from: nat, to: nat)
    requires |s| == |t| && lo <= mid <= hi <= |s| && Permuted(s, t, from, to) && Split(s, lo, mid, hi)
    requires (lo <= from && to <= mid) || (mid <= from && to <= hi)
    ensures Split(t, lo, mid, hi)
  {
    PermutedBack(s, t, from, to);
    OutsideAll(s, t, from, to);
    hide Permuted;
    forall i, j | lo <= i < mid <= j < hi ensures t[i].rank <= t[j].rank {
      if from <= i < to { var m := Survives(t, s, from, to, i); }
      else if from <= j < to { var m := Survives(t, s, from, to, j); }
    }
  }

  function Exchanged(s: seq<Elem>, i: nat, j: nat): seq<Elem>
    requires i < |s| && j < |s|
  {
    s[i := s[j]][j := s[i]]
  }

  lemma Exchange(s: seq<Elem>, i: nat, j: nat, lo: nat, hi: nat)
    requires lo <= i < hi <= |s| && lo <= j < hi
    ensures Permuted(s, Exchanged(s, i, j), lo, hi)
  {
    var t := Exchanged(s, i, j);
    assert t[lo..hi] == s[lo..hi][i - lo := s[j]][j - lo := s[i]];
  }

  /** u is the array with the hole at i filled by `value`. */
  ghost predicate Filled(a: array<Elem>, u: seq<Elem>, i: nat, value: Elem)
    reads a
  {
    |u| == a.Length && i < |u| && u[i] == value && forall k :: 0 <= k < |u| && k != i ==> a[k] == u[k]
  }

  /** The element at j moves into the hole, and the hole to j. */
  method MoveHole(a: array<Elem>, i: nat, j: nat, ghost u: seq<Elem>, ghost value: Elem) returns (ghost v: seq<Elem>)
    requires Filled(a, u, i, value) && j < a.Length && i != j
    modifies a
    ensures v == Exchanged(u, i, j) && Filled(a, v, j, value)
  {
    a[i] := a[j];
    v := Exchanged(u, i, j);
  }

  method FillHole(a: array<Elem>, i: nat, value: Elem, ghost u: seq<Elem>)
    requires Filled(a, u, i, value)
    modifies a
    ensures a[..] == u
  {
    a[i] := value;
  }

  method Swap(a: array<Elem>, i: nat, j: nat, ghost lo: nat, ghost hi: nat)
    requires lo <= i < hi <= a.Length && lo <= j < hi
    modifies a
    ensures a[..] == Exchanged(old(a[..]), i, j)
    ensures Permuted(old(a[..]), a[..], lo, hi)
  {
    Exchange(a[..], i, j, lo, hi);
    var temp := a[i];
    a[i] := a[j];
    a[j] := temp;
  }
}
