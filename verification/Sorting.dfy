/** Introsort, partial sorts and selection of mystl/my_stl_algobase.h. */
module Sorting {
  import opened Powers
  import opened Range
  import opened Heap

  // ----- insertion sort

  /** lo..i is sorted but for the element at the hole, which is less than everything behind it. */
  predicate SortedBut(s: seq<Elem>, lo: nat, i: nat, hole: nat)
    requires i < |s|
  {
    && lo <= hole <= i
    && (forall j, k :: lo <= j < k <= i && j != hole && k != hole ==> s[j].rank <= s[k].rank)
    && (forall k :: hole < k <= i ==> s[hole].rank < s[k].rank)
  }

  lemma HoleOpens(s: seq<Elem>, lo: nat, i: nat)
    requires lo <= i < |s| && Sorted(s, lo, i)
    ensures SortedBut(s, lo, i, i)
  {
  }

  lemma HoleMoves(s: seq<Elem>, lo: nat, i: nat, hole: nat)
    requires i < |s| && SortedBut(s, lo, i, hole) && lo < hole && s[hole].rank < s[hole - 1].rank
    ensures SortedBut(Exchanged(s, hole, hole - 1), lo, i, hole - 1)
  {
  }

  lemma HoleCloses(s: seq<Elem>, lo: nat, i: nat, hole: nat)
    requires i < |s| && SortedBut(s, lo, i, hole) && (lo < hole ==> s[hole - 1].rank <= s[hole].rank)
    ensures Sorted(s, lo, i + 1)
  {
  }

  /** Inserts `value`, the element at `end`, into the sorted elements before it.
      There is no check for their first index: one of them must be no greater. */
  method UnguardedLinearInsert(a: array<Elem>, end: nat, value: Elem, ghost lo: nat, ghost stop: nat)
    requires lo <= stop < end < a.Length && Sorted(a[..], lo, end) && value == a[end]
    requires !Less(value, a[stop])
    modifies a
    ensures Sorted(a[..], lo, end + 1) && Permuted(old(a[..]), a[..], lo, end + 1)
  {
    hide Permuted, SortedBut, Sorted, Exchanged;
    ghost var s, u := a[..], a[..];
    var last: nat := end;
    var next: nat := last - 1;
    PermutedRefl(s, lo, end + 1);
    HoleOpens(s, lo, end);
    while Less(value, a[next])
      invariant lo <= stop <= next && next + 1 == last <= end
      invariant Filled(a, u, last, value) && a[stop] == s[stop]
      invariant SortedBut(u, lo, end, last) && Permuted(s, u, lo, end + 1)
      decreases next - stop
    {
      HoleMoves(u, lo, end, last);
      Exchange(u, last, next, lo, end + 1);
      PermutedTrans(s, u, Exchanged(u, last, next), lo, end + 1);
      ExchangedAt(u, last, next, stop);
      u := MoveHole(a, last, next, u, value);
      last := next;
      next := next - 1;
    }
    HoleCloses(u, lo, end, last);
    FillHole(a, last, value, u);
  }

  lemma ExchangedAt(u: seq<Elem>, i: nat, j: nat, k: nat)
    requires i < |u| && j < |u| && k < |u| && k != i && k != j
    ensures Exchanged(u, i, j)[k] == u[k]
  {
  }

  function ShiftedUp(s: seq<Elem>, lo: nat, end: nat): seq<Elem>
    requires lo < end < |s|
  {
    s[..lo] + [s[lo]] + s[lo..end] + s[end + 1..]
  }

  /** `copy_backward` of lo..end to one place further on. */
  method CopyBackward(a: array<Elem>, lo: nat, end: nat)
    requires lo < end < a.Length
    modifies a
    ensures a[..] == ShiftedUp(old(a[..]), lo, end)
  {
    var i := end;
    while i > lo
      invariant lo <= i <= end
      invariant forall k :: 0 <= k < a.Length && !(i < k <= end) ==> a[k] == old(a[k])
      invariant forall k :: i < k <= end ==> a[k] == old(a[k - 1])
    {
      a[i] := a[i - 1];
      i := i - 1;
    }
  }

  /** The last element of a range moved to its front. */
  function Fronted(s: seq<Elem>, lo: nat, end: nat): seq<Elem>
    requires lo < end < |s|
  {
    s[..lo] + [s[end]] + s[lo..end] + s[end + 1..]
  }

  lemma FrontedIs(s: seq<Elem>, lo: nat, end: nat)
    requires lo < end < |s| && Sorted(s, lo, end)
    ensures Permuted(s, Fronted(s, lo, end), lo, end + 1)
    ensures var u := ShiftedUp(s, lo, end); |u| == |s| && u[lo := s[end]] == Fronted(s, lo, end)
    ensures s[end].rank < s[lo].rank ==> Sorted(Fronted(s, lo, end), lo, end + 1)
  {
    hide Permuted, Sorted, Fronted, ShiftedUp;
    FrontedPermuted(s, lo, end);
    FrontedShifted(s, lo, end);
    if s[end].rank < s[lo].rank { FrontedSorted(s, lo, end); }
  }

  lemma FrontedPermuted(s: seq<Elem>, lo: nat, end: nat)
    requires lo < end < |s|
    ensures Permuted(s, Fronted(s, lo, end), lo, end + 1)
  {
    var t := Fronted(s, lo, end);
    assert s[lo..end + 1] == s[lo..end] + [s[end]];
    assert t[lo..end + 1] == [s[end]] + s[lo..end];
  }

  lemma FrontedShifted(s: seq<Elem>, lo: nat, end: nat)
    requires lo < end < |s|
    ensures var u := ShiftedUp(s, lo, end); |u| == |s| && u[lo := s[end]] == Fronted(s, lo, end)
  {}

  lemma FrontedSorted(s: seq<Elem>, lo: nat, end: nat)
    requires lo < end < |s| && Sorted(s, lo, end) && s[end].rank < s[lo].rank
    ensures Sorted(Fronted(s, lo, end), lo, end + 1)
  {
    var t := Fronted(s, lo, end);
    assert forall k :: lo < k <= end ==> t[k] == s[k - 1];
  }

  method LinearInsert(a: array<Elem>, lo: nat, end: nat)
    requires lo < end < a.Length && Sorted(a[..], lo, end)
    modifies a
    ensures Sorted(a[..], lo, end + 1) && Permuted(old(a[..]), a[..], lo, end + 1)
  {
    hide Permuted, Sorted, Fronted, ShiftedUp;
    var value := a[end];
    if Less(value, a[lo]) {
      FrontedIs(a[..], lo, end);
      CopyBackward(a, lo, end);
      ghost var u := a[..];
      a[lo] := value;
      assert a[..] == u[lo := value];
    } else {
      UnguardedLinearInsert(a, end, value, lo, lo);
    }
  }

  lemma SortedOne(s: seq<Elem>, lo: nat)
    requires lo <= |s|
    ensures Sorted(s, lo, lo) && (lo < |s| ==> Sorted(s, lo, lo + 1))
  {
  }

  method InsertionSort(a: array<Elem>, first: nat, last: nat)
    requires first <= last <= a.Length
    modifies a
    ensures Sorted(a[..], first, last) && Permuted(old(a[..]), a[..], first, last)
  {
    hide Permuted, Sorted;
    ghost var s := a[..];
    PermutedRefl(s, first, last);
    SortedOne(s, first);
    if first == last { return; }
    var i := first + 1;
    while i != last
      invariant first < i <= last
      invariant Sorted(a[..], first, i) && Permuted(s, a[..], first, last)
      decreases last - i
    {
      ghost var before := a[..];
      LinearInsert(a, first, i);
      PermutedWiden(before, a[..], first, i + 1, first, last);
      PermutedTrans(s, before, a[..], first, last);
      i := i + 1;
    }
  }

  // ----- what the introsort loop leaves to the insertion sort

  const THRESHOLD := 16

  /** Elements at least THRESHOLD places apart are in order. */
  predicate NearlySorted(s: seq<Elem>, lo: nat, hi: nat)
    requires hi <= |s|
  {
    forall i, j :: lo <= i && i + THRESHOLD <= j < hi ==> s[i].rank <= s[j].rank
  }

  /** Sorts i..last into the sorted elements before i, without checking for their
      first index: nearly sorted elements always stop the scan. */
  method UnguardedInsertionSort(a: array<Elem>, from: nat, last: nat, ghost lo: nat)
    requires lo + THRESHOLD <= from <= last <= a.Length
    requires Sorted(a[..], lo, from)
    requires exists s: seq<Elem> :: |s| == a.Length && NearlySorted(s, lo, last) && Permuted(s, a[..], lo, from)
    modifies a
    ensures Sorted(a[..], lo, last) && Permuted(old(a[..]), a[..], lo, last)
  {
    hide Permuted;
    ghost var s: seq<Elem> :| |s| == a.Length && NearlySorted(s, lo, last) && Permuted(s, a[..], lo, from);
    ghost var start := a[..];
    PermutedRefl(start, lo, last);
    var i := from;
    while i != last
      invariant from <= i <= last
      invariant Sorted(a[..], lo, i) && Permuted(s, a[..], lo, i) && Permuted(start, a[..], lo, last)
      decreases last - i
    {
      ghost var before := a[..];
      OutsideAll(s, before, lo, i);
      ghost var stop := Survives(s, before, lo, i, i - THRESHOLD);
      UnguardedLinearInsert(a, i, a[i], lo, stop);
      PermutedWiden(s, before, lo, i, lo, i + 1);
      PermutedTrans(s, before, a[..], lo, i + 1);
      PermutedWiden(before, a[..], lo, i + 1, lo, last);
      PermutedTrans(start, before, a[..], lo, last);
      i := i + 1;
    }
  }

  method FinalInsertionSort(a: array<Elem>, first: nat, last: nat)
    requires first <= last <= a.Length && NearlySorted(a[..], first, last)
    modifies a
    ensures Sorted(a[..], first, last) && Permuted(old(a[..]), a[..], first, last)
  {
    hide Permuted, NearlySorted;
    if last - first > THRESHOLD {
      ghost var s := a[..];
      InsertionSort(a, first, first + THRESHOLD);
      ghost var before := a[..];
      UnguardedInsertionSort(a, first + THRESHOLD, last, first);
      PermutedWiden(s, before, first, first + THRESHOLD, first, last);
      PermutedTrans(s, before, a[..], first, last);
    } else {
      InsertionSort(a, first, last);
    }
  }

  // ----- partition

  function Median(a: Elem, b: Elem, c: Elem): (m: Elem)
    ensures m == a || m == b || m == c
    ensures (!Less(m, a) && !Less(m, b)) || (!Less(m, a) && !Less(m, c)) || (!Less(m, b) && !Less(m, c))
    ensures (!Less(a, m) && !Less(b, m)) || (!Less(a, m) && !Less(c, m)) || (!Less(b, m) && !Less(c, m))
  {
    if Less(a, b) then
      if Less(b, c) then b else if Less(a, c) then c else a
    else
      if Less(a, c) then a else if Less(b, c) then c else b
  }

  /** The first index from `from` on whose element is not less than the pivot; there is one at `stop`. */
  method ScanUp(a: array<Elem>, from: nat, pivot: Elem, ghost stop: nat) returns (first: nat)
    requires from <= stop < a.Length && !Less(a[stop], pivot)
    ensures from <= first <= stop && !Less(a[first], pivot) && AtMost(a[..], from, first, pivot.rank)
  {
    first := from;
    while Less(a[first], pivot)
      invariant from <= first <= stop && AtMost(a[..], from, first, pivot.rank)
      decreases stop - first
    {
      first := first + 1;
    }
  }

  /** The last index below `from` whose element is not greater than the pivot. */
  method ScanDown(a: array<Elem>, from: nat, pivot: Elem, ghost stop: nat) returns (last: nat)
    requires stop < from <= a.Length && !Less(pivot, a[stop])
    ensures stop <= last < from && !Less(pivot, a[last]) && AtLeast(a[..], last + 1, from, pivot.rank)
  {
    last := from - 1;
    while Less(pivot, a[last])
      invariant stop <= last < from && AtLeast(a[..], last + 1, from, pivot.rank)
      decreases last - stop
    {
      last := last - 1;
    }
  }

  /** Rearranges first..last around the pivot; neither scan checks for the ends.
      For that, something before the last index must be no less than the pivot and
      something behind the first no greater: then both parts are not empty. */
  method UnguardedPartition(a: array<Elem>, start: nat, end: nat, pivot: Elem, ghost up: nat, ghost down: nat)
    returns (cut: nat)
    requires end <= a.Length
    requires start <= up < end - 1 && !Less(a[up], pivot)
    requires start < down < end && !Less(pivot, a[down])
    modifies a
    ensures start < cut < end && AtMost(a[..], start, cut, pivot.rank) && AtLeast(a[..], cut, end, pivot.rank)
    ensures Permuted(old(a[..]), a[..], start, end)
  {
    hide Permuted, AtMost, AtLeast, Exchanged;
    ghost var s := a[..];
    PermutedRefl(s, start, end);
    NothingBounded(s, start, end, pivot.rank);
    var first: nat, last: nat := start, end;
    ghost var high: nat, low: nat := up, down;
    while true
      invariant start <= first <= high < a.Length && start <= low < last <= end
      invariant !Less(a[high], pivot) && !Less(pivot, a[low])
      invariant if last == end then first == start && high == up && low == down
        else start < first && high == last && low == first - 1
      invariant AtMost(a[..], start, first, pivot.rank) && AtLeast(a[..], last, end, pivot.rank)
      invariant Permuted(s, a[..], start, end)
      decreases last - first
    {
      ghost var from, to, before := first, last, a[..];
      first := ScanUp(a, first, pivot, high);
      last := ScanDown(a, last, pivot, low);
      Scanned(before, start, from, first, last, to, end, pivot.rank);
      if !(first < last) { return first; }
      Swap(a, first, last, start, end);
      Swapped(before, start, first, last, end, pivot.rank);
      PermutedTrans(s, before, a[..], start, end);
      high, low := last, first;
      first := first + 1;
    }
  }

  lemma NothingBounded(s: seq<Elem>, start: nat, end: nat, x: real)
    requires start <= end <= |s|
    ensures AtMost(s, start, start, x) && AtLeast(s, end, end, x)
  {
  }

  /** Both scans have stopped. */
  lemma Scanned(s: seq<Elem>, start: nat, from: nat, first: nat, last: nat, to: nat, end: nat, x: real)
    requires start <= from <= first < |s| && start <= last < to <= end <= |s|
    requires AtMost(s, start, from, x) && AtMost(s, from, first, x) && s[first].rank >= x
    requires AtLeast(s, last + 1, to, x) && AtLeast(s, to, end, x) && s[last].rank <= x
    ensures AtMost(s, start, first, x) && AtLeast(s, last + 1, end, x)
    ensures last <= first ==> AtLeast(s, first, end, x)
  {
  }

  lemma Swapped(s: seq<Elem>, start: nat, first: nat, last: nat, end: nat, x: real)
    requires start <= first < last < end <= |s|
    requires AtMost(s, start, first, x) && AtLeast(s, last + 1, end, x) && s[first].rank >= x >= s[last].rank
    ensures var t := Exchanged(s, first, last);
      AtMost(t, start, first + 1, x) && AtLeast(t, last, end, x) && t[last].rank >= x >= t[first].rank
  {
  }

  /** The pivot of three, for a range of at least four elements. */
  method PartitionByMedian(a: array<Elem>, first: nat, last: nat) returns (cut: nat)
    requires first + 4 <= last <= a.Length
    modifies a
    ensures first < cut < last && Split(a[..], first, cut, last)
    ensures Permuted(old(a[..]), a[..], first, last)
  {
    var mid := first + (last - first) / 2;
    var pivot := Median(a[first], a[mid], a[last - 1]);
    ghost var up := if !Less(a[first], pivot) then first else mid;
    ghost var down := if !Less(pivot, a[mid]) then mid else last - 1;
    cut := UnguardedPartition(a, first, last, pivot, up, down);
  }

  // ----- introsort

  /** floor(log2(n)), counted by halving. */
  method Lg(n: nat) returns (k: nat)
    requires n > 0
    ensures Pow2(k) <= n < Pow2(k + 1)
  {
    k := 0;
    var m := n;
    while m > 1
      invariant m >= 1 && m * Pow2(k) <= n < (m + 1) * Pow2(k)
    {
      Halve(m, n, Pow2(k));
      k := k + 1;
      m := m / 2;
    }
  }

  lemma Halve(m: nat, n: nat, p: nat)
    requires m > 1 && m * p <= n < (m + 1) * p
    ensures (m / 2) * (2 * p) <= n < (m / 2 + 1) * (2 * p)
  {
    var h := m / 2;
    assert m == 2 * h || m == 2 * h + 1;
    assert h * (2 * p) == (2 * h) * p && (h + 1) * (2 * p) == (2 * h + 2) * p;
  }

  lemma SplitIsNear(s: seq<Elem>, lo: nat, mid: nat, hi: nat)
    requires lo <= mid <= hi <= |s| && Split(s, lo, mid, hi) && NearlySorted(s, lo, mid) && NearlySorted(s, mid, hi)
    ensures NearlySorted(s, lo, hi)
  {
  }

  lemma NearKept(s: seq<Elem>, t: seq<Elem>, from: nat, to: nat, lo: nat, hi: nat)
    requires |s| == |t| && Permuted(s, t, from, to) && to <= lo && hi <= |s| && NearlySorted(s, lo, hi)
    ensures NearlySorted(t, lo, hi)
  {
    OutsideAll(s, t, from, to);
  }

  /** What is left of the range to work on, and what has been done behind it. */
  predicate LoopState(s: seq<Elem>, t: seq<Elem>, first: nat, last: nat, end: nat) {
    && first <= last <= end <= |s| == |t| && Permuted(s, t, first, end)
    && Split(t, first, last, end) && NearlySorted(t, last, end)
  }

  lemma LoopStarts(s: seq<Elem>, first: nat, end: nat)
    requires first <= end <= |s|
    ensures LoopState(s, s, first, end, end)
  {
  }

  /** Partitioning what is left keeps what has been done. */
  lemma AfterPartition(s: seq<Elem>, t: seq<Elem>, u: seq<Elem>, first: nat, cut: nat, last: nat, end: nat)
    requires LoopState(s, t, first, last, end) && Permuted(t, u, first, last)
    ensures LoopState(s, u, first, last, end)
  {
    hide Permuted, Split, NearlySorted;
    PermutedLen(t, u, first, last);
    SplitKept(t, u, first, last, end, first, last);
    NearKept(t, u, first, last, last, end);
    PermutedWiden(t, u, first, last, first, end);
    PermutedTrans(s, t, u, first, end);
  }

  /** The part from `cut` on is done as well. */
  lemma AfterRightPart(s: seq<Elem>, t: seq<Elem>, u: seq<Elem>, first: nat, cut: nat, last: nat, end: nat)
    requires LoopState(s, t, first, last, end) && first <= cut <= last && Split(t, first, cut, last)
    requires Permuted(t, u, cut, last) && NearlySorted(u, cut, last)
    ensures LoopState(s, u, first, cut, end)
  {
    hide Permuted, NearlySorted;
    PermutedWiden(t, u, cut, last, first, last);
    AfterPartition(s, t, u, first, cut, last, end);
    SplitKept(t, u, first, cut, last, cut, last);
    SplitNarrow(u, first, cut, last, end);
    SplitIsNear(u, cut, last, end);
  }

  lemma SplitNarrow(u: seq<Elem>, first: nat, cut: nat, last: nat, end: nat)
    requires first <= cut <= last <= end <= |u| && Split(u, first, last, end) && Split(u, first, cut, last)
    ensures Split(u, cut, last, end) && Split(u, first, cut, end)
  {
  }

  lemma SortedIsNear(s: seq<Elem>, t: seq<Elem>, first: nat, last: nat, end: nat)
    requires LoopState(s, t, first, last, end) && (Sorted(t, first, last) || last - first <= THRESHOLD)
    ensures NearlySorted(t, first, end)
  {
    hide Permuted;
    SplitIsNear(t, first, last, end);
  }

  /** Partitions until the parts are short, or heapsorts when the depth is used up. */
  method IntrosortLoop(a: array<Elem>, first: nat, end: nat, depthLimit: nat)
    requires first <= end <= a.Length
    modifies a
    ensures NearlySorted(a[..], first, end) && Permuted(old(a[..]), a[..], first, end)
    decreases depthLimit
  {
    hide Permuted, Split, NearlySorted, Sorted;
    ghost var s := a[..];
    var last: nat, depth: nat := end, depthLimit;
    LoopStarts(s, first, end);
    while last - first > THRESHOLD
      invariant 0 <= depth <= depthLimit && LoopState(s, a[..], first, last, end)
      decreases depth
    {
      ghost var before := a[..];
      if depth == 0 {
        PartialSort(a, first, last, last);
        AfterPartition(s, before, a[..], first, last, last, end);
        SortedIsNear(s, a[..], first, last, end);
        return;
      }
      depth := depth - 1;
      var cut := PartitionByMedian(a, first, last);
      AfterPartition(s, before, a[..], first, cut, last, end);
      before := a[..];
      IntrosortLoop(a, cut, last, depth);
      AfterRightPart(s, before, a[..], first, cut, last, end);
      last := cut;
    }
    SortedIsNear(s, a[..], first, last, end);
  }

  /** Sorts any range. */
  method Sort(a: array<Elem>, first: nat, last: nat)
    requires first <= last <= a.Length
    modifies a
    ensures Sorted(a[..], first, last) && Permuted(old(a[..]), a[..], first, last)
    ensures forall i, j :: first <= i < j < last ==> a[i].rank <= a[j].rank
    ensures multiset(a[first..last]) == multiset(old(a[first..last]))
    ensures a[..first] == old(a[..first]) && a[last..] == old(a[last..])
  {
    hide Permuted;
    ghost var was := a[..];
    PermutedRefl(a[..], first, last);
    if first != last {
      var lg := Lg(last - first);
      ghost var s := a[..];
      IntrosortLoop(a, first, last, lg * 2);
      ghost var before := a[..];
      FinalInsertionSort(a, first, last);
      PermutedTrans(s, before, a[..], first, last);
    }
    Rearranged(was, a[..], first, last);
    assert was[first..last] == old(a[first..last]) && a[..][first..last] == a[first..last];
    assert forall i, j :: first <= i < j < last ==> !Less(a[..][j], a[..][i]);
  }

  lemma Rearranged(s: seq<Elem>, t: seq<Elem>, lo: nat, hi: nat)
    requires Permuted(s, t, lo, hi)
    ensures |s| == |t| && multiset(s[lo..hi]) == multiset(t[lo..hi]) && s[..lo] == t[..lo] && s[hi..] == t[hi..]
  {}

  // ----- selection

  /** Rearranges the range so that the element at nth is the one a full sort would put there. */
  method NthElement(a: array<Elem>, start: nat, nth: nat, end: nat)
    requires start <= nth <= end <= a.Length
    modifies a
    ensures Split(a[..], start, nth, end) && (nth < end ==> Split(a[..], start, nth + 1, end))
    ensures Permuted(old(a[..]), a[..], start, end)
  {
    hide Permuted;
    ghost var s := a[..];
    PermutedRefl(s, start, end);
    var first: nat, last: nat := start, end;
    while last - first > 3
      invariant SelectState(s, a[..], start, first, nth, last, end)
      decreases last - first
    {
      ghost var before := a[..];
      var cut := PartitionByMedian(a, first, last);
      SelectStep(s, before, a[..], start, first, nth, last, end);
      if cut <= nth { first := cut; } else { last := cut; }
    }
    ghost var before := a[..];
    InsertionSort(a, first, last);
    SelectStep(s, before, a[..], start, first, nth, last, end);
  }

  predicate SelectState(s: seq<Elem>, t: seq<Elem>, start: nat, first: nat, nth: nat, last: nat, end: nat) {
    && start <= first <= nth <= last <= end <= |s| == |t| && (nth == last ==> last == end)
    && Split(t, start, first, end) && Split(t, start, last, end) && Permuted(s, t, start, end)
  }

  lemma SelectStep(s: seq<Elem>, t: seq<Elem>, u: seq<Elem>, start: nat, first: nat, nth: nat, last: nat, end: nat)
    requires SelectState(s, t, start, first, nth, last, end) && Permuted(t, u, first, last)
    ensures SelectState(s, u, start, first, nth, last, end)
  {
    hide Permuted, Split;
    PermutedLen(t, u, first, last);
    SplitKept(t, u, start, first, end, first, last);
    SplitKept(t, u, start, last, end, first, last);
    PermutedWiden(t, u, first, last, start, end);
    PermutedTrans(s, t, u, start, end);
  }
}
