/** The binary heap of mystl/my_heap.h, on the part of an array that starts at `first`. */
module Heap {
  import opened Range

  function Parent(k: nat): nat
    requires k > 0
  {
    (k - 1) / 2
  }

  /** The element with index k is no greater than the one with index j. */
  predicate NoGreater(s: seq<Elem>, first: nat, k: nat, j: nat)
    requires first + k < |s| && first + j < |s|
  {
    s[first + k].rank <= s[first + j].rank
  }

  predicate Below(s: seq<Elem>, first: nat, k: nat)
    requires k > 0 && first + k < |s|
  {
    NoGreater(s, first, k, Parent(k))
  }

  /** No element with an index from `top` on is less than one of its children. */
  predicate HeapFrom(s: seq<Elem>, first: nat, top: nat, len: nat)
    requires first + len <= |s|
  {
    forall k: nat :: 2 * top + 1 <= k < len ==> Below(s, first, k)
  }

  /** The children of index k are no greater than the element with index j. */
  predicate ChildrenBelow(s: seq<Elem>, first: nat, len: nat, k: nat, j: nat)
    requires first + len <= |s| && (k < len ==> j < len)
  {
    && (2 * k + 1 < len ==> NoGreater(s, first, 2 * k + 1, j))
    && (2 * k + 2 < len ==> NoGreater(s, first, 2 * k + 2, j))
  }

  /** The same, except at the hole, whose children are no greater than its parent. */
  predicate HeapBut(s: seq<Elem>, first: nat, top: nat, len: nat, hole: nat)
    requires first + len <= |s|
  {
    && (forall k: nat :: 2 * top + 1 <= k < len && k != 2 * hole + 1 && k != 2 * hole + 2 ==> Below(s, first, k))
    && (2 * top + 1 <= hole < len ==> ChildrenBelow(s, first, len, hole, Parent(hole)))
  }

  /** The hole's greatest child c is greater than the hole's element: they change
      places and the hole moves down. */
  lemma SiftStep(s: seq<Elem>, first: nat, top: nat, len: nat, hole: nat, c: nat)
    requires first + len <= |s| && top <= hole && HeapBut(s, first, top, len, hole)
    requires (c == 2 * hole + 1 || c == 2 * hole + 2) && c < len
    requires ChildrenBelow(s, first, len, hole, c) && s[first + hole].rank < s[first + c].rank
    ensures HeapBut(Exchanged(s, first + hole, first + c), first, top, len, c)
  {
    hide Parent;
    var t := Exchanged(s, first + hole, first + c);
    ParentIs(c, hole);
    forall k: nat | 2 * top + 1 <= k < len && k != 2 * c + 1 && k != 2 * c + 2 ensures Below(t, first, k) {
      ParentIs(k, hole);
      ParentIs(k, c);
      if k != 2 * hole + 1 && k != 2 * hole + 2 { assert Below(s, first, k); }
    }
    if 2 * c + 1 < len {
      ParentIs(2 * c + 1, c);
      assert Below(s, first, 2 * c + 1);
    }
    if 2 * c + 2 < len {
      ParentIs(2 * c + 2, c);
      assert Below(s, first, 2 * c + 2);
    }
  }

  lemma ParentIs(k: nat, p: nat)
    requires k > 0
    ensures Parent(k) == p <==> k == 2 * p + 1 || k == 2 * p + 2
    ensures Parent(k) < k
  {
  }

  lemma SiftEnds(s: seq<Elem>, first: nat, top: nat, len: nat, hole: nat)
    requires first + len <= |s| && hole < len && HeapBut(s, first, top, len, hole)
    requires ChildrenBelow(s, first, len, hole, hole)
    ensures HeapFrom(s, first, top, len)
  {
  }

  lemma SiftStarts(s: seq<Elem>, first: nat, top: nat, len: nat)
    requires first + len <= |s| && HeapFrom(s, first, top + 1, len)
    ensures HeapBut(s, first, top, len, top)
  {
  }

  lemma {:induction false} RootIsGreatest(s: seq<Elem>, first: nat, len: nat, k: nat)
    requires first + len <= |s| && HeapFrom(s, first, 0, len) && k < len
    ensures s[first + k].rank <= s[first].rank
    decreases k
  {
    if k > 0 {
      RootIsGreatest(s, first, len, Parent(k));
      assert Below(s, first, k);
    }
  }

  lemma RootBounds(s: seq<Elem>, first: nat, last: nat)
    requires first <= last <= |s| && first < |s| && HeapFrom(s, first, 0, last - first)
    ensures AtMost(s, first, last, s[first].rank)
  {
    forall k | first <= k < last ensures s[k].rank <= s[first].rank {
      RootIsGreatest(s, first, last - first, k - first);
    }
  }

  /** Moves the hole to its greatest child c. */
  method Sift(a: array<Elem>, ghost s: seq<Elem>, first: nat, ghost top: nat, ghost len: nat, hole: nat, c: nat)
    requires first + len <= a.Length && top <= hole && HeapBut(a[..], first, top, len, hole)
    requires (c == 2 * hole + 1 || c == 2 * hole + 2) && c < len
    requires ChildrenBelow(a[..], first, len, hole, c) && Less(a[first + hole], a[first + c])
    requires Permuted(s, a[..], first, first + len)
    modifies a
    ensures HeapBut(a[..], first, top, len, c) && Permuted(s, a[..], first, first + len)
    ensures a[..] == Exchanged(old(a[..]), first + hole, first + c)
  {
    hide Permuted, HeapBut, ChildrenBelow, Exchanged;
    SiftStep(a[..], first, top, len, hole, c);
    Swap(a, first + hole, first + c, first, first + len);
    PermutedTrans(s, old(a[..]), a[..], first, first + len);
  }

  lemma EmptyHeap(s: seq<Elem>, first: nat, top: nat)
    requires first <= |s|
    ensures HeapFrom(s, first, top, 0)
  {
  }

  /** Moves the element at the hole down to its place. */
  method AdjustHeap(a: array<Elem>, first: nat, holeIndex: nat, len: nat)
    requires first + len <= a.Length && (holeIndex < len || len == 0)
    requires HeapFrom(a[..], first, holeIndex + 1, len)
    modifies a
    ensures HeapFrom(a[..], first, holeIndex, len) && Permuted(old(a[..]), a[..], first, first + len)
  {
    hide Permuted, HeapFrom, HeapBut, Exchanged;
    ghost var s := a[..];
    var hole: nat, second: nat := holeIndex, 2 * holeIndex + 2;
    PermutedRefl(s, first, first + len);
    SiftStarts(s, first, holeIndex, len);
    if len == 0 { EmptyHeap(s, first, holeIndex); return; }
    while second < len
      invariant holeIndex <= hole < len && second == 2 * hole + 2
      invariant HeapBut(a[..], first, holeIndex, len, hole) && Permuted(s, a[..], first, first + len)
      decreases len - hole
    {
      if Less(a[first + second], a[first + second - 1]) { second := second - 1; }
      if !Less(a[first + hole], a[first + second]) {
        SiftEnds(a[..], first, holeIndex, len, hole);
        return;
      }
      Sift(a, s, first, holeIndex, len, hole, second);
      hole := second;
      second := 2 * hole + 2;
    }
    if second == len {
      if Less(a[first + hole], a[first + second - 1]) {
        Sift(a, s, first, holeIndex, len, hole, second - 1);
        hole := second - 1;
      }
    }
    SiftEnds(a[..], first, holeIndex, len, hole);
  }

  method MakeHeap(a: array<Elem>, first: nat, last: nat)
    requires first <= last <= a.Length
    modifies a
    ensures HeapFrom(a[..], first, 0, last - first) && Permuted(old(a[..]), a[..], first, last)
  {
    hide Permuted;
    ghost var s := a[..];
    PermutedRefl(s, first, last);
    if last - first < 2 { return; }
    var len: nat := last - first;
    var parent: nat := (len - 2) / 2;
    while true
      invariant parent <= (len - 2) / 2
      invariant HeapFrom(a[..], first, parent + 1, len) && Permuted(s, a[..], first, last)
      decreases parent
    {
      ghost var before := a[..];
      AdjustHeap(a, first, parent, len);
      PermutedTrans(s, before, a[..], first, last);
      if parent == 0 { return; }
      parent := parent - 1;
    }
  }

  /** Puts the root of the heap first..last at `result`, behind it, and sifts the
      element that was there into the heap. */
  method PopHeapTo(a: array<Elem>, first: nat, last: nat, result: nat)
    requires first <= last <= result < a.Length && HeapFrom(a[..], first, 0, last - first)
    modifies a
    ensures HeapFrom(a[..], first, 0, last - first)
    ensures Permuted(Exchanged(old(a[..]), first, result), a[..], first, last)
    ensures Permuted(old(a[..]), a[..], first, result + 1)
  {
    hide Permuted, HeapFrom, Exchanged;
    HeapElsewhere(a[..], first, last, result);
    Swap(a, first, result, first, result + 1);
    ghost var swapped := a[..];
    AdjustHeap(a, first, 0, last - first);
    PermutedWiden(swapped, a[..], first, last, first, result + 1);
    PermutedTrans(old(a[..]), swapped, a[..], first, result + 1);
  }

  /** Exchanging the root leaves the rest of a heap in order. */
  lemma HeapElsewhere(s: seq<Elem>, first: nat, last: nat, result: nat)
    requires first <= last <= result < |s| && HeapFrom(s, first, 0, last - first)
    ensures HeapFrom(Exchanged(s, first, result), first, 1, last - first)
  {
    forall k: nat | 3 <= k < last - first ensures Below(Exchanged(s, first, result), first, k) {
      assert Below(s, first, k) && Parent(k) > 0;
    }
  }

  method PopHeap(a: array<Elem>, first: nat, last: nat)
    requires first < last <= a.Length && HeapFrom(a[..], first, 0, last - first)
    modifies a
    ensures HeapFrom(a[..], first, 0, last - 1 - first) && Permuted(old(a[..]), a[..], first, last)
    ensures a[last - 1] == old(a[first]) && AtMost(a[..], first, last, a[last - 1].rank)
  {
    hide Permuted;
    ghost var s := a[..];
    RootBounds(s, first, last);
    PopHeapTo(a, first, last - 1, last - 1);
    Outside(Exchanged(s, first, last - 1), a[..], first, last - 1, last - 1);
    BoundsKept(s, a[..], first, last, s[first].rank);
  }

  /** Sorts a heap. */
  method SortHeap(a: array<Elem>, first: nat, end: nat)
    requires first <= end <= a.Length && HeapFrom(a[..], first, 0, end - first)
    modifies a
    ensures Sorted(a[..], first, end) && Permuted(old(a[..]), a[..], first, end)
  {
    hide Permuted;
    ghost var s := a[..];
    var last := end;
    PermutedRefl(s, first, end);
    while last - first > 1
      invariant first <= last <= end
      invariant HeapFrom(a[..], first, 0, last - first) && Permuted(s, a[..], first, end)
      invariant Sorted(a[..], last, end) && Split(a[..], first, last, end)
    {
      ghost var before := a[..];
      PopHeap(a, first, last);
      OutsideAll(before, a[..], first, last);
      SplitKept(before, a[..], first, last, end, first, last);
      PermutedWiden(before, a[..], first, last, first, end);
      PermutedTrans(s, before, a[..], first, end);
      last := last - 1;
    }
  }

  lemma EmptySplit(s: seq<Elem>, first: nat, middle: nat)
    requires middle <= |s|
    ensures Split(s, first, middle, middle)
  {
  }

  /** The element at i has been compared with the root and has taken its place if it was less. */
  lemma PartialStep(s: seq<Elem>, t: seq<Elem>, first: nat, middle: nat, i: nat)
    requires first <= middle <= i < |s| == |t| && HeapFrom(s, first, 0, middle - first) && Split(s, first, middle, i)
    requires if Less(s[i], s[first]) then Permuted(Exchanged(s, first, i), t, first, middle) else t == s
    ensures Split(t, first, middle, i + 1)
  {
    hide HeapFrom, Permuted;
    RootBounds(s, first, middle);
    if Less(s[i], s[first]) {
      OutsideAll(Exchanged(s, first, i), t, first, middle);
      BoundsKept(Exchanged(s, first, i), t, first, middle, s[first].rank);
    }
  }

  /** Puts the smallest elements first, sorted. */
  method PartialSort(a: array<Elem>, first: nat, middle: nat, last: nat)
    requires first <= middle <= last <= a.Length
    modifies a
    ensures Sorted(a[..], first, middle) && Split(a[..], first, middle, last)
    ensures Permuted(old(a[..]), a[..], first, last)
  {
    hide Permuted, HeapFrom, Split, Sorted, Exchanged;
    ghost var s := a[..];
    MakeHeap(a, first, middle);
    EmptySplit(a[..], first, middle);
    PermutedWiden(s, a[..], first, middle, first, last);
    var i := middle;
    while i != last
      invariant middle <= i <= last
      invariant HeapFrom(a[..], first, 0, middle - first) && Split(a[..], first, middle, i)
      invariant Permuted(s, a[..], first, last)
    {
      ghost var before := a[..];
      if Less(a[i], a[first]) {
        PopHeapTo(a, first, middle, i);
        PermutedWiden(before, a[..], first, i + 1, first, last);
        PermutedTrans(s, before, a[..], first, last);
      }
      PartialStep(before, a[..], first, middle, i);
      i := i + 1;
    }
    ghost var before := a[..];
    SortHeap(a, first, middle);
    SplitKept(before, a[..], first, middle, last, first, middle);
    PermutedWiden(before, a[..], first, middle, first, last);
    PermutedTrans(s, before, a[..], first, last);
  }

  // ----- adding an element

  /** A heap except that the element at the hole may be greater than its parent. */
  predicate HeapAbove(s: seq<Elem>, first: nat, len: nat, hole: nat)
    requires first + len <= |s|
  {
    && (forall k: nat :: 1 <= k < len && k != hole ==> Below(s, first, k))
    && (0 < hole < len ==> ChildrenBelow(s, first, len, hole, Parent(hole)))
  }

  lemma SwimStep(s: seq<Elem>, first: nat, len: nat, hole: nat)
    requires first + len <= |s| && 0 < hole < len && HeapAbove(s, first, len, hole)
    requires s[first + Parent(hole)].rank < s[first + hole].rank
    ensures HeapAbove(Exchanged(s, first + hole, first + Parent(hole)), first, len, Parent(hole))
  {
    var p := Parent(hole);
    var t := Exchanged(s, first + hole, first + p);
    forall k: nat | 1 <= k < len && k != p ensures Below(t, first, k) {
      if k != hole { assert Below(s, first, k); }
    }
    if p > 0 {
      assert Below(s, first, p);
      if 2 * p + 1 != hole { assert Below(s, first, 2 * p + 1); }
      if 2 * p + 2 < len && 2 * p + 2 != hole { assert Below(s, first, 2 * p + 2); }
    }
  }

  lemma HeapSwum(s: seq<Elem>, first: nat, len: nat, hole: nat)
    requires first + len <= |s| && hole < len && HeapAbove(s, first, len, hole)
    requires hole > 0 ==> Below(s, first, hole)
    ensures HeapFrom(s, first, 0, len)
  {
  }

  lemma SwimStarts(s: seq<Elem>, first: nat, last: nat)
    requires first < last <= |s| && HeapFrom(s, first, 0, last - 1 - first)
    ensures HeapAbove(s, first, last - first, last - first - 1)
  {
    forall k: nat | 1 <= k < last - first - 1 ensures Below(s, first, k) { }
  }

  /** The last element joins the heap of the elements before it: it moves up to its place. */
  method PushHeap(a: array<Elem>, first: nat, last: nat)
    requires first < last <= a.Length && HeapFrom(a[..], first, 0, last - 1 - first)
    modifies a
    ensures HeapFrom(a[..], first, 0, last - first) && Permuted(old(a[..]), a[..], first, last)
  {
    hide Permuted, HeapAbove, Exchanged, HeapFrom, ChildrenBelow;
    var value := a[last - 1];
    var hole: nat := last - first - 1;
    var parent: nat := if hole == 0 then 0 else (hole - 1) / 2;
    ghost var s, u := a[..], a[..];
    PermutedRefl(s, first, last);
    SwimStarts(s, first, last);
    while hole > 0 && Less(a[first + parent], value)
      invariant hole < last - first && parent == if hole == 0 then 0 else (hole - 1) / 2
      invariant Filled(a, u, first + hole, value)
      invariant HeapAbove(u, first, last - first, hole) && Permuted(s, u, first, last)
    {
      SwimStep(u, first, last - first, hole);
      Exchange(u, first + hole, first + parent, first, last);
      PermutedTrans(s, u, Exchanged(u, first + hole, first + parent), first, last);
      u := MoveHole(a, first + hole, first + parent, u, value);
      hole := parent;
      parent := if hole == 0 then 0 else (hole - 1) / 2;
    }
    HeapSwum(u, first, last - first, hole);
    FillHole(a, first + hole, value, u);
  }
}
