/** The three rotations of mystl/my_stl_algo.h: by forward swaps, by three
    reversals and along the cycles that the greatest common divisor gives. */
module Rotation {

  /** The range first..last with its part from `middle` on moved to the front. */
  function Rotated<T>(s: seq<T>, first: nat, middle: nat, last: nat): (r: seq<T>)
    requires first <= middle <= last <= |s|
    ensures |r| == |s|
  {
    s[..first] + s[middle..last] + s[first..middle] + s[last..]
  }

  /** The same, element by element: position k gets the element `shift` places on, cyclically. */
  lemma RotatedAt<T>(s: seq<T>, first: nat, middle: nat, last: nat, k: nat)
    requires first < middle < last <= |s| && k < last - first
    ensures var n, shift := last - first, middle - first;
      Rotated(s, first, middle, last)[first + k] == s[first + (k + shift) % n]
  {
    ModWrap(k + (middle - first), last - first);
    RotatedWrap(s, first, middle, last, k);
  }

  lemma ModWrap(x: nat, n: nat)
    requires n > 0 && x < 2 * n
    ensures x % n == if x < n then x else x - n
  {
    if x >= n { assert x == (x - n) + n * 1; }
  }

  lemma RotatedWrap<T>(s: seq<T>, first: nat, middle: nat, last: nat, k: nat)
    requires first < middle < last <= |s| && k < last - first
    ensures Rotated(s, first, middle, last)[first + k] ==
      if middle + k < last then s[middle + k] else s[middle + k - (last - first)]
  {
  }

  method Swap<T>(a: array<T>, i: nat, j: nat)
    requires i < a.Length && j < a.Length
    modifies a
    ensures a[..] == old(a[..])[i := old(a[j])][j := old(a[i])]
  {
    var temp := a[i];
    a[i] := a[j];
    a[j] := temp;
  }

  // ----- forward iterators: swaps

  /** What is still to be done from `first` on, with `i` running through the second part. */
  predicate SwapState<T(==)>(goal: seq<T>, s: seq<T>, first: nat, middle: nat, i: nat, last: nat) {
    && first <= middle <= i <= last <= |s| == |goal|
    && goal[..first] == s[..first] && goal[last..] == s[last..]
    && goal[first..last] == s[i..last] + s[middle..i] + s[first..middle]
  }

  lemma SwapStarts<T>(s: seq<T>, first: nat, middle: nat, last: nat)
    requires first <= middle <= last <= |s|
    ensures SwapState(Rotated(s, first, middle, last), s, first, middle, middle, last)
  {
  }

  lemma SwapStep<T>(goal: seq<T>, s: seq<T>, first: nat, middle: nat, i: nat, last: nat)
    requires SwapState(goal, s, first, middle, i, last) && first < middle && i < last
    ensures SwapState(goal, s[first := s[i]][i := s[first]], first + 1, middle, i + 1, last)
  {
    var t := s[first := s[i]][i := s[first]];
    var rest := s[i + 1..last] + s[middle..i] + s[first..middle];
    assert goal[first..last] == [s[i]] + rest;
    assert goal[first] == goal[first..last][0] == s[i];
    assert goal[first + 1..last] == goal[first..last][1..] == rest;
    assert t[middle..i + 1] == s[middle..i] + [s[first]];
    assert s[first..middle] == [s[first]] + s[first + 1..middle];
    assert t[first + 1..middle] == s[first + 1..middle] && t[i + 1..last] == s[i + 1..last];
    assert rest == t[i + 1..last] + t[middle..i + 1] + t[first + 1..middle];
    assert goal[..first + 1] == goal[..first] + [goal[first]] == t[..first + 1];
  }

  /** The first part is used up, or the second: the roles are dealt out again. */
  lemma SwapTurn<T>(goal: seq<T>, s: seq<T>, first: nat, middle: nat, i: nat, last: nat)
    requires SwapState(goal, s, first, middle, i, last)
    ensures first == middle ==> SwapState(goal, s, first, i, i, last)
    ensures i == last ==> SwapState(goal, s, first, middle, middle, last)
    ensures first == middle && i == last ==> s == goal
  {
    if first == middle && i == last {
      assert goal == goal[..first] + goal[first..last] + goal[last..];
      assert s == s[..first] + s[first..last] + s[last..];
    }
  }

  method RotateForward<T(==)>(a: array<T>, from: nat, mid: nat, last: nat)
    requires from <= mid <= last <= a.Length
    modifies a
    ensures a[..] == Rotated(old(a[..]), from, mid, last)
  {
    hide SwapState, Rotated;
    ghost var goal := Rotated(a[..], from, mid, last);
    SwapStarts(a[..], from, mid, last);
    if from == mid || mid == last {
      NothingToRotate(a[..], from, mid, last);
      return;
    }
    var first: nat, middle: nat, i: nat := from, mid, mid;
    ghost var s := a[..];
    while true
      invariant first < middle <= i < last <= |s| && a[..] == s && SwapState(goal, s, first, middle, i, last)
      decreases last - first
    {
      SwapStep(goal, s, first, middle, i, last);
      Swap(a, first, i);
      s := s[first := s[i]][i := s[first]];
      first := first + 1;
      i := i + 1;
      SwapTurn(goal, s, first, middle, i, last);
      if first == middle {
        if i == last { return; }
        middle := i;
      } else if i == last {
        i := middle;
      }
    }
  }

  lemma NothingToRotate<T>(s: seq<T>, first: nat, middle: nat, last: nat)
    requires first <= middle <= last <= |s| && (first == middle || middle == last)
    ensures Rotated(s, first, middle, last) == s
  {
  }

  // ----- bidirectional iterators: reversals

  function Reversed<T>(s: seq<T>): (r: seq<T>)
    ensures |r| == |s| && forall k :: 0 <= k < |s| ==> r[k] == s[|s| - 1 - k]
  {
    if s == [] then [] else Reversed(s[1..]) + [s[0]]
  }

  lemma ReversedParts<T>(a: seq<T>, b: seq<T>)
    ensures Reversed(Reversed(a) + Reversed(b)) == b + a
  {
  }

  function ReversedRange<T>(s: seq<T>, first: nat, last: nat): (r: seq<T>)
    requires first <= last <= |s|
    ensures |r| == |s|
  {
    s[..first] + Reversed(s[first..last]) + s[last..]
  }

  lemma RangeParts<T>(a: seq<T>, b: seq<T>, c: seq<T>)
    ensures (a + b + c)[..|a|] == a && (a + b + c)[|a|..|a| + |b|] == b && (a + b + c)[|a| + |b|..] == c
  {
  }

  /** Reversing one part of a sequence in four parts. */
  lemma ReverseSecond<T>(a: seq<T>, b: seq<T>, c: seq<T>)
    ensures ReversedRange(a + b + c, |a|, |a| + |b|) == a + Reversed(b) + c
  {
    hide Reversed;
    RangeParts(a, b, c);
  }

  lemma ThreeReversals<T>(s: seq<T>, first: nat, middle: nat, last: nat)
    requires first <= middle <= last <= |s|
    ensures ReversedRange(ReversedRange(ReversedRange(s, first, middle), middle, last), first, last)
      == Rotated(s, first, middle, last)
  {
    hide Reversed, ReversedRange;
    var a, b, c, d := s[..first], s[first..middle], s[middle..last], s[last..];
    assert s == a + b + (c + d);
    ReverseSecond(a, b, c + d);
    assert a + Reversed(b) + (c + d) == (a + Reversed(b)) + c + d;
    ReverseSecond(a + Reversed(b), c, d);
    assert (a + Reversed(b)) + Reversed(c) + d == a + (Reversed(b) + Reversed(c)) + d;
    ReverseSecond(a, Reversed(b) + Reversed(c), d);
    ReversedParts(b, c);
    assert a + (c + b) + d == a + c + b + d;
  }

  /** first and last approach each other; the iterators only step by one. */
  method Reverse<T>(a: array<T>, from: nat, to: nat)
    requires from <= to <= a.Length
    modifies a
    ensures a[..] == ReversedRange(old(a[..]), from, to)
  {
    var first, last := from, to;
    while true
      invariant from <= first <= last <= to && first - from == to - last
      invariant forall k :: 0 <= k < a.Length && !(from <= k < first || last <= k < to) ==> a[k] == old(a[k])
      invariant forall k :: from <= k < first || last <= k < to ==> a[k] == old(a[from + to - 1 - k])
      decreases last - first
    {
      if first == last { break; }
      last := last - 1;
      if first == last { break; }
      var temp := a[first];
      a[first] := a[last];
      a[last] := temp;
      first := first + 1;
    }
    assert forall k :: from <= k < to ==> a[k] == old(a[from + to - 1 - k]);
    assert a[..] == ReversedRange(old(a[..]), from, to);
  }

  method RotateBidirectional<T>(a: array<T>, first: nat, middle: nat, last: nat)
    requires first <= middle <= last <= a.Length
    modifies a
    ensures a[..] == Rotated(old(a[..]), first, middle, last)
  {
    hide Rotated, ReversedRange;
    ThreeReversals(a[..], first, middle, last);
    if first == middle || middle == last {
      NothingToRotate(a[..], first, middle, last);
      return;
    }
    Reverse(a, first, middle);
    Reverse(a, middle, last);
    Reverse(a, first, last);
  }

  // ----- random-access iterators: cycles

  ghost predicate Divides(d: nat, m: nat) { d > 0 && exists k: nat :: m == d * k }

  /** d is a sum of multiples of a and b. */
  ghost predicate Combines(d: int, a: int, b: int) { exists x: int, y: int :: d == x * b + y * a }

  lemma CombinesStep(d: int, e: int, q: int, a: int, b: int)
    requires Combines(d, a, b) && Combines(e, a, b)
    ensures Combines(d - q * e, a, b)
  {
    var x, y :| d == x * b + y * a;
    var u, v :| e == u * b + v * a;
    assert q * e == (q * u) * b + (q * v) * a;
    assert d - q * e == (x - q * u) * b + (y - q * v) * a;
  }

  lemma CombinesBoth(a: int, b: int)
    ensures Combines(a, a, b) && Combines(b, a, b)
  {
    assert a == 0 * b + 1 * a && b == 1 * b + 0 * a;
  }

  lemma DividesSum(g: nat, n: nat, q: nat, r: nat)
    requires Divides(g, n) && Divides(g, r)
    ensures Divides(g, n * q + r)
  {
    var i: nat :| n == g * i;
    var j: nat :| r == g * j;
    Distribute(g, i, q, j);
  }

  lemma DivMod(m: nat, n: nat)
    requires n > 0
    ensures m == n * (m / n) + m % n
  {
  }

  lemma Distribute(g: nat, i: nat, q: nat, j: nat)
    ensures (g * i) * q + g * j == g * (i * q + j)
  {
  }

  lemma DividesSelf(m: nat)
    requires m > 0
    ensures Divides(m, m) && Divides(m, 0)
  {
    assert m == m * 1 && 0 == m * 0;
  }

  /** The common divisor that is a combination of both numbers: the greatest one. */
  method Gcd(a: nat, b: nat) returns (g: nat)
    requires a > 0 && b > 0
    ensures g > 0 && Divides(g, a) && Divides(g, b) && Combines(g, a, b)
  {
    hide Divides, Combines;
    var m: nat, n: nat := a, b;
    CombinesBoth(a, b);
    while n != 0
      invariant m > 0 && Combines(m, a, b) && Combines(n, a, b)
      invariant forall d: nat {:trigger Divides(d, m)} ::
        Divides(d, m) && Divides(d, n) ==> Divides(d, a) && Divides(d, b)
      decreases n
    {
      var t := m % n;
      ghost var q := m / n;
      DivMod(m, n);
      CombinesStep(m, n, q, a, b);
      forall d: nat | Divides(d, n) && Divides(d, t) ensures Divides(d, m) { DividesSum(d, n, q, t); }
      m, n := n, t;
    }
    g := m;
    DividesSelf(m);
  }

  lemma MulMono(g: nat, i: int, j: int)
    ensures i <= j ==> g * i <= g * j
  {
    if i <= j { assert g * (j - i) >= 0; }
  }

  /** Division with remainder has one result. */
  lemma QuotientIs(g: nat, k: int, r: nat)
    requires r < g
    ensures (g * k + r) / g == k && (g * k + r) % g == r
  {
    var x := g * k + r;
    var q := x / g;
    assert x == g * q + x % g;
    MulMono(g, q + 1, k);
    MulMono(g, k + 1, q);
    assert g * (q + 1) == g * q + g && g * (k + 1) == g * k + g;
  }

  /** The position whose element moves to position p. */
  function Next(n: nat, shift: nat, p: nat): (q: nat)
    requires p < n && 0 < shift < n
    ensures q < n
  {
    if n - p > shift then p + shift else shift - (n - p)
  }

  function Prev(n: nat, shift: nat, p: nat): (q: nat)
    requires p < n && 0 < shift < n
    ensures q < n && Next(n, shift, q) == p
  {
    if p >= shift then p - shift else p + n - shift
  }

  /** j steps from p. */
  function Iterate(n: nat, shift: nat, p: nat, j: nat): (q: nat)
    requires p < n && 0 < shift < n
    ensures q < n
    decreases j
  {
    if j == 0 then p else Next(n, shift, Iterate(n, shift, p, j - 1))
  }

  lemma {:induction false} IterateIs(n: nat, shift: nat, p: nat, j: nat) returns (turns: nat)
    requires p < n && 0 < shift < n
    ensures Iterate(n, shift, p, j) == p + j * shift - turns * n
    decreases j
  {
    if j == 0 {
      turns := 0;
    } else {
      var t := IterateIs(n, shift, p, j - 1);
      turns := if n - Iterate(n, shift, p, j - 1) > shift then t else t + 1;
      assert j * shift == (j - 1) * shift + shift;
      assert (t + 1) * n == t * n + n;
    }
  }

  lemma SameResidue(a: nat, b: nat, t: int, n: nat)
    requires a < n && b < n && a == b + n * t
    ensures a == b
  {
    MulMono(n, 1, t);
    MulMono(n, t, -1);
  }

  /** g places on is some number of steps on. */
  lemma StepsTo(n: nat, shift: nat, g: nat, p: nat) returns (j: nat)
    requires 0 < shift < n && Combines(g, n, shift) && p + g < n
    ensures Iterate(n, shift, p, j) == p + g
  {
    hide Iterate;
    var x, y :| g == x * shift + y * n;
    j := x % n;
    var turns := IterateIs(n, shift, p, j);
    var q := x / n;
    assert x == n * q + j;
    Regroup(n, shift, q, j, y, turns);
    assert (n * q + j) * shift == x * shift;
    SameResidue(Iterate(n, shift, p, j), p + g, -y - q * shift - turns, n);
  }

  lemma Regroup(n: nat, shift: nat, q: int, j: nat, y: int, turns: nat)
    ensures j * shift - turns * n == (n * q + j) * shift + y * n + n * (-y - q * shift - turns)
  {
    assert (n * q + j) * shift == n * (q * shift) + j * shift;
    assert n * (-y - q * shift - turns) == -(n * y) - n * (q * shift) - n * turns;
  }

  predicate Closed(n: nat, shift: nat, w: set<nat>)
    requires 0 < shift < n
  {
    forall p :: p in w ==> p < n && Next(n, shift, p) in w
  }

  lemma {:induction false} ClosedIterate(n: nat, shift: nat, w: set<nat>, p: nat, j: nat)
    requires 0 < shift < n && Closed(n, shift, w) && p in w
    ensures p < n && Iterate(n, shift, p, j) in w
    decreases j
  {
    if j > 0 { ClosedIterate(n, shift, w, p, j - 1); }
  }

  /** A closed set that holds c holds everything that differs from c by a multiple of g. */
  lemma {:induction false} ClosedHolds(n: nat, shift: nat, g: nat, w: set<nat>, c: nat, t: nat)
    requires 0 < shift < n && Combines(g, n, shift) && Closed(n, shift, w) && c in w && c + t * g < n
    ensures c + t * g in w
    decreases t
  {
    if t > 0 {
      assert t * g == (t - 1) * g + g;
      ClosedHolds(n, shift, g, w, c, t - 1);
      var j := StepsTo(n, shift, g, c + (t - 1) * g);
      ClosedIterate(n, shift, w, c + (t - 1) * g, j);
    }
  }

  lemma NextMod(n: nat, shift: nat, g: nat, p: nat)
    requires p < n && 0 < shift < n && Divides(g, n) && Divides(g, shift)
    ensures Next(n, shift, p) % g == p % g
  {
    var i: nat :| n == g * i;
    var j: nat :| shift == g * j;
    if n - p > shift {
      AddMultiple(p, g, j);
    } else {
      assert g * (j - i) == shift - n;
      AddMultiple(p, g, j - i);
    }
  }

  lemma AddMultiple(p: nat, g: nat, k: int)
    requires g > 0 && p + g * k >= 0
    ensures (p + g * k) % g == p % g
  {
    var q, r := p / g, p % g;
    assert p == g * q + r;
    assert g * (q + k) == g * q + g * k;
    QuotientIs(g, q + k, r);
  }

  lemma {:induction false} SizeBound(w: set<nat>, n: nat)
    requires forall p :: p in w ==> p < n
    ensures |w| <= n
    decreases n
  {
    if n > 0 {
      SizeBound(w - {n - 1}, n - 1);
    } else {
      assert w == {};
    }
  }

  /** The positions `done` lie on the way from c to p. */
  predicate OnTheWay(n: nat, shift: nat, c: nat, done: set<nat>, p: nat)
    requires 0 < shift < n
  {
    && c < n && p < n && p !in done && (p == c <==> done == {}) && c in Add(done, p)
    && (forall k :: k in done ==> k < n && Next(n, shift, k) in Add(done, p))
    && (forall k :: k in Add(done, p) && k < n && k != c ==> Prev(n, shift, k) in done)
  }

  /** The positions `done` have their new element. */
  predicate Moved<T(==)>(s: seq<T>, t: seq<T>, first: nat, n: nat, shift: nat, done: set<nat>)
    requires 0 < shift < n
  {
    && first + n <= |s| == |t| && (forall k :: k in done ==> k < n)
    && (forall k :: 0 <= k < |s| && !(first <= k && k - first in done) ==> t[k] == s[k])
    && (forall k :: k in done ==> t[first + k] == s[first + Next(n, shift, k)])
  }

  lemma WayStep(n: nat, shift: nat, c: nat, done: set<nat>, p: nat)
    requires 0 < shift < n && OnTheWay(n, shift, c, done, p) && Next(n, shift, p) != c
    ensures Next(n, shift, p) !in done && OnTheWay(n, shift, c, Add(done, p), Next(n, shift, p))
  {
    var q := Next(n, shift, p);
    assert Prev(n, shift, q) == p;
  }

  lemma MovedStep<T>(s: seq<T>, t: seq<T>, first: nat, n: nat, shift: nat, done: set<nat>, p: nat, x: T)
    requires 0 < shift < n && Moved(s, t, first, n, shift, done) && p < n && p !in done
    requires x == s[first + Next(n, shift, p)]
    ensures Moved(s, t[first + p := x], first, n, shift, Add(done, p))
  {
    hide Next;
    var u, d := t[first + p := x], Add(done, p);
    forall k | 0 <= k < |s| && !(first <= k && k - first in d) ensures u[k] == s[k] {
      assert !(first <= k && k - first in done) && k != first + p;
    }
    forall k | k in d ensures u[first + k] == s[first + Next(n, shift, k)] {
      if k != p { assert k in done; }
    }
  }

  lemma NotMoved<T>(s: seq<T>, t: seq<T>, first: nat, n: nat, shift: nat, done: set<nat>, k: nat)
    requires 0 < shift < n && Moved(s, t, first, n, shift, done) && k < n && k !in done
    ensures t[first + k] == s[first + k]
  {
    assert !(first <= first + k && first + k - first in done);
  }

  lemma WayEnds(n: nat, shift: nat, c: nat, done: set<nat>, p: nat)
    requires 0 < shift < n && OnTheWay(n, shift, c, done, p) && Next(n, shift, p) == c
    ensures Closed(n, shift, Add(done, p)) && c in Add(done, p)
  {
    hide Next, Prev;
  }

  function Rem(k: nat, g: nat): (r: nat)
    requires g > 0
    ensures r < g
  {
    k % g
  }

  function Add(w: set<nat>, p: nat): set<nat> { w + {p} }

  predicate SameRemainder(w: set<nat>, n: nat, g: nat, c: nat)
    requires g > 0
  {
    forall k :: k in w ==> k < n && Rem(k, g) == Rem(c, g)
  }

  lemma RemainderStep(done: set<nat>, n: nat, shift: nat, g: nat, c: nat, p: nat)
    requires 0 < shift < n && g > 0 && Divides(g, n) && Divides(g, shift) && SameRemainder(Add(done, p), n, g, c)
    requires p !in done
    ensures SameRemainder(Add(Add(done, p), Next(n, shift, p)), n, g, c) && |Add(done, p)| == |done| + 1 <= n
  {
    hide Next, Divides;
    NextMod(n, shift, g, p);
    SizeBound(Add(done, p), n);
  }

  /** Moves the elements of one cycle, which starts at c, one step each. */
  method RotateCycle<T(==)>(a: array<T>, first: nat, last: nat, c: nat, shift: nat, ghost g: nat)
    returns (ghost w: set<nat>)
    requires first < last <= a.Length && c + shift < last - first && 0 < shift
    requires g > 0 && Divides(g, last - first) && Divides(g, shift)
    modifies a
    ensures var n := last - first;
      && Closed(n, shift, w) && c in w && SameRemainder(w, n, g, c)
      && Moved(old(a[..]), a[..], first, n, shift, w)
  {
    hide OnTheWay, Moved, Next, Closed, Divides, SameRemainder, Add, Rem;
    ghost var s := a[..];
    ghost var n := last - first;
    var value := a[first + c];
    var ptr1: nat := first + c;
    var ptr2: nat := ptr1 + shift;
    ghost var done: set<nat> := {};
    CycleStarts(s, first, n, shift, c);
    while ptr2 != first + c
      invariant first <= ptr1 < last && first <= ptr2 < last && ptr2 - first == Next(n, shift, ptr1 - first)
      invariant OnTheWay(n, shift, c, done, ptr1 - first)
      invariant Moved(s, a[..], first, n, shift, done) && ptr1 - first !in done
      invariant SameRemainder(Add(done, ptr1 - first), n, g, c) && |done| <= n
      decreases n - |done|
    {
      ghost var p := ptr1 - first;
      WayStep(n, shift, c, done, p);
      NotMoved(s, a[..], first, n, shift, done, ptr2 - first);
      MovedStep(s, a[..], first, n, shift, done, p, a[ptr2]);
      RemainderStep(done, n, shift, g, c, p);
      a[ptr1] := a[ptr2];
      done := Add(done, p);
      ptr1 := ptr2;
      if last - ptr2 > shift {
        ptr2 := ptr2 + shift;
      } else {
        ptr2 := first + (shift - (last - ptr2));
      }
      NextIs(n, shift, ptr1 - first);
    }
    WayEnds(n, shift, c, done, ptr1 - first);
    MovedStep(s, a[..], first, n, shift, done, ptr1 - first, value);
    w := Add(done, ptr1 - first);
    a[ptr1] := value;
  }

  lemma NextIs(n: nat, shift: nat, p: nat)
    requires p < n && 0 < shift < n
    ensures Next(n, shift, p) == if n - p > shift then p + shift else shift - (n - p)
  {
  }

  lemma CycleStarts<T>(s: seq<T>, first: nat, n: nat, shift: nat, c: nat)
    requires first + n <= |s| && c + shift < n && 0 < shift
    ensures OnTheWay(n, shift, c, {}, c) && Moved(s, s, first, n, shift, {}) && Next(n, shift, c) == c + shift
    ensures forall g: nat :: g > 0 ==> SameRemainder(Add({}, c), n, g, c)
  {
  }

  /** The cycles from position `from` on are done: the positions whose remainder is at least `from`. */
  predicate CyclesState<T(==)>(s: seq<T>, t: seq<T>, first: nat, n: nat, shift: nat, g: nat, from: nat)
    requires 0 < shift < n && g > 0
  {
    && first + n <= |s| == |t|
    && (forall k :: 0 <= k < |s| && !(first <= k < first + n) ==> t[k] == s[k])
    && (forall k :: 0 <= k < n ==>
          t[first + k] == if Rem(k, g) >= from then s[first + Next(n, shift, k)] else s[first + k])
  }

  /** A closed set whose elements have remainder c is all of them. */
  lemma ClosedIsResidue(n: nat, shift: nat, g: nat, w: set<nat>, c: nat, k: nat)
    requires 0 < shift < n && Combines(g, n, shift) && c < g && Closed(n, shift, w) && c in w
    requires SameRemainder(w, n, g, c)
    ensures k in w <==> k < n && Rem(k, g) == c
  {
    hide Combines, Closed;
    RemSmall(c, g);
    if k < n && k % g == c {
      assert k == c + k / g * g;
      ClosedHolds(n, shift, g, w, c, k / g);
    }
  }

  lemma CyclesStep<T>(s: seq<T>, t: seq<T>, u: seq<T>, first: nat, n: nat, shift: nat, g: nat, c: nat, w: set<nat>)
    requires 0 < shift < n && Combines(g, n, shift) && c < g && CyclesState(s, t, first, n, shift, g, c + 1)
    requires Closed(n, shift, w) && c in w && SameRemainder(w, n, g, c) && Moved(t, u, first, n, shift, w)
    ensures CyclesState(s, u, first, n, shift, g, c)
  {
    hide Next, Combines, Closed, Rem, SameRemainder;
    RemSmall(c, g);
    forall k | 0 <= k < |s| && !(first <= k < first + n) ensures u[k] == s[k] {
      assert !(first <= k && k - first in w);
    }
    forall k | 0 <= k < n
      ensures u[first + k] == if Rem(k, g) >= c then s[first + Next(n, shift, k)] else s[first + k]
    {
      ClosedIsResidue(n, shift, g, w, c, k);
      if k in w {
        assert u[first + k] == t[first + Next(n, shift, k)];
        ClosedNext(n, shift, w, k);
        ClosedIsResidue(n, shift, g, w, c, Next(n, shift, k));
        assert t[first + Next(n, shift, k)] == s[first + Next(n, shift, k)];
      } else {
        NotMoved(t, u, first, n, shift, w, k);
        assert t[first + k] == if Rem(k, g) >= c + 1 then s[first + Next(n, shift, k)] else s[first + k];
      }
    }
  }

  lemma ClosedNext(n: nat, shift: nat, w: set<nat>, k: nat)
    requires 0 < shift < n && Closed(n, shift, w) && k in w
    ensures k < n && Next(n, shift, k) in w
  {
  }

  lemma CyclesEnd<T>(s: seq<T>, t: seq<T>, first: nat, middle: nat, last: nat, g: nat)
    requires first < middle < last <= |s| && g > 0 && CyclesState(s, t, first, last - first, middle - first, g, 0)
    ensures t == Rotated(s, first, middle, last)
  {
    var r := Rotated(s, first, middle, last);
    forall k | 0 <= k < |s| ensures t[k] == r[k] {
      if first <= k < last {
        assert Rem(k - first, g) >= 0;
        assert t[first + (k - first)] == s[first + Next(last - first, middle - first, k - first)];
      }
    }
  }

  lemma GcdSmall(g: nat, n: nat, shift: nat)
    requires 0 < shift < n && Divides(g, n) && Divides(g, shift)
    ensures g + shift <= n
  {
    var i: nat :| n == g * i;
    var j: nat :| shift == g * j;
    MulMono(g, i, j);
    MulMono(g, j + 1, i);
    assert g * (j + 1) == g * j + g;
  }

  method RotateRandomAccess<T(==)>(a: array<T>, first: nat, middle: nat, last: nat)
    requires first <= middle <= last <= a.Length
    modifies a
    ensures a[..] == Rotated(old(a[..]), first, middle, last)
  {
    hide Rotated, CyclesState, Divides, Combines, Next, Closed, Moved;
    if first == middle || middle == last {
      NothingToRotate(a[..], first, middle, last);
      return;
    }
    ghost var s := a[..];
    var c := Gcd(last - first, middle - first);
    ghost var g := c;
    GcdSmall(g, last - first, middle - first);
    CyclesStart(s, first, last - first, middle - first, g);
    while c > 0
      invariant 0 <= c <= g && CyclesState(s, a[..], first, last - first, middle - first, g, c)
    {
      c := c - 1;
      ghost var before := a[..];
      ghost var w := RotateCycle(a, first, last, c, middle - first, g);
      CyclesStep(s, before, a[..], first, last - first, middle - first, g, c, w);
    }
    CyclesEnd(s, a[..], first, middle, last, g);
  }

  lemma RemSmall(c: nat, g: nat)
    requires c < g
    ensures Rem(c, g) == c
  {
  }

  lemma CyclesStart<T>(s: seq<T>, first: nat, n: nat, shift: nat, g: nat)
    requires first + n <= |s| && 0 < shift < n && g > 0
    ensures CyclesState(s, s, first, n, shift, g, g)
  {
  }
}
