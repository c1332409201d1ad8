/** The LOOK scheduler of base/elevator.cc, and why the better of its two directions cannot be beaten. */
module Elevator {

  const TWO_32: nat := 0x1_0000_0000

  datatype Direction = Up | Down

  function AbsDiff(a: nat, b: nat): nat { if a > b then a - b else b - a }

  /** How far the lift travels from `pos` through the floors in order. */
  function Length(pos: nat, order: seq<nat>): nat
    decreases |order|
  {
    if order == [] then 0 else AbsDiff(pos, order[0]) + Length(order[0], order[1..])
  }

  /** The distances from floor to floor, added up one after the other. */
  ghost predicate Legs(pos: nat, order: seq<nat>, sums: seq<int>) {
    && |sums| == |order| + 1 && sums[0] == 0
    && forall i :: 0 <= i < |order| ==>
         var from := if i == 0 then pos else order[i - 1];
         sums[i + 1] == sums[i] + if from < order[i] then order[i] - from else from - order[i]
  }

  predicate Sorted(s: seq<nat>) { forall i, j :: 0 <= i < j < |s| ==> s[i] <= s[j] }

  // ----- sorting, as `std::sort` does it

  function Insert(x: nat, s: seq<nat>): seq<nat> {
    if s == [] || x <= s[0] then [x] + s else [s[0]] + Insert(x, s[1..])
  }

  function SortedOf(s: seq<nat>): seq<nat> { if s == [] then [] else Insert(s[0], SortedOf(s[1..])) }

  lemma {:induction false} InsertHas(x: nat, s: seq<nat>)
    ensures multiset(Insert(x, s)) == multiset(s) + multiset{x}
  {
    if s != [] && x > s[0] {
      InsertHas(x, s[1..]);
      assert s == [s[0]] + s[1..];
    }
  }

  lemma {:induction false} InsertKeeps(x: nat, s: seq<nat>)
    requires Sorted(s)
    ensures Sorted(Insert(x, s)) && |Insert(x, s)| > 0
    ensures (Insert(x, s)[0] == x || (s != [] && Insert(x, s)[0] == s[0] < x))
  {
    if s != [] && x > s[0] {
      InsertKeeps(x, s[1..]);
      var t := Insert(x, s[1..]);
      assert s[0] <= t[0];
      assert Insert(x, s)[1..] == t;
      forall i, j | 0 <= i < j < |t| + 1 ensures Insert(x, s)[i] <= Insert(x, s)[j] {
        assert t[0] <= t[j - 1];
      }
    }
  }

  lemma {:induction false} SortedOfIs(s: seq<nat>)
    ensures Sorted(SortedOf(s)) && multiset(SortedOf(s)) == multiset(s)
  {
    if s != [] {
      SortedOfIs(s[1..]);
      InsertKeeps(s[0], SortedOf(s[1..]));
      InsertHas(s[0], SortedOf(s[1..]));
      assert s == [s[0]] + s[1..];
    }
  }

  // ----- the route

  function Reversed(s: seq<nat>): (r: seq<nat>)
    ensures |r| == |s| && forall k :: 0 <= k < |s| ==> r[k] == s[|s| - 1 - k]
  {
    if s == [] then [] else Reversed(s[1..]) + [s[0]]
  }

  lemma {:induction false} ReversedHas(s: seq<nat>)
    ensures multiset(Reversed(s)) == multiset(s)
  {
    if s != [] {
      ReversedHas(s[1..]);
      assert s == [s[0]] + s[1..];
    }
  }

  function Route(lower: seq<nat>, upper: seq<nat>, direction: Direction): seq<nat> {
    if direction.Up? then upper + Reversed(lower) else Reversed(lower) + upper
  }

  /** The requests on one side of the floor in turn and then, on the way back, those on the other. */
  ghost predicate IsSweep(order: seq<nat>, current: nat, direction: Direction, requests: seq<nat>) {
    exists lower: seq<nat>, upper: seq<nat> ::
      && Sorted(lower + upper) && multiset(lower + upper) == multiset(requests)
      && (forall x :: x in lower ==> x < current) && (forall x :: x in upper ==> current <= x)
      && order == Route(lower, upper, direction)
  }

  /** Going up: the requests from the current floor on upwards and then those below it downwards. */
  ghost predicate UpThenDown(order: seq<nat>, current: nat) {
    forall i, j :: 0 <= i < j < |order| ==>
      if order[j] >= current then current <= order[i] <= order[j] else order[i] >= current || order[i] >= order[j]
  }

  /** Going down: the requests below the current floor downwards and then the others upwards. */
  ghost predicate DownThenUp(order: seq<nat>, current: nat) {
    forall i, j :: 0 <= i < j < |order| ==>
      if order[j] < current then order[j] <= order[i] < current else order[i] < current || order[i] <= order[j]
  }

  lemma SweptUp(lower: seq<nat>, upper: seq<nat>, current: nat)
    requires Sorted(lower + upper)
    requires (forall k :: 0 <= k < |lower| ==> lower[k] < current)
    requires (forall k :: 0 <= k < |upper| ==> current <= upper[k])
    ensures UpThenDown(upper + Reversed(lower), current)
  {
    hide Reversed, Sorted;
    Parts(lower, upper);
    Ascends(upper);
    Backward(lower, current);
    Joins(upper, Reversed(lower));
  }

  lemma SweptDown(lower: seq<nat>, upper: seq<nat>, current: nat)
    requires Sorted(lower + upper)
    requires (forall k :: 0 <= k < |lower| ==> lower[k] < current)
    requires (forall k :: 0 <= k < |upper| ==> current <= upper[k])
    ensures DownThenUp(Reversed(lower) + upper, current)
  {
    hide Reversed, Sorted;
    Parts(lower, upper);
    Ascends(upper);
    Backward(lower, current);
    Joins(Reversed(lower), upper);
  }

  lemma Backward(s: seq<nat>, current: nat)
    requires Sorted(s) && forall k :: 0 <= k < |s| ==> s[k] < current
    ensures forall i, j :: 0 <= i < j < |s| ==> Reversed(s)[j] <= Reversed(s)[i]
    ensures forall i :: 0 <= i < |s| ==> Reversed(s)[i] < current
  {
    hide Reversed;
    forall i, j | 0 <= i < j < |s| ensures Reversed(s)[j] <= Reversed(s)[i] < current {
      assert Reversed(s)[i] == s[|s| - 1 - i] && Reversed(s)[j] == s[|s| - 1 - j];
    }
  }

  lemma Ascends(s: seq<nat>)
    requires Sorted(s)
    ensures forall i, j :: 0 <= i < j < |s| ==> s[i] <= s[j]
  {}

  lemma Joins(s: seq<nat>, t: seq<nat>)
    ensures forall i :: 0 <= i < |s| + |t| ==> (s + t)[i] == if i < |s| then s[i] else t[i - |s|]
  {}

  method ElevatorLook(current: nat, direction: Direction, requests: seq<nat>) returns (order: seq<nat>, total: nat)
    ensures multiset(order) == multiset(requests) && total == Length(current, order) % TWO_32
    ensures Length(current, order) == Cost(current, direction, requests)
    ensures IsSweep(order, current, direction, requests)
    ensures if direction.Up? then UpThenDown(order, current) else DownThenUp(order, current)
    ensures exists sums :: Legs(current, order, sums) && total == sums[|order|] % 4294967296
  {
    hide Length, Cost, Reversed, SortedOf, Sorted, Legs, UpThenDown, DownThenUp, IsSweep;
    order, total := [], 0;
    Nothing(current, direction);
    if requests == [] {
      NoSweep(current, direction);
      ghost var _ := LengthAdds(current, order);
      return;
    }
    var sorted := SortedOf(requests);
    SortedOfIs(requests);
    var lower, upper := Divide(sorted, current);
    if direction.Up? {
      order := AppendReversed(upper, lower);
    } else {
      order := AppendReversed([], lower);
      order := order + upper;
      assert [] + Reversed(lower) == Reversed(lower);
    }
    total := Travel(current, order);
    RouteCost(current, direction, requests, lower, upper);
    Swept(order, current, direction, requests, lower, upper);
    SweptUp(lower, upper, current);
    SweptDown(lower, upper, current);
    ghost var _ := LengthAdds(current, order);
  }

  lemma NoSweep(current: nat, direction: Direction)
    ensures IsSweep([], current, direction, []) && UpThenDown([], current) && DownThenUp([], current)
  {
    var none: seq<nat> := [];
    assert none + none == none && Reversed(none) == none && none == Route(none, none, direction);
  }

  lemma Swept(order: seq<nat>, current: nat, direction: Direction, requests: seq<nat>, lower: seq<nat>, upper: seq<nat>)
    requires Sorted(lower + upper) && multiset(lower + upper) == multiset(requests)
    requires (forall k :: 0 <= k < |lower| ==> lower[k] < current)
    requires (forall k :: 0 <= k < |upper| ==> current <= upper[k])
    requires order == Route(lower, upper, direction)
    ensures IsSweep(order, current, direction, requests)
  {
    hide Route, Sorted;
  }

  lemma Nothing(current: nat, direction: Direction)
    ensures Length(current, []) == 0 == Cost(current, direction, [])
  {
  }

  /** The floors below the current one, and the others. */
  method Divide(sorted: seq<nat>, current: nat) returns (lower: seq<nat>, upper: seq<nat>)
    requires Sorted(sorted)
    ensures lower + upper == sorted
    ensures (forall k :: 0 <= k < |lower| ==> lower[k] < current)
    ensures (forall k :: 0 <= k < |upper| ==> current <= upper[k])
  {
    hide Sorted;
    lower, upper := [], [];
    var i := 0;
    while i < |sorted|
      invariant 0 <= i <= |sorted| && lower + upper == sorted[..i]
      invariant (forall k :: 0 <= k < |lower| ==> lower[k] < current)
      invariant (forall k :: 0 <= k < |upper| ==> current <= upper[k])
    {
      Separated(sorted, lower, upper, current, i);
      if sorted[i] < current {
        lower := lower + [sorted[i]];
      } else {
        upper := upper + [sorted[i]];
      }
      i := i + 1;
    }
  }

  /** Appends the floors from the last to the first. */
  method AppendReversed(start: seq<nat>, s: seq<nat>) returns (order: seq<nat>)
    ensures order == start + Reversed(s)
  {
    hide Reversed;
    order := start;
    var j := |s| - 1;
    assert s[..j + 1] == s;
    while j >= 0
      invariant -1 <= j < |s| && order + Reversed(s[..j + 1]) == start + Reversed(s)
    {
      ReversedSnoc(s[..j], s[j]);
      assert s[..j] + [s[j]] == s[..j + 1];
      order := order + [s[j]];
      j := j - 1;
    }
    assert |Reversed(s[..0])| == 0;
  }

  lemma NextFloor(pos: nat, order: seq<nat>, i: nat)
    requires i < |order|
    ensures Length(pos, order[i..]) == AbsDiff(pos, order[i]) + Length(order[i], order[i + 1..])
  {
    assert order[i..][1..] == order[i + 1..];
  }

  lemma WrapSum(a: nat, b: nat, c: nat)
    ensures (a + (b + c)) % TWO_32 == ((a + b) % TWO_32 + c) % TWO_32
  {
  }

  lemma NoFloor(pos: nat, order: seq<nat>, i: nat)
    requires i == |order|
    ensures Length(pos, order[i..]) == 0
  {
  }

  /** Adds up the distances, in 32 bits. */
  method Travel(current: nat, order: seq<nat>) returns (total: nat)
    ensures total == Length(current, order) % TWO_32
  {
    hide Length;
    total := 0;
    var pos, i := current, 0;
    assert order[0..] == order;
    while i < |order|
      invariant 0 <= i <= |order| && 0 <= total < TWO_32
      invariant (total + Length(pos, order[i..])) % TWO_32 == Length(current, order) % TWO_32
    {
      NextFloor(pos, order, i);
      WrapSum(total, AbsDiff(pos, order[i]), Length(order[i], order[i + 1..]));
      total := (total + AbsDiff(pos, order[i])) % TWO_32;
      pos := order[i];
      i := i + 1;
    }
    NoFloor(pos, order, i);
  }

  /** Once there is a floor above, all floors that follow are above as well. */
  lemma Separated(sorted: seq<nat>, lower: seq<nat>, upper: seq<nat>, current: nat, i: nat)
    requires Sorted(sorted) && i < |sorted| && lower + upper == sorted[..i]
    requires forall k :: 0 <= k < |upper| ==> current <= upper[k]
    ensures upper != [] ==> current <= sorted[i]
  {
    if upper != [] { assert sorted[|lower|] == sorted[..i][|lower|] == upper[0]; }
  }

  lemma ReversedSnoc(s: seq<nat>, x: nat)
    ensures Reversed(s + [x]) == [x] + Reversed(s)
  {
  }

  // ----- its length

  function Least(s: seq<nat>): (m: nat)
    requires s != []
    ensures m in s && forall x :: x in s ==> m <= x
  {
    if |s| == 1 then s[0]
    else
      assert forall x :: x in s ==> x == s[0] || x in s[1..];
      var m := Least(s[1..]);
      if s[0] < m then s[0] else m
  }

  function Greatest(s: seq<nat>): (m: nat)
    requires s != []
    ensures m in s && forall x :: x in s ==> x <= m
  {
    if |s| == 1 then s[0]
    else
      assert forall x :: x in s ==> x == s[0] || x in s[1..];
      var m := Greatest(s[1..]);
      if s[0] > m then s[0] else m
  }

  /** The way to one end and then, if there are requests on the other side, to the other end. */
  function Cost(current: nat, direction: Direction, requests: seq<nat>): nat {
    if requests == [] then 0
    else
      var lo, hi := Least(requests), Greatest(requests);
      if current <= lo then hi - current
      else if hi < current then current - lo
      else if direction.Up? then (hi - current) + (hi - lo) else (current - lo) + (hi - lo)
  }

  function End(pos: nat, s: seq<nat>): nat { if s == [] then pos else s[|s| - 1] }

  lemma {:induction false} LengthAppend(pos: nat, a: seq<nat>, b: seq<nat>)
    ensures Length(pos, a + b) == Length(pos, a) + Length(End(pos, a), b)
    decreases |a|
  {
    if a == [] {
      assert a + b == b;
    } else {
      assert (a + b)[1..] == a[1..] + b;
      LengthAppend(a[0], a[1..], b);
    }
  }

  lemma OneLeg(pos: nat, x: nat)
    ensures Length(pos, []) == 0 && Length(pos, [x]) == AbsDiff(pos, x)
  {
    assert Length(x, []) == 0;
  }

  lemma {:induction false} LengthAdds(pos: nat, order: seq<nat>) returns (sums: seq<int>)
    ensures Legs(pos, order, sums) && Length(pos, order) == sums[|order|]
    decreases |order|
  {
    hide Length;
    OneLeg(pos, 0);
    sums := [0];
    if order != [] {
      var n := |order| - 1;
      var x := order[n];
      var front := LengthAdds(pos, order[..n]);
      LengthAppend(pos, order[..n], [x]);
      OneLeg(End(pos, order[..n]), x);
      assert order == order[..n] + [x];
      sums := front + [front[n] + AbsDiff(End(pos, order[..n]), x)];
    }
  }

  lemma {:induction false} LengthUp(pos: nat, s: seq<nat>)
    requires Sorted(s) && (s != [] ==> pos <= s[0])
    ensures pos <= End(pos, s) && Length(pos, s) == End(pos, s) - pos
    decreases |s|
  {
    if s != [] { LengthUp(s[0], s[1..]); }
  }

  lemma {:induction false} LengthDown(pos: nat, s: seq<nat>)
    requires (forall i, j :: 0 <= i < j < |s| ==> s[i] >= s[j]) && (s != [] ==> s[0] <= pos)
    ensures End(pos, s) <= pos && Length(pos, s) == pos - End(pos, s)
    decreases |s|
  {
    if s != [] { LengthDown(s[0], s[1..]); }
  }

  lemma RouteCost(current: nat, direction: Direction, requests: seq<nat>, lower: seq<nat>, upper: seq<nat>)
    requires requests != [] && Sorted(lower + upper) && multiset(lower + upper) == multiset(requests)
    requires (forall k :: 0 <= k < |lower| ==> lower[k] < current)
    requires (forall k :: 0 <= k < |upper| ==> current <= upper[k])
    ensures Length(current, Route(lower, upper, direction)) == Cost(current, direction, requests)
    ensures multiset(Route(lower, upper, direction)) == multiset(requests)
  {
    hide Length, Sorted, Reversed, Least, Greatest, Cost;
    Extremes(lower + upper, requests);
    RouteHas(lower, upper, direction);
    if direction.Up? { RouteUp(current, lower, upper); } else { RouteDown(current, lower, upper); }
    CostOf(current, direction, requests, lower, upper);
  }

  lemma RouteUp(current: nat, lower: seq<nat>, upper: seq<nat>)
    requires Sorted(lower + upper) && lower + upper != []
    requires (forall k :: 0 <= k < |lower| ==> lower[k] < current)
    requires (forall k :: 0 <= k < |upper| ==> current <= upper[k])
    ensures Length(current, upper + Reversed(lower)) == TwoWays(current, Up, lower, upper)
  {
    hide Length, Sorted, Reversed;
    Parts(lower, upper);
    LengthAppend(current, upper, Reversed(lower));
    LengthUp(current, upper);
    DownFrom(End(current, upper), lower);
  }

  lemma RouteDown(current: nat, lower: seq<nat>, upper: seq<nat>)
    requires Sorted(lower + upper) && lower + upper != []
    requires (forall k :: 0 <= k < |lower| ==> lower[k] < current)
    requires (forall k :: 0 <= k < |upper| ==> current <= upper[k])
    ensures Length(current, Reversed(lower) + upper) == TwoWays(current, Down, lower, upper)
  {
    hide Length, Sorted, Reversed;
    Parts(lower, upper);
    LengthAppend(current, Reversed(lower), upper);
    DownFrom(current, lower);
    LengthUp(End(current, Reversed(lower)), upper);
  }

  lemma DownFrom(pos: nat, lower: seq<nat>)
    requires Sorted(lower) && (lower != [] ==> lower[|lower| - 1] <= pos)
    ensures Length(pos, Reversed(lower)) == if lower == [] then 0 else pos - lower[0]
    ensures End(pos, Reversed(lower)) == if lower == [] then pos else lower[0]
  {
    hide Length;
    var r := Reversed(lower);
    Turned(lower);
    forall i, j | 0 <= i < j < |r| ensures r[i] >= r[j] { }
    LengthDown(pos, r);
  }

  function TwoWays(current: nat, direction: Direction, lower: seq<nat>, upper: seq<nat>): int
    requires lower + upper != []
  {
    if lower == [] then upper[|upper| - 1] - current
    else if upper == [] then current - lower[0]
    else (upper[|upper| - 1] - lower[0]) + if direction.Up? then upper[|upper| - 1] - current else current - lower[0]
  }

  lemma Turned(s: seq<nat>)
    ensures var r := Reversed(s); |r| == |s| && (s != [] ==> r[0] == s[|s| - 1] && r[|s| - 1] == s[0])
  {
  }

  lemma RouteHas(lower: seq<nat>, upper: seq<nat>, direction: Direction)
    ensures multiset(Route(lower, upper, direction)) == multiset(lower + upper)
  {
    ReversedHas(lower);
    assert multiset(lower + upper) == multiset(lower) + multiset(upper);
  }

  /** The cost in terms of the two parts of the sorted requests. */
  lemma CostOf(current: nat, direction: Direction, requests: seq<nat>, lower: seq<nat>, upper: seq<nat>)
    requires requests != [] && lower + upper != []
    requires (lower + upper)[0] == Least(requests) && (lower + upper)[|lower + upper| - 1] == Greatest(requests)
    requires (forall k :: 0 <= k < |lower| ==> lower[k] < current)
    requires (forall k :: 0 <= k < |upper| ==> current <= upper[k])
    ensures Cost(current, direction, requests) == TwoWays(current, direction, lower, upper)
  {
    var s := lower + upper;
    if lower != [] { assert s[0] == lower[0]; }
    if upper != [] { assert s[|s| - 1] == upper[|upper| - 1]; }
    if lower == [] { assert s[0] == upper[0]; }
    if upper == [] { assert s[|s| - 1] == lower[|lower| - 1]; }
  }

  lemma Parts(lower: seq<nat>, upper: seq<nat>)
    requires Sorted(lower + upper)
    ensures Sorted(upper) && Sorted(lower)
    ensures lower != [] && upper != [] ==> lower[|lower| - 1] <= upper[0]
  {
    var s := lower + upper;
    forall i, j | 0 <= i < j < |upper| ensures upper[i] <= upper[j] {
      assert s[|lower| + i] == upper[i] && s[|lower| + j] == upper[j];
    }
    forall i, j | 0 <= i < j < |lower| ensures lower[i] <= lower[j] { assert s[i] == lower[i] && s[j] == lower[j]; }
    if lower != [] && upper != [] { assert s[|lower| - 1] == lower[|lower| - 1] && s[|lower|] == upper[0]; }
  }

  lemma Extremes(s: seq<nat>, requests: seq<nat>)
    requires requests != [] && Sorted(s) && multiset(s) == multiset(requests)
    ensures s != [] && s[0] == Least(requests) && s[|s| - 1] == Greatest(requests)
  {
    var lo, hi := Least(requests), Greatest(requests);
    assert lo in multiset(requests) && hi in multiset(requests);
    assert lo in multiset(s) && hi in multiset(s);
    var i :| 0 <= i < |s| && s[i] == lo;
    var j :| 0 <= j < |s| && s[j] == hi;
    assert s[0] in multiset(s) && s[|s| - 1] in multiset(s);
    assert s[0] in requests && s[|s| - 1] in requests;
  }

  // ----- no order does better

  lemma {:induction false} PassingThrough(pos: nat, s: seq<nat>, i: nat)
    requires i < |s|
    ensures Length(pos, s) >= AbsDiff(pos, s[i]) + Length(s[i], s[i + 1..])
    decreases |s|
  {
    if i > 0 {
      PassingThrough(s[0], s[1..], i - 1);
      assert s[1..][i - 1 + 1..] == s[i + 1..];
    }
  }

  lemma ThenThrough(pos: nat, s: seq<nat>, i: nat, j: nat)
    requires i < j < |s|
    ensures Length(pos, s) >= AbsDiff(pos, s[i]) + AbsDiff(s[i], s[j])
  {
    PassingThrough(pos, s, i);
    PassingThrough(s[i], s[i + 1..], j - i - 1);
  }

  /** A route that visits both ends goes from one of them to the other. */
  lemma BothEnds(pos: nat, s: seq<nat>, a: nat, b: nat)
    requires a in s && b in s
    ensures Length(pos, s) >= AbsDiff(pos, a)
    ensures Length(pos, s) >= AbsDiff(pos, a) + AbsDiff(a, b) || Length(pos, s) >= AbsDiff(pos, b) + AbsDiff(a, b)
  {
    hide Length;
    var i :| 0 <= i < |s| && s[i] == a;
    var j :| 0 <= j < |s| && s[j] == b;
    PassingThrough(pos, s, i);
    if i < j {
      ThenThrough(pos, s, i, j);
    } else if j < i {
      ThenThrough(pos, s, j, i);
    }
  }

  /** The cheaper direction of LOOK is as short as any order of the requests. */
  lemma LookIsOptimal(current: nat, requests: seq<nat>, order: seq<nat>)
    requires multiset(order) == multiset(requests)
    ensures Cost(current, Up, requests) <= Length(current, order)
      || Cost(current, Down, requests) <= Length(current, order)
  {
    if requests != [] {
      var lo, hi := Least(requests), Greatest(requests);
      assert lo in multiset(requests) && hi in multiset(requests);
      BothEnds(current, order, lo, hi);
      BothEnds(current, order, hi, lo);
    }
  }

  /** Between requests on both sides it is the shorter way to an end that decides. */
  lemma BetterDirection(current: nat, requests: seq<nat>)
    requires requests != [] && Least(requests) < current <= Greatest(requests)
    ensures Cost(current, Up, requests) <= Cost(current, Down, requests)
      <==> Greatest(requests) - current <= current - Least(requests)
  {
  }

  /** With floors below 2^31 the total fits into 32 bits. */
  lemma TotalFits(current: nat, direction: Direction, requests: seq<nat>)
    requires current < 0x8000_0000 && forall k :: 0 <= k < |requests| ==> requests[k] < 0x8000_0000
    ensures Cost(current, direction, requests) < TWO_32
  {
  }
}
