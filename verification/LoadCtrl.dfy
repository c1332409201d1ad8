/** The rate limiter of base/load_ctrl.cc: a ring of counters over time. */
module LoadCtrl {

  const THOUSAND := 1000
  const TWO_31 := 0x8000_0000
  const TWO_32 := 0x1_0000_0000

  /** A 64-bit difference stored in an `int`. */
  function Truncated(d: int): int {
    var u := d % TWO_32;
    if u < TWO_31 then u else u - TWO_32
  }

  function Sum(s: seq<nat>): nat { if s == [] then 0 else s[0] + Sum(s[1..]) }

  lemma {:induction false} SumSnoc(s: seq<nat>, x: nat)
    ensures Sum(s + [x]) == Sum(s) + x
    decreases |s|
  {
    if s == [] {
      assert s + [x] == [x];
    } else {
      SumSnoc(s[1..], x);
      assert (s + [x])[1..] == s[1..] + [x];
    }
  }

  lemma {:induction false} SumOfZeros(s: seq<nat>)
    requires forall k :: 0 <= k < |s| ==> s[k] == 0
    ensures Sum(s) == 0
    decreases |s|
  {
    if s != [] { SumOfZeros(s[1..]); }
  }

  /** The counter j steps back from `cur` in a ring of n. */
  function RingIndex(cur: nat, j: nat, n: nat): nat
    requires cur < n && j < n
  {
    if j <= cur then cur - j else cur + n - j
  }

  function Times(m: nat, k: nat): nat { if m == 0 then 0 else Times(m - 1, k) + k }

  lemma {:induction false} TimesIs(m: nat, k: nat)
    ensures Times(m, k) == m * k
    decreases m
  {
    if m > 0 { TimesIs(m - 1, k); }
  }

  lemma {:induction false} TimesGrow(i: nat, m: nat, k: nat)
    requires i <= m
    ensures Times(i, k) <= Times(m, k)
    decreases m
  {
    if i < m { TimesGrow(i, m - 1, k); }
  }

  /** The first `count` of the admitted times are no later than `limit`. */
  predicate NoLater(admitted: seq<int>, count: int, limit: int) {
    forall i :: 0 <= i < count && i < |admitted| ==> admitted[i] <= limit
  }

  /** Of the admitted times from number `from` on, the last `count` are no earlier than `limit`. */
  predicate NoEarlier(admitted: seq<int>, from: nat, count: int, limit: int) {
    forall i :: from <= i < |admitted| && |admitted| - count <= i ==> admitted[i] >= limit
  }

  /** What counter j, counted back from the newest, says about the admitted requests: those not
      in newer counters are old, those in it or in newer ones are recent. The second is not
      known of the first `from` requests. */
  predicate DatedAt(admitted: seq<int>, from: nat, recent: seq<nat>, base: int, low: int, unit: nat, j: nat)
    requires j < |recent|
  {
    && NoLater(admitted, |admitted| - Sum(recent[..j]), base + unit - Times(j, unit))
    && NoEarlier(admitted, from, Sum(recent[..j + 1]), low - Times(j, unit))
  }

  predicate Dated(admitted: seq<int>, from: nat, recent: seq<nat>, base: int, low: int, unit: nat) {
    forall j: nat :: j < |recent| ==> DatedAt(admitted, from, recent, base, low, unit, j)
  }

  /** The first `from` requests are not in the newest `steps` counters. */
  predicate Behind(from: nat, recent: seq<nat>, steps: nat, admitted: seq<int>) {
    from + Sum(recent[..Least(steps, |recent|)]) <= |admitted|
  }

  function Least(a: nat, b: nat): nat { if a < b then a else b }

  predicate Ordered(admitted: seq<int>) { forall i, j :: 0 <= i < j < |admitted| ==> admitted[i] <= admitted[j] }

  /** More than max + 1 admitted requests in a row take at least `span` microseconds. */
  predicate Spaced(admitted: seq<int>, max: int, span: int) {
    forall i, j :: 0 <= i < j < |admitted| && j - i > max ==> admitted[j] - admitted[i] >= span
  }

  // --- the ring as a sequence of counters, newest first

  function Moved(recent: seq<nat>): seq<nat>
    requires recent != []
  {
    [0] + recent[..|recent| - 1]
  }

  lemma MovedSum(recent: seq<nat>)
    requires recent != []
    ensures Sum(Moved(recent)) == Sum(recent) - recent[|recent| - 1]
  {
    var n := |recent|;
    SumSnoc(recent[..n - 1], recent[n - 1]);
    assert recent == recent[..n - 1] + [recent[n - 1]];
    assert Moved(recent)[1..] == recent[..n - 1];
  }

  lemma MovedPrefix(recent: seq<nat>, j: nat)
    requires recent != [] && 0 < j <= |recent|
    ensures Sum(Moved(recent)[..j]) == Sum(recent[..j - 1])
  {
    assert Moved(recent)[..j][1..] == recent[..j - 1];
  }

  lemma MovedDated(admitted: seq<int>, from: nat, recent: seq<nat>, base: int, low: int, unit: nat)
    requires recent != [] && Dated(admitted, from, recent, base, low, unit)
    ensures Dated(admitted, from, Moved(recent), base + unit, low + unit, unit)
  {
    hide Moved, Sum, NoLater, NoEarlier;
    var after, base', low' := Moved(recent), base + unit, low + unit;
    MovedLength(recent);
    forall j: nat | j < |after|
      ensures DatedAt(admitted, from, after, base', low', unit, j)
    {
      MovedPrefix(recent, j + 1);
      if j == 0 {
        assert DatedAt(admitted, from, recent, base, low, unit, 0);
        FirstMoved(admitted, from, recent, base, low, unit);
      } else {
        MovedPrefix(recent, j);
        assert DatedAt(admitted, from, recent, base, low, unit, j - 1);
      }
    }
  }

  lemma MovedLength(recent: seq<nat>)
    requires recent != []
    ensures |Moved(recent)| == |recent|
  {}

  lemma MovedAt(recent: seq<nat>)
    requires recent != []
    ensures Moved(recent)[0] == 0
    ensures forall j: nat {:trigger Moved(recent)[j]} :: 0 < j < |recent| ==> Moved(recent)[j] == recent[j - 1]
  {}

  lemma FirstMoved(admitted: seq<int>, from: nat, recent: seq<nat>, base: int, low: int, unit: nat)
    requires recent != [] && DatedAt(admitted, from, recent, base, low, unit, 0)
    ensures DatedAt(admitted, from, Moved(recent), base + unit, low + unit, unit, 0)
  {
    assert recent[..0] == [];
    assert Moved(recent)[..0] == [];
    assert Moved(recent)[..1] == [0];
  }

  /** What falls off the ring is older than the whole span. */
  lemma FallsOff(admitted: seq<int>, from: nat, recent: seq<nat>, base: int, low: int, unit: nat, total: int)
    requires recent != [] && Dated(admitted, from, recent, base, low, unit) && Times(|recent|, unit) >= total
    ensures NoLater(admitted, |admitted| - Sum(Moved(recent)), base + unit - (total - unit))
  {
    hide Moved, Sum;
    var n := |recent|;
    assert DatedAt(admitted, from, recent, base, low, unit, n - 1);
    MovedPrefix(recent, n);
    MovedLength(recent);
    assert Moved(recent)[..n] == Moved(recent);
  }

  /** The ring's arrangement after one step. */
  lemma Stepped(cur: nat, next: nat, n: nat)
    requires cur < n && next == (cur + 1) % n
    ensures next == RingIndex(cur, n - 1, n) && RingIndex(next, 0, n) == next
    ensures forall j: nat :: 0 < j < n ==> RingIndex(next, j, n) == RingIndex(cur, j - 1, n) != next
  {
    if cur + 1 < n { Small(cur + 1, n); }
  }

  lemma Small(k: nat, n: nat)
    requires k < n
    ensures k % n == k
  {}

  // --- the effects of time passing on the admitted requests

  lemma Later(admitted: seq<int>, count: int, limit: int, limit': int)
    requires NoLater(admitted, count, limit) && limit <= limit'
    ensures NoLater(admitted, count, limit')
  {}

  /** When the start time moves on by a whole turn, nothing is known to be recent. */
  lemma TurnedOn(admitted: seq<int>, from: nat, recent: seq<nat>, base: int, low: int, unit: nat,
      base': int, low': int)
    requires Dated(admitted, from, recent, base, low, unit) && base <= base'
    ensures Dated(admitted, |admitted|, recent, base', low', unit)
  {
    hide Sum;
    forall j: nat | j < |recent|
      ensures DatedAt(admitted, |admitted|, recent, base', low', unit, j)
    {
      assert DatedAt(admitted, from, recent, base, low, unit, j);
    }
  }

  lemma AllOld(admitted: seq<int>, from: nat, recent: seq<nat>, base: int, low: int, unit: nat)
    requires recent != [] && Dated(admitted, from, recent, base, low, unit)
    ensures NoLater(admitted, |admitted|, base + unit)
  {
    assert DatedAt(admitted, from, recent, base, low, unit, 0);
    assert recent[..0] == [];
  }

  lemma StartedOver(admitted: seq<int>, from: nat, recent: seq<nat>, base: int, low: int, unit: nat, limit: int)
    requires recent != [] && forall k :: 0 <= k < |recent| ==> recent[k] == 0
    requires NoLater(admitted, |admitted|, limit) && limit <= base + unit - Times(|recent| - 1, unit)
    ensures Sum(recent) == 0 && Dated(admitted, from, recent, base, low, unit)
  {
    SumOfZeros(recent);
    forall j: nat | j < |recent|
      ensures DatedAt(admitted, from, recent, base, low, unit, j)
    {
      SumOfZeros(recent[..j]);
      SumOfZeros(recent[..j + 1]);
      TimesGrow(j, |recent| - 1, unit);
    }
  }

  lemma Admitted(admitted: seq<int>, from: nat, recent: seq<nat>, base: int, low: int, unit: nat, now: int)
    requires recent != [] && Dated(admitted, from, recent, base, low, unit)
    requires low <= now <= base + unit
    ensures Dated(admitted + [now], from, recent[0 := recent[0] + 1], base, low, unit)
    ensures Sum(recent[0 := recent[0] + 1]) == Sum(recent) + 1
  {
    var after := recent[0 := recent[0] + 1];
    assert after[1..] == recent[1..];
    forall j: nat | j < |after|
      ensures DatedAt(admitted + [now], from, after, base, low, unit, j)
    {
      assert DatedAt(admitted, from, recent, base, low, unit, j);
      OneMore(recent, j + 1);
      if j > 0 {
        OneMore(recent, j);
      } else {
        assert after[..0] == [] && recent[..0] == [];
      }
    }
  }

  lemma OneMore(recent: seq<nat>, j: nat)
    requires 0 < j <= |recent|
    ensures Sum(recent[0 := recent[0] + 1][..j]) == Sum(recent[..j]) + 1
  {
    var after := recent[0 := recent[0] + 1];
    assert after[..j][1..] == recent[..j][1..];
  }

  /** A request admitted when no more than `max` are counted keeps the requests spaced. */
  lemma SpacedSnoc(admitted: seq<int>, now: int, count: nat, max: int, span: int)
    requires Ordered(admitted) && Spaced(admitted, max, span) && count <= max
    requires NoLater(admitted, |admitted|, now) && NoLater(admitted, |admitted| - count, now - span)
    ensures Ordered(admitted + [now]) && Spaced(admitted + [now], max, span)
  {}

  /** All counted requests are recent. */
  lemma CountedRecent(admitted: seq<int>, from: nat, recent: seq<nat>, base: int, low: int, unit: nat)
    requires recent != [] && Dated(admitted, from, recent, base, low, unit)
    ensures NoEarlier(admitted, from, Sum(recent), low - Times(|recent| - 1, unit))
  {
    var n := |recent|;
    assert DatedAt(admitted, from, recent, base, low, unit, n - 1);
    assert recent[..n] == recent;
  }

  lemma Sooner(admitted: seq<int>, from: nat, count: int, limit: int, limit': int)
    requires NoEarlier(admitted, from, count, limit) && limit' <= limit && from + count <= |admitted|
    ensures NoEarlier(admitted, 0, count, limit')
  {}

  /** A request among the last `count` that is before number `from` is older than `limit`. */
  lemma NotRecent(admitted: seq<int>, from: nat, count: nat, limit': int, limit: int)
    requires NoLater(admitted, from, limit') && limit' < limit
    requires from <= |admitted| && count <= |admitted| && |admitted| - count < from
    ensures !NoEarlier(admitted, 0, count, limit)
  {
    assert admitted[|admitted| - count] <= limit';
  }

  lemma BehindMoved(from: nat, recent: seq<nat>, steps: nat, admitted: seq<int>)
    requires recent != [] && Behind(from, recent, steps, admitted)
    ensures Behind(from, Moved(recent), steps + 1, admitted)
  {
    hide Sum;
    MovedLength(recent);
    if steps < |recent| {
      MovedPrefix(recent, steps + 1);
    } else {
      MovedSum(recent);
      assert recent[..|recent|] == recent && Moved(recent)[..|recent|] == Moved(recent);
    }
  }

  lemma BehindAdmitted(from: nat, recent: seq<nat>, steps: nat, admitted: seq<int>, now: int)
    requires recent != [] && Behind(from, recent, steps, admitted)
    ensures Behind(from, recent[0 := recent[0] + 1], steps, admitted + [now])
  {
    var k := Least(steps, |recent|);
    if k > 0 {
      OneMore(recent, k);
    } else {
      assert recent[..0] == recent[0 := recent[0] + 1][..0];
    }
  }

  /** Once every counter has been passed, all that is counted was admitted after the first `from`. */
  lemma AllPassed(from: nat, recent: seq<nat>, steps: nat, admitted: seq<int>)
    requires Behind(from, recent, steps, admitted) && |recent| <= steps
    ensures from + Sum(recent) <= |admitted|
  {
    assert recent[..|recent|] == recent;
  }

  // --- the counters after some steps of the ring, and after a call that sees the difference d

  function MovedBy(recent: seq<nat>, moves: nat): (after: seq<nat>)
    requires recent != []
    ensures |after| == |recent|
  {
    if moves == 0 then recent else Moved(MovedBy(recent, moves - 1))
  }

  function Updated(recent: seq<nat>, d: int, total: int, unit: int): (after: seq<nat>)
    requires recent != [] && unit > 0
    ensures |after| == |recent|
  {
    if d < 0 || d >= total then seq(|recent|, _ => 0)
    else if d > unit then MovedBy(recent, d / unit)
    else recent
  }

  /** As long as the counters that fall off are empty, the running count stays. */
  lemma {:induction false} MovedBySum(recent: seq<nat>, moves: nat)
    requires moves < |recent| && forall k :: |recent| - moves <= k < |recent| ==> recent[k] == 0
    ensures Sum(MovedBy(recent, moves)) == Sum(recent)
    ensures forall k {:trigger MovedBy(recent, moves)[k]} :: moves <= k < |recent| ==>
      MovedBy(recent, moves)[k] == recent[k - moves]
    decreases moves
  {
    hide Sum, Moved;
    if moves > 0 {
      MovedBySum(recent, moves - 1);
      MovedSum(MovedBy(recent, moves - 1));
      MovedAt(MovedBy(recent, moves - 1));
    }
  }

  // --- arithmetic

  predicate Covers(n: nat, unit: int, total: int) {
    n > 0 && unit > 0 && (n - 1) * unit < total <= n * unit
  }

  lemma Grids(total: int, unit: int)
    requires total > 0 && unit > 0
    ensures Covers(total / unit + if total % unit != 0 then 1 else 0, unit, total)
  {
    var q := total / unit;
    assert total == q * unit + total % unit;
    assert (q + 1) * unit == q * unit + unit;
    assert (q - 1) * unit == q * unit - unit;
    assert q == 0 ==> q * unit == 0;
  }

  lemma CoversMicros(n: nat, unit: int, total: int, micros: nat)
    requires Covers(n, unit, total) && micros == unit * THOUSAND
    ensures Times(n - 1, micros) < total * THOUSAND <= Times(n, micros)
  {
    TimesIs(n - 1, micros);
    TimesIs(n, micros);
    assert (n - 1) * micros == (n - 1) * unit * THOUSAND;
    assert n * micros == n * unit * THOUSAND;
  }

  lemma Truncation(d: int, k: int)
    requires 0 <= d - k * TWO_32 < TWO_32
    ensures Truncated(d) == if d - k * TWO_32 < TWO_31 then d - k * TWO_32 else d - k * TWO_32 - TWO_32
  {}

  lemma Quotient(move: nat, micros: nat)
    requires micros > 0
    ensures 0 <= move - move / micros * micros < micros
  {
    assert move == move / micros * micros + move % micros;
  }

  // --- windows

  /** The admitted requests in the `w` microseconds that begin at `t`. */
  ghost function Within(admitted: seq<int>, t: int, w: int): set<int> {
    set i | 0 <= i < |admitted| && t <= admitted[i] < t + w
  }

  lemma {:induction false} FewBetween(s: set<int>, lo: int, hi: int)
    requires lo <= hi && forall i :: i in s ==> lo <= i < hi
    ensures |s| <= hi - lo
    decreases hi - lo
  {
    if lo == hi {
      assert s == {};
    } else {
      FewBetween(s - {hi - 1}, lo, hi - 1);
    }
  }

  /** Every window shorter than the span holds at most max + 1 admitted requests. */
  lemma WindowBound(admitted: seq<int>, max: int, span: int, t: int, w: int)
    requires Spaced(admitted, max, span) && w <= span && max > 0
    ensures |Within(admitted, t, w)| <= max + 1
  {
    var first := FirstFrom(admitted, t);
    FewBetween(Within(admitted, t, w), first, first + max + 1);
  }

  lemma FirstFrom(admitted: seq<int>, t: int) returns (first: nat)
    ensures first <= |admitted| && forall i :: 0 <= i < first ==> admitted[i] < t
    ensures first < |admitted| ==> admitted[first] >= t
  {
    first := 0;
    while first < |admitted| && admitted[first] < t
      invariant first <= |admitted| && forall i :: 0 <= i < first ==> admitted[i] < t
    {
      first := first + 1;
    }
  }

  class LoadCtrl {
    const total: int
    const unit: int
    const max: int
    const grids: array<nat>
    var cur: nat
    var count: int
    var startTime: int

    // the longest time between the reading a caller passes in and the one a fresh start makes
    ghost const lag: nat
    // the counters from the newest to the oldest and the times of the admitted requests
    ghost var recent: seq<nat>
    ghost var admitted: seq<int>
    // the start time, `turns` whole turns of the 32-bit difference later, and the last time seen
    ghost var base: int
    ghost var turns: nat
    ghost var seen: int
    // when the difference last turned over: the requests admitted until then, the time of the
    // call, and the steps of the ring since
    ghost var early: nat
    ghost var turnTime: int
    ghost var steps: nat

    constructor (total: int, unit: int, max: int, clock: int, ghost lag: nat)
      requires total * THOUSAND < TWO_31 && unit * THOUSAND < TWO_31
      ensures this.total == total && this.unit == unit && this.max == max && this.lag == lag
      ensures Valid() && admitted == [] && seen == clock == base == startTime && early == 0 && fresh(grids)
      ensures Enabled() ==> count == 0 && forall k :: 0 <= k < |recent| ==> recent[k] == 0
    {
      hide Covers;
      this.total, this.unit, this.max, this.lag := total, unit, max, lag;
      var n: nat := 1;
      if total > 0 && unit > 0 {
        Grids(total, unit);
        CoversPositive(total / unit + if total % unit != 0 then 1 else 0, unit, total);
        n := total / unit;
        if total % unit != 0 { n := n + 1; }
      }
      grids := new nat[n](_ => 0);
      cur, count, startTime := 0, 0, clock;
      recent, admitted, base, turns, seen := seq(n, _ => 0), [], clock, 0, clock;
      early, turnTime, steps := 0, clock, 0;
      new;
      if Enabled() {
        StartedOver([], 0, recent, clock, Low(), Micros(), clock + Micros() - Times(n - 1, Micros()));
      }
    }

    predicate Enabled() { total > 0 && unit > 0 && max > 0 }

    function Micros(): nat { if unit > 0 then unit * THOUSAND else 0 }

    /** How far the start time moves on at a difference of `move`. */
    function Whole(move: nat): nat
      requires unit > 0
    {
      if move > Micros() then move / Micros() * Micros() else 0
    }

    /** How long the counters together reach back for certain, in microseconds. */
    ghost function Span(): int { total * THOUSAND - Micros() }

    ghost function Low(): int
      reads this
    {
      base - lag
    }

    ghost predicate Counters()
      reads this, grids
    {
      && |recent| == grids.Length > 0 && cur < grids.Length && count == Sum(recent)
      && forall j: nat :: j < grids.Length ==> grids[RingIndex(cur, j, grids.Length)] == recent[j]
    }

    /** The requests from before the last turn of the difference: how old they are at least,
        and which counters they are not in. */
    ghost predicate Turned()
      reads `admitted, `early, `base, `recent, `steps, `turnTime
    {
      && early <= |admitted| && NoLater(admitted, early, base - TWO_32 + Micros())
      && Behind(early, recent, steps, admitted)
      && (early > 0 ==> base <= turnTime + Times(steps, Micros()))
    }

    ghost predicate Past()
      reads this, grids
    {
      && Counters()
      && Dated(admitted, early, recent, base, Low(), Micros()) && Turned()
      && NoLater(admitted, |admitted| - count, base - Span())
      && count <= |admitted| && count <= max + 1
    }

    ghost predicate Valid()
      reads this, grids
    {
      && total * THOUSAND < TWO_31 && unit * THOUSAND < TWO_31
      && (Enabled() ==>
            && Covers(grids.Length, unit, total) && Past()
            && startTime + turns * TWO_32 == base && base <= seen <= base + Micros()
            && NoLater(admitted, |admitted|, seen) && Ordered(admitted) && Spaced(admitted, max, Span()))
    }

    /** A refusal at `now` is right: the last max + 1 admitted requests came in the last `total`
        milliseconds and one unit. */
    ghost predicate Justified(now: int)
      reads this
    {
      NoEarlier(admitted, 0, max + 1, now - total * THOUSAND - Micros() - lag)
    }

    /** What `now` makes of the counters. */
    ghost function Seen(now: int): seq<nat>
      requires Valid() && Enabled()
      reads this, grids
    {
      Updated(recent, Truncated(now - startTime), total * THOUSAND, Micros())
    }

    /** One step of the ring. */
    method Advance()
      requires Enabled() && Past() && Covers(grids.Length, unit, total)
      modifies this`cur, this`count, this`recent, this`base, this`steps, grids
      ensures Past() && base == old(base) + Micros() && steps == old(steps) + 1
      ensures recent == Moved(old(recent))
    {
      hide Sum, Dated, NoLater, NoEarlier, Covers, Moved, Behind;
      var n := grids.Length;
      ghost var was := recent;
      MovedLength(was);
      MovedAt(was);
      MovedSum(was);
      MovedDated(admitted, early, was, base, Low(), Micros());
      BehindMoved(early, was, steps, admitted);
      CoversMicros(n, unit, total, Micros());
      FallsOff(admitted, early, was, base, Low(), Micros(), total * THOUSAND);
      Stepped(cur, (cur + 1) % n, n);
      Later(admitted, early, base - TWO_32 + Micros(), base + Micros() - TWO_32 + Micros());
      cur := (cur + 1) % n;
      count := count - grids[cur];
      grids[cur] := 0;
      recent, base, steps := Moved(recent), base + Micros(), steps + 1;
    }

    /** Empties the ring and starts it anew at the time `clock`. */
    method StartOver(clock: int)
      requires Enabled() && Counters() && Covers(grids.Length, unit, total)
      requires NoLater(admitted, |admitted|, clock - Span())
      modifies this`cur, this`count, this`startTime, this`recent, this`base, this`turns, this`early, grids
      ensures Past() && base == startTime == clock && turns == 0 && count == 0 && early == 0
      ensures recent == seq(grids.Length, _ => 0)
    {
      hide Sum, Dated, NoLater, NoEarlier, Covers;
      var i := 0;
      while i < grids.Length
        invariant 0 <= i <= grids.Length && forall k :: 0 <= k < i ==> grids[k] == 0
      {
        grids[i] := 0;
        i := i + 1;
      }
      cur, count, startTime := 0, 0, clock;
      recent := seq(grids.Length, _ => 0);
      base, turns, early := clock, 0, 0;
      CoversMicros(grids.Length, unit, total, Micros());
      StartedOver(admitted, 0, recent, clock, Low(), Micros(), clock - Span());
      SumOfZeros(recent[..Least(steps, |recent|)]);
      NoneLater(admitted, base - TWO_32 + Micros());
    }

    /** The ghost start time moved by whole turns of the 32-bit difference up to `now`. */
    ghost method CatchUp(now: int)
      requires Valid() && Enabled() && seen <= now
      modifies this`base, this`turns, this`seen, this`early, this`turnTime, this`steps
      ensures Past() && startTime + turns * TWO_32 == base <= now == seen && NoLater(admitted, |admitted|, now)
      ensures old(base) <= base && now - base < TWO_32
      ensures Truncated(now - startTime) == if now - base < TWO_31 then now - base else now - base - TWO_32
      ensures if now - old(base) < TWO_32
        then base == old(base) && early == old(early) && turnTime == old(turnTime) && steps == old(steps)
        else early == |admitted| && turnTime == now
    {
      hide Sum, Dated, NoLater, NoEarlier, Ordered, Spaced, Truncated, Covers, Behind;
      var k := (now - base) / TWO_32;
      Truncation(now - startTime, turns + k);
      Later(admitted, |admitted| - count, base - Span(), base + k * TWO_32 - Span());
      Later(admitted, |admitted|, seen, now);
      if k > 0 {
        TurnedOn(admitted, early, recent, base, Low(), Micros(), base + k * TWO_32, base + k * TWO_32 - lag);
        Later(admitted, |admitted|, seen, base + k * TWO_32 - TWO_32 + Micros());
        BehindNothing(admitted, recent);
        early, turnTime, steps := |admitted|, now, 0;
      }
      base, turns, seen := base + k * TWO_32, turns + k, now;
    }

    /** Steps the ring by the whole units in `move`. */
    method Shift(move: nat)
      requires Enabled() && Past() && Covers(grids.Length, unit, total)
      modifies this`cur, this`count, this`startTime, this`recent, this`base, this`steps, grids
      ensures Past() && old(base) <= base <= old(base) + move < base + Micros()
      ensures base - startTime == old(base - startTime) && startTime == old(startTime) + move / Micros() * Micros()
      ensures recent == MovedBy(old(recent), move / Micros())
    {
      hide Sum, Dated, NoLater, NoEarlier, Covers, Behind, Moved;
      var moves := move / Micros();
      var i := 0;
      while i < moves
        invariant 0 <= i <= moves && Past() && base == old(base) + Times(i, Micros())
        invariant recent == MovedBy(old(recent), i)
        invariant unchanged(`startTime)
      {
        Advance();
        i := i + 1;
      }
      TimesIs(moves, Micros());
      Quotient(move, Micros());
      startTime := startTime + moves * Micros();
    }

    /** Moves the ring to `now`; `clock` is the time read anew when everything starts over. */
    method UpdateGrids(now: int, clock: int)
      requires Valid() && Enabled() && seen <= now <= clock <= now + lag
      modifies this, grids
      ensures Valid() && admitted == old(admitted) && now <= seen <= clock
      ensures Low() <= now <= base + Micros()
      ensures NoLater(admitted, |admitted|, now) && NoLater(admitted, |admitted| - count, now - Span())
      ensures recent == old(Seen(now))
      ensures 0 <= Truncated(now - old(startTime)) < total * THOUSAND ==>
        seen == now && startTime == old(startTime) + Whole(Truncated(now - old(startTime)))
      ensures now - old(base) < TWO_32 ==> early == 0 || (early == old(early) && turnTime == old(turnTime))
      ensures now - old(base) < TWO_32 && count > 0 ==> early == old(early) && turnTime == old(turnTime)
      ensures now - old(base) >= TWO_32 ==> (early == 0 && count == 0) || (early == |admitted| && turnTime == now)
    {
      hide Sum, Dated, NoLater, NoEarlier, Covers, Ordered, Spaced, Truncated, Behind, Turned, MovedBy;
      var move := Truncated(now - startTime);
      CatchUp(now);
      if move < 0 || move >= total * THOUSAND {
        AllOld(admitted, early, recent, base, Low(), Micros());
        Later(admitted, |admitted|, base + Micros(), now - Span());
        Later(admitted, |admitted|, base + Micros(), clock - Span());
        Later(admitted, |admitted|, now, clock);
        StartOver(clock);
        seen := clock;
        return;
      }
      if move > Micros() {
        Shift(move);
      }
      Later(admitted, |admitted| - count, base - Span(), now - Span());
    }

    /** Whether one more request, at the time `now`, is refused.
        A refusal is justified when the last max + 1 requests were all admitted since the 32-bit
        difference last turned over, which it does when `now` is a whole turn past the start time,
        and it is not justified otherwise. */
    method CheckFlow(now: int, clock: int) returns (restricted: bool)
      requires Valid() && seen <= now <= clock <= now + lag
      modifies this, grids
      ensures Valid() && seen <= clock
      ensures restricted <==> Enabled() && old(Sum(Seen(now))) > max
      ensures Enabled() && !restricted ==> admitted == old(admitted) + [now]
      ensures Enabled() && !restricted ==> recent == old(Seen(now))[0 := old(Seen(now))[0] + 1]
      ensures restricted ==> admitted == old(admitted) && count == max + 1 && max < |admitted|
      ensures restricted && early + max + 1 <= |admitted| ==> Justified(now)
      ensures restricted && total * THOUSAND + 2 * Micros() + 2 * lag < TWO_32 ==>
        (Justified(now) <==> early + max + 1 <= |admitted|)
      ensures restricted && now - turnTime >= total * THOUSAND + Micros() ==> Justified(now)
      ensures Enabled() && now - old(base) < TWO_32 ==>
        early == 0 || (early == old(early) && turnTime == old(turnTime))
      ensures restricted && now - old(base) < TWO_32 ==> early == old(early) && turnTime == old(turnTime)
      ensures restricted && now - old(base) >= TWO_32 ==> early == |admitted|
      ensures Enabled() && now - old(seen) < TWO_32 - Micros() ==> now - old(base) < TWO_32
      ensures Enabled() ==> count == old(Sum(Seen(now))) + if restricted then 0 else 1
      ensures Enabled() && 0 <= Truncated(now - old(startTime)) < total * THOUSAND ==>
        seen == now && startTime == old(startTime) + Whole(Truncated(now - old(startTime)))
    {
      hide Sum, Dated, NoLater, NoEarlier, Covers, Ordered, Spaced, Behind, Seen;
      restricted := false;
      if total <= 0 || unit <= 0 || max <= 0 {
        seen := clock;
        return;
      }
      UpdateGrids(now, clock);
      if count > max {
        restricted := true;
        Refused(now);
        return;
      }
      Admitted(admitted, early, recent, base, Low(), Micros(), now);
      BehindAdmitted(early, recent, steps, admitted, now);
      SpacedSnoc(admitted, now, count, max, Span());
      grids[cur] := grids[cur] + 1;
      count := count + 1;
      recent, admitted := recent[0 := recent[0] + 1], admitted + [now];
      Appended(old(admitted), now, |admitted| - count, base - Span(), seen);
      Appended(old(admitted), now, early, base - TWO_32 + Micros(), seen);
    }

    /** When a refusal is justified. */
    lemma Refused(now: int)
      requires Valid() && Enabled() && count == max + 1 && Low() <= now <= base + Micros()
      ensures early + max + 1 <= |admitted| ==> Justified(now)
      ensures total * THOUSAND + 2 * Micros() + 2 * lag < TWO_32 && early + max + 1 > |admitted| ==> !Justified(now)
      ensures now - turnTime >= total * THOUSAND + Micros() ==> early + max + 1 <= |admitted|
    {
      hide Sum, Dated, NoLater, NoEarlier, Covers, Ordered, Spaced, Behind;
      CoversMicros(grids.Length, unit, total, Micros());
      CountedRecent(admitted, early, recent, base, Low(), Micros());
      var limit := now - total * THOUSAND - Micros() - lag;
      if early + count <= |admitted| {
        Sooner(admitted, early, count, Low() - Times(|recent| - 1, Micros()), limit);
      } else {
        if total * THOUSAND + 2 * Micros() + 2 * lag < TWO_32 {
          NotRecent(admitted, early, count, base - TWO_32 + Micros(), limit);
        }
        if now - turnTime >= total * THOUSAND + Micros() {
          if steps < |recent| { TimesGrow(steps, |recent| - 1, Micros()); }
          AllPassed(early, recent, steps, admitted);
        }
      }
    }

    /** Whatever was asked so far: a window no longer than the span holds at most max + 1 admitted requests. */
    lemma AtMost(t: int, w: int)
      requires Valid() && Enabled() && w <= (total - unit) * 1000
      ensures |Within(admitted, t, w)| <= max + 1
    {
      WindowBound(admitted, max, Span(), t, w);
    }
  }

  lemma NoneLater(admitted: seq<int>, limit: int)
    ensures NoLater(admitted, 0, limit)
  {}

  lemma BehindNothing(admitted: seq<int>, recent: seq<nat>)
    ensures Behind(|admitted|, recent, 0, admitted)
  {
    assert recent[..0] == [];
  }

  lemma CoversPositive(n: nat, unit: int, total: int)
    requires Covers(n, unit, total)
    ensures n > 0
  {}

  lemma Appended(admitted: seq<int>, now: int, count: int, limit: int, seen: int)
    requires count <= |admitted| && NoLater(admitted, count, limit)
    requires NoLater(admitted, |admitted|, seen) && now <= seen
    ensures NoLater(admitted + [now], count, limit) && NoLater(admitted + [now], |admitted| + 1, seen)
  {}

  /** The counters of a limiter of 1000 and 100 milliseconds that has admitted eleven requests at one time. */
  ghost predicate InOne(recent: seq<nat>, n: nat) {
    |recent| == 10 && recent[0] == n && forall k :: 0 < k < 10 ==> recent[k] == 0
  }

  lemma TenGrids(n: nat)
    requires Covers(n, 100, 1000)
    ensures n == 10
  {}

  /** What is left of the eleven at a difference of d microseconds. */
  lemma LeftAt(recent: seq<nat>, d: int)
    requires InOne(recent, 11) && Sum(recent) == 11 && d >= 0
    ensures Sum(Updated(recent, d, 1000000, 100000)) == if d < 1000000 then 11 else 0
  {
    hide Sum, MovedBy;
    if d >= 1000000 {
      SumOfZeros(seq(|recent|, _ => 0));
    } else if d > 100000 {
      MovedBySum(recent, d / 100000);
    }
  }

  /** Eleven requests at one time to a limiter of at most ten in a second. */
  method Eleven(start: int) returns (limiter: LoadCtrl)
    ensures fresh(limiter) && fresh(limiter.grids) && limiter.Valid() && limiter.lag == 0
    ensures limiter.max == 10 && limiter.total == 1000 && limiter.unit == 100
    ensures limiter.startTime == limiter.seen == start
    ensures |limiter.admitted| == 11 && forall i :: 0 <= i < 11 ==> limiter.admitted[i] == start
    ensures InOne(limiter.recent, 11) && Sum(limiter.recent) == 11
  {
    hide Sum, NoEarlier, Dated, Ordered, Spaced, Covers, Behind;
    limiter := new LoadCtrl(1000, 100, 10, start, 0);
    TenGrids(limiter.grids.Length);
    var i := 0;
    while i < 11
      invariant 0 <= i <= 11 && fresh(limiter) && fresh(limiter.grids) && limiter.Valid()
      invariant limiter.total == 1000 && limiter.unit == 100 && limiter.max == 10 && limiter.lag == 0
      invariant limiter.startTime == limiter.seen == start && limiter.count == i
      invariant |limiter.admitted| == i && forall k :: 0 <= k < i ==> limiter.admitted[k] == start
      invariant InOne(limiter.recent, i)
    {
      var _ := limiter.CheckFlow(start, start);
      i := i + 1;
    }
  }

  /** A twelfth request within the second is refused, and one in the half hour behind it is not. */
  method Twelfth(start: int, now: int) returns (limiter: LoadCtrl, restricted: bool)
    requires start <= now < start + 2147483648
    ensures limiter.Valid() && limiter.max == 10 && limiter.total == 1000 && limiter.unit == 100
    ensures restricted <==> now - start < 1000000
    ensures |limiter.admitted| == (if restricted then 11 else 12)
    ensures forall i :: 0 <= i < |limiter.admitted| ==> limiter.admitted[i] == if i < 11 then start else now
  {
    hide Sum, NoEarlier, Dated, Ordered, Spaced, Covers, Behind;
    limiter := Eleven(start);
    LeftAt(limiter.recent, now - start);
    restricted := limiter.CheckFlow(now, now);
  }

  /** The refusal that is not justified: eleven requests at one time, and then one about 71
      minutes later, when the 32-bit difference has turned over once and is 50 milliseconds. */
  method LateRefusal(start: int) returns (limiter: LoadCtrl, restricted: bool)
    ensures limiter.Valid() && limiter.max == 10 && limiter.total == 1000 && limiter.unit == 100
    ensures restricted && !limiter.Justified(start + 4294967296 + 50000)
    ensures |limiter.admitted| == 11 && forall i :: 0 <= i < 11 ==> limiter.admitted[i] == start
  {
    hide Sum, NoEarlier, Dated, Ordered, Spaced, Covers, Behind;
    limiter := Eleven(start);
    LeftAt(limiter.recent, 50000);
    restricted := limiter.CheckFlow(start + 4294967296 + 50000, start + 4294967296 + 50000);
  }
}
