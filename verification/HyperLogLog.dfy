/** The registers of the HyperLogLog counter of base/algo.h, in sparse and dense form. */
module HyperLogLog {

  import opened Powers

  datatype Code = Ok | NotInit | InvalidParam | InternalError | MallocFailed

  datatype Reg = Reg(idx: nat, rank: nat)

  // --- ranks

  function BitLength(w: nat): nat { if w == 0 then 0 else 1 + BitLength(w / 2) }

  /** The number of leading zeros of a 64-bit word. */
  function Clz(w: nat): int { 64 - BitLength(w) }

  /** The position of the highest one in a word of that many bits, counted from the top. */
  function RHO(w: nat, bitsRem: nat): nat {
    if bitsRem == 0 || bitsRem > 64 then 1
    else if w == 0 then bitsRem + 1
    else
      var result := Clz(w) - (64 - bitsRem) + 1;
      if result < 1 then 1 else if result > bitsRem + 1 then bitsRem + 1 else result
  }

  lemma {:induction false} BitLengthIs(w: nat)
    requires w > 0
    ensures BitLength(w) > 0 && Pow2(BitLength(w) - 1) <= w < Pow2(BitLength(w))
    decreases w
  {
    if w > 1 { BitLengthIs(w / 2); }
  }

  /** The rank r of a word of b bits says that it is below 2^(b - r + 1) but not below 2^(b - r). */
  lemma RankMeans(w: nat, b: nat, r: nat)
    requires 0 < b <= 64 && w < Pow2(b) && 1 <= r <= b + 1
    ensures RHO(w, b) == r <==> w < Pow2(b - r + 1) && (r <= b ==> w >= Pow2(b - r))
    ensures 1 <= RHO(w, b) <= b + 1
  {
    if w > 0 {
      BitLengthIs(w);
      var l := BitLength(w);
      if l > b { Pow2Grows(b, l - 1); }
      if l < b - r + 1 { Pow2Grows(l, b - r); }
      if l > b - r + 1 { Pow2Grows(b - r + 1, l - 1); }
    }
  }

  // --- registers and the hashes they come from

  function Index(h: nat, m: nat): (i: nat)
    requires m > 0
    ensures i < m
  {
    h % m
  }

  function Rank(h: nat, m: nat, bitsRem: nat): (r: nat)
    requires m > 0
    ensures r >= 1
  {
    RHO(h / m, bitsRem)
  }

  /** Each register is the greatest rank of the hashes that fall on it, and 0 without any. */
  ghost predicate Maxima(regs: seq<nat>, hashes: set<nat>, bitsRem: nat) {
    && |regs| > 0
    && (forall h :: h in hashes ==> Rank(h, |regs|, bitsRem) <= regs[Index(h, |regs|)])
    && (forall i :: 0 <= i < |regs| && regs[i] > 0 ==>
          exists h :: h in hashes && Index(h, |regs|) == i && Rank(h, |regs|, bitsRem) == regs[i])
  }

  lemma MaximaBelow(r: seq<nat>, s: seq<nat>, hashes: set<nat>, bitsRem: nat)
    requires |r| == |s| && Maxima(r, hashes, bitsRem) && Maxima(s, hashes, bitsRem)
    ensures forall i :: 0 <= i < |r| ==> r[i] <= s[i]
  {
    hide Rank, Index;
    forall i | 0 <= i < |r| && r[i] > 0
      ensures r[i] <= s[i]
    {
      var h :| h in hashes && Index(h, |r|) == i && Rank(h, |r|, bitsRem) == r[i];
    }
  }

  /** The hashes determine the registers: neither their order nor their number nor the merges matter. */
  lemma MaximaUnique(r: seq<nat>, s: seq<nat>, hashes: set<nat>, bitsRem: nat)
    requires |r| == |s| && Maxima(r, hashes, bitsRem) && Maxima(s, hashes, bitsRem)
    ensures r == s
  {
    hide Maxima;
    MaximaBelow(r, s, hashes, bitsRem);
    MaximaBelow(s, r, hashes, bitsRem);
  }

  function Max(a: nat, b: nat): nat { if a > b then a else b }

  /** The registers after one more hash. */
  function Raised(regs: seq<nat>, i: nat, rank: nat): seq<nat>
    requires i < |regs|
  {
    regs[i := Max(regs[i], rank)]
  }

  lemma MaximaAdd(regs: seq<nat>, hashes: set<nat>, bitsRem: nat, h: nat)
    requires Maxima(regs, hashes, bitsRem)
    ensures Maxima(Raised(regs, Index(h, |regs|), Rank(h, |regs|, bitsRem)), hashes + {h}, bitsRem)
  {
    hide Rank, Index;
    var m := |regs|;
    var after := Raised(regs, Index(h, m), Rank(h, m, bitsRem));
    forall i | 0 <= i < m && after[i] > 0
      ensures exists g :: g in hashes + {h} && Index(g, m) == i && Rank(g, m, bitsRem) == after[i]
    {
      if i == Index(h, m) && after[i] == Rank(h, m, bitsRem) {
        assert h in hashes + {h};
      } else {
        var g :| g in hashes && Index(g, m) == i && Rank(g, m, bitsRem) == regs[i];
        assert g in hashes + {h};
      }
    }
  }

  function Joined(a: seq<nat>, b: seq<nat>): (c: seq<nat>)
    requires |a| == |b|
    ensures |c| == |a| && forall i :: 0 <= i < |a| ==> c[i] == Max(a[i], b[i])
  {
    seq(|a|, i requires 0 <= i < |a| == |b| => Max(a[i], b[i]))
  }

  lemma MaximaJoin(a: seq<nat>, b: seq<nat>, s: set<nat>, t: set<nat>, bitsRem: nat)
    requires |a| == |b| && Maxima(a, s, bitsRem) && Maxima(b, t, bitsRem)
    ensures Maxima(Joined(a, b), s + t, bitsRem)
  {
    hide Rank, Index;
    var c, m := Joined(a, b), |a|;
    forall h | h in s + t
      ensures Rank(h, m, bitsRem) <= c[Index(h, m)]
    {
      assert c[Index(h, m)] == Max(a[Index(h, m)], b[Index(h, m)]);
    }
    forall i | 0 <= i < m && c[i] > 0
      ensures exists h :: h in s + t && Index(h, m) == i && Rank(h, m, bitsRem) == c[i]
    {
      if a[i] >= b[i] {
        var h :| h in s && Index(h, m) == i && Rank(h, m, bitsRem) == a[i];
        assert h in s + t;
      } else {
        var h :| h in t && Index(h, m) == i && Rank(h, m, bitsRem) == b[i];
        assert h in s + t;
      }
    }
  }

  /** Merging is commutative, associative and idempotent on the registers. */
  lemma MergeLaws(a: seq<nat>, b: seq<nat>, c: seq<nat>)
    requires |a| == |b| == |c|
    ensures Joined(a, b) == Joined(b, a) && Joined(Joined(a, b), c) == Joined(a, Joined(b, c)) && Joined(a, a) == a
  {}

  /** r is the position of the highest one of w among b bits, counted from the top. */
  predicate IsRank(w: nat, b: nat, r: nat) {
    1 <= r <= b + 1 && w < Pow2(b - r + 1) && (r <= b ==> w >= Pow2(b - r))
  }

  /** Register i alone has changed; it is the greater of what it was and r. */
  ghost predicate OnlyRaised(before: seq<nat>, after: seq<nat>, i: nat, r: nat) {
    && i < |before| == |after| && after[i] == (if before[i] > r then before[i] else r)
    && forall j :: 0 <= j < |before| && j != i ==> after[j] == before[j]
  }

  /** i is the low p bits of h and w is the rest. */
  ghost predicate Parts(h: nat, p: nat, i: nat, w: nat) {
    i < Pow2(p) && h == w * Pow2(p) + i
  }

  /** The hash has raised the register of its low p bits by the rank of the rest. */
  ghost predicate Counted(before: seq<nat>, after: seq<nat>, h: nat, p: nat)
    requires p < 64
  {
    exists i: nat, w: nat, r: nat :: Parts(h, p, i, w) && IsRank(w, 64 - p, r) && OnlyRaised(before, after, i, r)
  }

  lemma Below(q: nat, i: nat, m: nat, n: nat)
    requires q * m + i < n * m
    ensures q < n
  {
  }

  lemma RaisedCounts(regs: seq<nat>, h: nat, p: nat)
    requires p < 64 && |regs| == Pow2(p) && h < Pow2(64)
    ensures Counted(regs, Raised(regs, Index(h, Pow2(p)), Rank(h, Pow2(p), 64 - p)), h, p)
  {
    hide Pow2, RHO;
    var m, b := Pow2(p), 64 - p;
    var i, w, r := h % m, h / m, RHO(h / m, b);
    Pow2Sum(b, p);
    Below(w, i, m, Pow2(b));
    RankMeans(w, b, 1);
    RankMeans(w, b, r);
    assert Parts(h, p, i, w);
    assert IsRank(w, b, r) && OnlyRaised(regs, Raised(regs, i, r), i, r);
  }

  // --- the sparse form

  predicate Sorted(s: seq<Reg>) { forall i, j :: 0 <= i < j < |s| ==> s[i].idx < s[j].idx }

  /** The list holds exactly the registers that are not 0, in order. */
  ghost predicate Shows(s: seq<Reg>, regs: seq<nat>) {
    && Sorted(s)
    && (forall k :: 0 <= k < |s| ==> s[k].idx < |regs| && regs[s[k].idx] == s[k].rank > 0)
    && (forall i :: 0 <= i < |regs| && regs[i] > 0 ==> Has(s, i))
  }

  ghost predicate Has(s: seq<Reg>, i: int) { exists k :: 0 <= k < |s| && s[k].idx == i }

  function Zeros(regs: seq<nat>): nat {
    if regs == [] then 0
    else Zeros(regs[..|regs| - 1]) + if regs[|regs| - 1] == 0 then 1 else 0
  }

  /** 2 to the power of -n. */
  function Half(n: nat): real { if n == 0 then 1.0 else Half(n - 1) / 2.0 }

  ghost predicate IsInverse(x: real, n: nat) { x * (Pow2(n) as real) == 1.0 }

  lemma {:induction false} HalfMeans(n: nat)
    ensures IsInverse(Half(n), n)
    decreases n
  {
    if n > 0 {
      HalfMeans(n - 1);
      assert Half(n) * (Pow2(n) as real) == Half(n - 1) / 2.0 * (2.0 * (Pow2(n - 1) as real));
    }
  }

  /** The sums over the first registers; each adds the inverse of its power of two. */
  ghost predicate InverseSums(regs: seq<nat>, sums: seq<real>) {
    && |sums| == |regs| + 1 && sums[0] == 0.0
    && forall i :: 0 <= i < |regs| ==> IsInverse(sums[i + 1] - sums[i], regs[i])
  }

  ghost function ZeroPlaces(regs: seq<nat>): set<int> { set i | 0 <= i < |regs| && regs[i] == 0 }

  function Harmonic(regs: seq<nat>): real {
    if regs == [] then 0.0 else Harmonic(regs[..|regs| - 1]) + Half(regs[|regs| - 1])
  }

  function SparseSum(s: seq<Reg>): real {
    if s == [] then 0.0 else SparseSum(s[..|s| - 1]) + Half(s[|s| - 1].rank)
  }

  lemma {:induction false} HarmonicSums(regs: seq<nat>) returns (sums: seq<real>)
    ensures InverseSums(regs, sums) && Harmonic(regs) == sums[|regs|]
    decreases |regs|
  {
    hide Half, IsInverse;
    if regs == [] {
      sums := [0.0];
    } else {
      var n := |regs| - 1;
      var front := HarmonicSums(regs[..n]);
      sums := front + [front[n] + Half(regs[n])];
      HalfMeans(regs[n]);
      forall i | 0 <= i < |regs| ensures IsInverse(sums[i + 1] - sums[i], regs[i]) {
        if i < n { assert IsInverse(front[i + 1] - front[i], regs[..n][i]); }
      }
    }
  }

  lemma {:induction false} ZerosCount(regs: seq<nat>)
    ensures Zeros(regs) == |ZeroPlaces(regs)|
    decreases |regs|
  {
    if regs != [] {
      var n := |regs| - 1;
      ZerosCount(regs[..n]);
      var front := ZeroPlaces(regs[..n]);
      assert ZeroPlaces(regs) == if regs[n] == 0 then front + {n} else front;
    }
  }

  /** The entry of the last register is the last entry. */
  lemma LastEntry(s: seq<Reg>, regs: seq<nat>)
    requires Shows(s, regs) && regs != [] && regs[|regs| - 1] > 0
    ensures s != [] && s[|s| - 1] == Reg(|regs| - 1, regs[|regs| - 1])
  {
    var n := |regs| - 1;
    assert Has(s, n);
    var k :| 0 <= k < |s| && s[k].idx == n;
    if k < |s| - 1 { assert s[k].idx < s[|s| - 1].idx; }
  }

  lemma HasEarlier(s: seq<Reg>, i: int)
    requires s != [] && Has(s, i) && s[|s| - 1].idx != i
    ensures Has(s[..|s| - 1], i)
  {
    var j :| 0 <= j < |s| && s[j].idx == i;
    assert s[..|s| - 1][j].idx == i;
  }

  lemma ShowsLast(s: seq<Reg>, regs: seq<nat>)
    requires Shows(s, regs) && regs != []
    ensures regs[|regs| - 1] == 0 ==> Shows(s, regs[..|regs| - 1])
    ensures regs[|regs| - 1] > 0 ==>
      s != [] && s[|s| - 1] == Reg(|regs| - 1, regs[|regs| - 1]) && Shows(s[..|s| - 1], regs[..|regs| - 1])
  {
    hide Has;
    var n, front := |regs| - 1, regs[..|regs| - 1];
    if regs[n] == 0 {
      assert forall i :: 0 <= i < n && front[i] > 0 ==> regs[i] > 0 && Has(s, i);
    } else {
      LastEntry(s, regs);
      var t := s[..|s| - 1];
      forall k | 0 <= k < |t| ensures t[k].idx < n { assert s[k].idx < s[|s| - 1].idx; }
      forall i | 0 <= i < n && front[i] > 0
        ensures Has(t, i)
      {
        assert regs[i] > 0;
        HasEarlier(s, i);
      }
    }
  }

  /** What the estimate reads is the same in both forms. */
  lemma {:induction false} SameReading(s: seq<Reg>, regs: seq<nat>)
    requires Shows(s, regs)
    ensures |s| + Zeros(regs) == |regs|
    ensures SparseSum(s) + Zeros(regs) as real == Harmonic(regs)
    decreases |regs|
  {
    hide Shows, Half;
    if regs == [] {
      Holds(s, regs);
    } else {
      ShowsLast(s, regs);
      HalfZero();
      if regs[|regs| - 1] == 0 {
        SameReading(s, regs[..|regs| - 1]);
      } else {
        SameReading(s[..|s| - 1], regs[..|regs| - 1]);
      }
    }
  }

  lemma SparseSize(s: seq<Reg>, regs: seq<nat>)
    requires Shows(s, regs)
    ensures |s| == |regs| - |ZeroPlaces(regs)|
  {
    SameReading(s, regs);
    ZerosCount(regs);
  }

  lemma HalfZero()
    ensures Half(0) == 1.0
  {}

  lemma Holds(s: seq<Reg>, regs: seq<nat>)
    requires Shows(s, regs)
    ensures s != [] ==> s[0].idx < |regs|
  {}

  /** There are no more entries than registers. */
  lemma Few(s: seq<Reg>, regs: seq<nat>)
    requires Shows(s, regs)
    ensures |s| <= |regs|
  {
    SameReading(s, regs);
  }

  lemma ShowsUpdate(s: seq<Reg>, regs: seq<nat>, k: nat, r: nat)
    requires Shows(s, regs) && k < |s|
    ensures s[k].idx < |regs| && Shows(s[k := Reg(s[k].idx, Max(s[k].rank, r))], Raised(regs, s[k].idx, r))
  {
    var t, after := s[k := Reg(s[k].idx, Max(s[k].rank, r))], Raised(regs, s[k].idx, r);
    assert forall j :: 0 <= j < |s| ==> t[j].idx == s[j].idx;
    forall i | 0 <= i < |after| && after[i] > 0
      ensures Has(t, i)
    {
      if i == s[k].idx {
        assert t[k].idx == i;
      } else {
        assert regs[i] > 0 && Has(s, i);
        var j :| 0 <= j < |s| && s[j].idx == i;
        assert t[j].idx == i;
      }
    }
  }

  function Inserted(s: seq<Reg>, k: nat, e: Reg): seq<Reg>
    requires k <= |s|
  {
    s[..k] + [e] + s[k..]
  }

  lemma InsertedAt(s: seq<Reg>, k: nat, e: Reg)
    requires k <= |s|
    ensures var t := Inserted(s, k, e);
      |t| == |s| + 1 && t[k] == e && (forall j :: 0 <= j < k ==> t[j] == s[j])
      && forall j :: k < j <= |s| ==> t[j] == s[j - 1]
    ensures forall j {:trigger s[j]} :: 0 <= j < |s| ==> Inserted(s, k, e)[if j < k then j else j + 1] == s[j]
  {}

  lemma NotThere(s: seq<Reg>, regs: seq<nat>, k: nat, idx: nat)
    requires Shows(s, regs) && k <= |s| && idx < |regs|
    requires (forall j :: 0 <= j < k ==> s[j].idx < idx) && (forall j :: k <= j < |s| ==> idx < s[j].idx)
    ensures !Has(s, idx) && regs[idx] == 0
  {
    assert regs[idx] > 0 ==> Has(s, idx);
  }

  lemma ShowsInsert(s: seq<Reg>, regs: seq<nat>, k: nat, idx: nat, r: nat)
    requires Shows(s, regs) && k <= |s| && idx < |regs| && r > 0
    requires (forall j :: 0 <= j < k ==> s[j].idx < idx) && (forall j :: k <= j < |s| ==> idx < s[j].idx)
    ensures Shows(Inserted(s, k, Reg(idx, r)), Raised(regs, idx, r))
    ensures |s| < |regs|
  {
    hide Shows, Inserted, Raised;
    NotThere(s, regs, k, idx);
    InsertSorted(s, k, Reg(idx, r), regs);
    InsertRanks(s, regs, k, idx, r);
    InsertHas(s, regs, k, idx, r);
    ShowsBy(Inserted(s, k, Reg(idx, r)), Raised(regs, idx, r));
    Few(Inserted(s, k, Reg(idx, r)), Raised(regs, idx, r));
    InsertedAt(s, k, Reg(idx, r));
    RaisedIs(regs, idx, r);
  }

  lemma ShowsBy(s: seq<Reg>, regs: seq<nat>)
    requires Sorted(s) && (forall k :: 0 <= k < |s| ==> s[k].idx < |regs| && regs[s[k].idx] == s[k].rank > 0)
    requires forall i :: 0 <= i < |regs| && regs[i] > 0 ==> Has(s, i)
    ensures Shows(s, regs)
  {}

  lemma InsertSorted(s: seq<Reg>, k: nat, e: Reg, regs: seq<nat>)
    requires Shows(s, regs) && k <= |s|
    requires (forall j :: 0 <= j < k ==> s[j].idx < e.idx) && (forall j :: k <= j < |s| ==> e.idx < s[j].idx)
    ensures Sorted(Inserted(s, k, e))
  {
    hide Inserted, Has;
    var t := Inserted(s, k, e);
    InsertedAt(s, k, e);
    forall i, j | 0 <= i < j < |t|
      ensures t[i].idx < t[j].idx
    {
      assert t[i] == if i < k then s[i] else if i == k then e else s[i - 1];
      assert t[j] == if j < k then s[j] else if j == k then e else s[j - 1];
    }
  }

  lemma InsertRanks(s: seq<Reg>, regs: seq<nat>, k: nat, idx: nat, r: nat)
    requires Shows(s, regs) && k <= |s| && idx < |regs| && r > 0 && regs[idx] == 0
    ensures var t, after := Inserted(s, k, Reg(idx, r)), Raised(regs, idx, r);
      forall i :: 0 <= i < |t| ==> t[i].idx < |after| && after[t[i].idx] == t[i].rank > 0
  {
    hide Inserted, Has, Sorted;
    var t, after := Inserted(s, k, Reg(idx, r)), Raised(regs, idx, r);
    InsertedAt(s, k, Reg(idx, r));
    forall i | 0 <= i < |t|
      ensures t[i].idx < |after| && after[t[i].idx] == t[i].rank > 0
    {
      assert t[i] == if i < k then s[i] else if i == k then t[k] else s[i - 1];
    }
  }

  lemma InsertHas(s: seq<Reg>, regs: seq<nat>, k: nat, idx: nat, r: nat)
    requires Shows(s, regs) && k <= |s| && idx < |regs|
    ensures var after := Raised(regs, idx, r);
      forall i :: 0 <= i < |after| && after[i] > 0 ==> Has(Inserted(s, k, Reg(idx, r)), i)
  {
    hide Inserted, Sorted;
    var t, after := Inserted(s, k, Reg(idx, r)), Raised(regs, idx, r);
    InsertedAt(s, k, Reg(idx, r));
    forall i | 0 <= i < |after| && after[i] > 0
      ensures Has(t, i)
    {
      if i == idx {
        assert t[k].idx == i;
      } else {
        assert regs[i] > 0 && Has(s, i);
        var j :| 0 <= j < |s| && s[j].idx == i;
        assert t[if j < k then j else j + 1] == s[j];
      }
    }
  }

  // --- merging two lists

  /** The list so far: entries of the target, with every index of the first i and j entries of the sources. */
  ghost predicate Merging(out: seq<Reg>, target: seq<nat>, s: seq<Reg>, t: seq<Reg>, i: nat, j: nat)
  {
    && i <= |s| && j <= |t| && |out| <= i + j && Sorted(out)
    && (forall k :: 0 <= k < |out| ==> out[k].idx < |target| && target[out[k].idx] == out[k].rank > 0)
    && (forall k :: 0 <= k < i ==> Has(out, s[k].idx)) && (forall k :: 0 <= k < j ==> Has(out, t[k].idx))
    && (out != [] && i < |s| ==> out[|out| - 1].idx < s[i].idx)
    && (out != [] && j < |t| ==> out[|out| - 1].idx < t[j].idx)
  }

  lemma HasPush(out: seq<Reg>, e: Reg)
    ensures forall i :: Has(out, i) ==> Has(out + [e], i)
    ensures Has(out + [e], e.idx)
  {
    forall i | Has(out, i)
      ensures Has(out + [e], i)
    {
      var k :| 0 <= k < |out| && out[k].idx == i;
      assert (out + [e])[k].idx == i;
    }
    assert (out + [e])[|out|].idx == e.idx;
  }

  lemma MergePush(out: seq<Reg>, target: seq<nat>, s: seq<Reg>, t: seq<Reg>, i: nat, j: nat, e: Reg, i': nat, j': nat)
    requires Merging(out, target, s, t, i, j) && i <= i' <= i + 1 && j <= j' <= j + 1 && i + j < i' + j'
    requires i' <= |s| && j' <= |t| && Sorted(s) && Sorted(t)
    requires (i < i' ==> s[i].idx == e.idx) && (j < j' ==> t[j].idx == e.idx)
    requires (i == i' && i < |s| ==> e.idx < s[i].idx) && (j == j' && j < |t| ==> e.idx < t[j].idx)
    requires e.idx < |target| && target[e.idx] == e.rank > 0
    ensures Merging(out + [e], target, s, t, i', j')
  {
    hide Has;
    HasPush(out, e);
    var out' := out + [e];
    assert out != [] ==> out[|out| - 1].idx < e.idx;
    assert i' < |s| ==> e.idx < s[i'].idx;
    assert j' < |t| ==> e.idx < t[j'].idx;
  }

  /** An entry of one list whose index the other list does not have. */
  lemma Single(out: seq<Reg>, s: seq<Reg>, t: seq<Reg>, a: seq<nat>, b: seq<nat>, i: nat, j: nat)
    requires Shows(s, a) && Shows(t, b) && |a| == |b| && i < |s| && j <= |t|
    requires j < |t| ==> s[i].idx < t[j].idx
    requires forall k :: 0 <= k < j ==> t[k].idx < s[i].idx
    ensures s[i].idx < |a| && Joined(a, b)[s[i].idx] == s[i].rank > 0
  {
    NotThere(t, b, j, s[i].idx);
  }

  lemma Before(out: seq<Reg>, target: seq<nat>, s: seq<Reg>, t: seq<Reg>, i: nat, j: nat)
    requires Merging(out, target, s, t, i, j)
    ensures i < |s| ==> forall k :: 0 <= k < j ==> t[k].idx < s[i].idx
    ensures j < |t| ==> forall k :: 0 <= k < i ==> s[k].idx < t[j].idx
  {
    if i < |s| {
      forall k | 0 <= k < j
        ensures t[k].idx < s[i].idx
      {
        assert Has(out, t[k].idx);
        var l :| 0 <= l < |out| && out[l].idx == t[k].idx;
        assert l < |out| - 1 ==> out[l].idx < out[|out| - 1].idx;
      }
    }
    if j < |t| {
      forall k | 0 <= k < i
        ensures s[k].idx < t[j].idx
      {
        assert Has(out, s[k].idx);
        var l :| 0 <= l < |out| && out[l].idx == s[k].idx;
        assert l < |out| - 1 ==> out[l].idx < out[|out| - 1].idx;
      }
    }
  }

  lemma Merged(out: seq<Reg>, s: seq<Reg>, t: seq<Reg>, a: seq<nat>, b: seq<nat>)
    requires Shows(s, a) && Shows(t, b) && |a| == |b| && Merging(out, Joined(a, b), s, t, |s|, |t|)
    ensures Shows(out, Joined(a, b))
  {
    var c := Joined(a, b);
    forall i | 0 <= i < |c| && c[i] > 0
      ensures Has(out, i)
    {
      if a[i] > 0 {
        assert Has(s, i);
        var k :| 0 <= k < |s| && s[k].idx == i;
      } else {
        assert b[i] > 0 && Has(t, i);
        var k :| 0 <= k < |t| && t[k].idx == i;
      }
    }
  }

  /** Merges two sorted lists, keeping the greater rank of an index in both. */
  method MergeSortedVectors(s: seq<Reg>, t: seq<Reg>, estimatedSize: nat, ghost a: seq<nat>, ghost b: seq<nat>)
    returns (code: Code, out: seq<Reg>)
    requires Shows(s, a) && Shows(t, b) && |a| == |b| && estimatedSize == |s| + |t|
    ensures code == Ok && Shows(out, Joined(a, b))
  {
    hide Has, Merging;
    out := [];
    var i, j := 0, 0;
    ghost var c := Joined(a, b);
    NothingMerged(s, t, c);
    while i < |s| && j < |t|
      invariant 0 <= i <= |s| && 0 <= j <= |t| && |out| <= i + j && Merging(out, c, s, t, i, j)
    {
      Before(out, c, s, t, i, j);
      if s[i].idx < t[j].idx {
        Single(out, s, t, a, b, i, j);
        MergePush(out, c, s, t, i, j, s[i], i + 1, j);
        out, i := out + [s[i]], i + 1;
      } else if s[i].idx > t[j].idx {
        Single(out, t, s, b, a, j, i);
        MergePush(out, c, s, t, i, j, t[j], i, j + 1);
        out, j := out + [t[j]], j + 1;
      } else {
        var e := Reg(s[i].idx, Max(s[i].rank, t[j].rank));
        MergePush(out, c, s, t, i, j, e, i + 1, j + 1);
        out := out + [e];
        i, j := i + 1, j + 1;
      }
      if |out| > estimatedSize { return InternalError, out; }
    }
    while i < |s|
      invariant 0 <= i <= |s| && 0 <= j <= |t| && (i < |s| ==> j == |t|)
      invariant |out| <= i + j && Merging(out, c, s, t, i, j)
    {
      Before(out, c, s, t, i, j);
      Single(out, s, t, a, b, i, j);
      MergePush(out, c, s, t, i, j, s[i], i + 1, j);
      out, i := out + [s[i]], i + 1;
      if |out| > estimatedSize { return InternalError, out; }
    }
    while j < |t|
      invariant i == |s| && 0 <= j <= |t| && |out| <= i + j && Merging(out, c, s, t, i, j)
    {
      Before(out, c, s, t, i, j);
      Single(out, t, s, b, a, j, i);
      MergePush(out, c, s, t, i, j, t[j], i, j + 1);
      out, j := out + [t[j]], j + 1;
      if |out| > estimatedSize { return InternalError, out; }
    }
    Merged(out, s, t, a, b);
    code := Ok;
  }

  lemma NothingMerged(s: seq<Reg>, t: seq<Reg>, target: seq<nat>)
    ensures Merging([], target, s, t, 0, 0)
  {}

  /** Raises registers by the entries of a list. */
  method Raise(regs: seq<nat>, s: seq<Reg>, ghost b: seq<nat>) returns (out: seq<nat>)
    requires Shows(s, b) && |regs| == |b|
    ensures out == Joined(regs, b)
  {
    out := regs;
    var k := 0;
    while k < |s|
      invariant 0 <= k <= |s| && |out| == |regs|
      invariant forall i :: 0 <= i < |regs| ==> out[i] == regs[i] || out[i] == Max(regs[i], b[i])
      invariant forall t :: 0 <= t < k ==> out[s[t].idx] == Max(regs[s[t].idx], b[s[t].idx])
    {
      var e := s[k];
      if e.idx < |out| {
        out := out[e.idx := Max(out[e.idx], e.rank)];
      }
      k := k + 1;
    }
    forall i | 0 <= i < |regs|
      ensures out[i] == Max(regs[i], b[i])
    {
      assert b[i] > 0 ==> Has(s, i);
    }
  }

  function Zeroes(m: nat): seq<nat> { seq(m, _ => 0) }

  lemma Fresh(m: nat, bitsRem: nat)
    requires m > 0
    ensures Maxima(Zeroes(m), {}, bitsRem) && Shows([], Zeroes(m))
  {}

  lemma JoinedZeroes(b: seq<nat>)
    ensures Joined(Zeroes(|b|), b) == b
  {}

  class HyperLogLog {
    const p: nat
    var m: nat
    var bitsRem: nat
    var dense: bool
    var init: bool
    var sparse: seq<Reg>
    var regsDense: seq<nat>

    // the registers whatever their form, and the hashes they come from
    ghost var regs: seq<nat>
    ghost var hashes: set<nat>

    constructor (p: nat)
      ensures Valid() && !init && this.p == p
    {
      this.p, m, bitsRem, dense, init := p, 0, 0, false, false;
      sparse, regsDense, regs, hashes := [], [], [], {};
    }

    ghost predicate Valid()
      reads this
    {
      if init then
        && 4 <= p <= 20 && m == Pow2(p) && bitsRem == 64 - p && |regs| == m && Maxima(regs, hashes, bitsRem)
        && if dense then regsDense == regs && sparse == [] else regsDense == Zeroes(m) && Shows(sparse, regs)
      else
        m == 0 && !dense && sparse == [] && regs == []
    }

    method Init() returns (code: Code)
      requires Valid()
      modifies this
      ensures Valid() && code == (if 4 <= p <= 20 then Ok else InvalidParam)
      ensures code == Ok ==> init && hashes == {} && regs == Zeroes(m) && dense == old(dense)
      ensures code == Ok ==> |regs| == Pow2(p) && forall i :: 0 <= i < |regs| ==> regs[i] == 0
      ensures code != Ok ==> unchanged(this)
    {
      hide Maxima, Shows, Pow2;
      if p < 4 || p > 31 { return InvalidParam; }
      if p > 20 { return InvalidParam; }
      m, bitsRem := Pow2(p), 64 - p;
      regsDense := Zeroes(m);
      sparse := [];
      init := true;
      regs, hashes := Zeroes(m), {};
      Fresh(m, bitsRem);
      code := Ok;
    }

    /** The first entry not before idx. */
    method LowerBound(idx: nat) returns (k: nat)
      requires Sorted(sparse)
      ensures k <= |sparse| && (forall j :: 0 <= j < k ==> sparse[j].idx < idx)
      ensures forall j :: k <= j < |sparse| ==> idx <= sparse[j].idx
    {
      k := 0;
      while k < |sparse| && sparse[k].idx < idx
        invariant k <= |sparse| && forall j :: 0 <= j < k ==> sparse[j].idx < idx
      {
        k := k + 1;
      }
    }

    function SparseSizeBytes(): nat reads this { |sparse| * 5 }

    function DenseThresholdBytes(): nat reads this { |regsDense| / 2 }

    method DensifyWithCheck() returns (code: Code)
      requires Valid() && init
      modifies this
      ensures Valid() && init && dense && code == Ok
      ensures regs == old(regs) && hashes == old(hashes) && m == old(m) && bitsRem == old(bitsRem)
    {
      if dense { return Ok; }
      if !init { return NotInit; }
      if |regsDense| != m { return InternalError; }
      var k := 0;
      while k < |sparse|
        invariant 0 <= k <= |sparse|
      {
        if sparse[k].idx >= |regsDense| { return InternalError; }
        k := k + 1;
      }
      Densify();
      code := Ok;
    }

    method Densify()
      requires Valid() && init
      modifies this
      ensures Valid() && init && dense
      ensures regs == old(regs) && hashes == old(hashes) && m == old(m) && bitsRem == old(bitsRem)
    {
      hide Maxima, Shows, Pow2, Zeroes;
      if dense { return; }
      JoinedZeroes(regs);
      regsDense := Raise(regsDense, sparse, regs);
      sparse := [];
      dense := true;
    }

    /** Raises a register of the sorted list, which becomes an array once it is too long. */
    method AddSparse(ghost h: nat, idx: nat, r: nat, capacity: nat) returns (code: Code)
      requires Valid() && init && !dense && idx < m && r > 0 && |sparse| <= capacity
      requires Maxima(Raised(regs, idx, r), hashes + {h}, bitsRem)
      modifies this
      ensures Valid() && init && code == Ok && m == old(m) && bitsRem == old(bitsRem)
      ensures regs == Raised(old(regs), idx, r) && hashes == old(hashes) + {h}
      ensures dense == ((m - |ZeroPlaces(regs)|) * 5 > m / 2)
    {
      hide Maxima, Shows, Pow2, Raised, ZeroPlaces, Inserted;
      Few(sparse, regs);
      if |sparse| > m { return InternalError; }
      ShowsSorted(sparse, regs);
      var it := LowerBound(idx);
      if it < |sparse| && sparse[it].idx == idx {
        ShowsUpdate(sparse, regs, it, r);
        if r > sparse[it].rank {
          sparse := sparse[it := Reg(idx, r)];
        } else {
          assert sparse[it := Reg(idx, sparse[it].rank)] == sparse;
        }
      } else {
        ShowsInsert(sparse, regs, it, idx, r);
        if capacity <= |sparse| {
          var newCapacity := if capacity == 0 then 1 else capacity * 2;
          if newCapacity > m * 2 { return MallocFailed; }
        }
        sparse := Inserted(sparse, it, Reg(idx, r));
      }
      RaisedIs(regs, idx, r);
      regs, hashes := Raised(regs, idx, r), hashes + {h};
      SparseSize(sparse, regs);
      code := Ok;
      if SparseSizeBytes() > DenseThresholdBytes() { code := DensifyWithCheck(); }
    }

    /** Adds a hash; `capacity` is what the vector of the sparse form has room for. */
    method AddHash(h: nat, capacity: nat) returns (code: Code)
      requires Valid() && |sparse| <= capacity
      modifies this
      ensures Valid() && code == (if init then Ok else NotInit) && init == old(init)
      ensures code == Ok ==> hashes == old(hashes) + {h} && m == old(m) && bitsRem == old(bitsRem)
      ensures code == Ok ==> regs == Raised(old(regs), Index(h, old(m)), Rank(h, old(m), old(bitsRem)))
      ensures code == Ok && h < Pow2(64) ==> Counted(old(regs), regs, h, p)
      ensures code == Ok ==> dense == (old(dense) || (m - |ZeroPlaces(regs)|) * 5 > m / 2)
      ensures code != Ok ==> unchanged(this)
    {
      hide Maxima, Shows, Pow2, Index, Rank, Raised, Counted, Zeros, ZeroPlaces;
      if !init { return NotInit; }
      if h < Pow2(64) { RaisedCounts(regs, h, p); }
      var idx := Index(h, m);
      var r := Rank(h, m, bitsRem);
      MaximaAdd(regs, hashes, bitsRem, h);
      if dense {
        if idx >= |regsDense| { return InternalError; }
        RaisedIs(regs, idx, r);
        if r > regsDense[idx] { regsDense := regsDense[idx := r]; }
        regs, hashes := Raised(regs, idx, r), hashes + {h};
      } else {
        code := AddSparse(h, idx, r, capacity);
        return;
      }
      code := Ok;
    }

    /** Merges another counter into this one. */
    method Merge(other: HyperLogLog) returns (code: Code)
      requires Valid() && other.Valid()
      modifies this
      ensures Valid() && other.Valid()
      ensures code == if !old(init) || !old(other.init) then NotInit else if other.p != p then InvalidParam else Ok
      ensures code == Ok ==> |old(regs)| == |old(other.regs)| && regs == Joined(old(regs), old(other.regs))
      ensures code == Ok ==> hashes == old(hashes) + old(other.hashes)
      ensures code == Ok ==> forall i {:trigger regs[i]} :: 0 <= i < |regs| ==>
        var a, b := old(regs)[i], old(other.regs)[i]; regs[i] >= a && regs[i] >= b && (regs[i] == a || regs[i] == b)
      ensures code != Ok ==> unchanged(this)
    {
      hide Maxima, Shows, Pow2, Zeroes;
      if !init || !other.init { return NotInit; }
      if other.p != p { return InvalidParam; }
      MaximaJoin(regs, other.regs, hashes, other.hashes, bitsRem);
      if !dense && !other.dense {
        code := MergeSparseSparse(other);
      } else {
        code := MergeToDense(other);
      }
    }

    method MergeSparseSparse(other: HyperLogLog) returns (code: Code)
      requires Valid() && other.Valid() && init && other.init && !dense && !other.dense && p == other.p
      requires Maxima(Joined(regs, other.regs), hashes + other.hashes, bitsRem)
      modifies this
      ensures Valid() && other.Valid() && code == Ok && init
      ensures regs == Joined(old(regs), old(other.regs)) && hashes == old(hashes) + old(other.hashes)
    {
      hide Maxima, Shows, Pow2, Zeroes;
      var estimatedSize := |sparse| + |other.sparse|;
      Few(sparse, regs);
      Few(other.sparse, other.regs);
      if estimatedSize > m * 2 { return InvalidParam; }
      var ret, out := MergeSortedVectors(sparse, other.sparse, estimatedSize, regs, other.regs);
      if ret != Ok { return ret; }
      sparse, regs, hashes := out, Joined(regs, other.regs), hashes + other.hashes;
      if SparseSizeBytes() > DenseThresholdBytes() { Densify(); }
      code := Ok;
    }

    /** Raises the registers of this array by those of the other, one by one. */
    method MergeDenseDense(other: HyperLogLog) returns (code: Code)
      requires |regsDense| == m
      modifies this`regsDense
      ensures code == if |old(other.regsDense)| != m then InvalidParam else Ok
      ensures code == Ok ==> regsDense == Joined(old(regsDense), old(other.regsDense))
      ensures code != Ok ==> regsDense == old(regsDense)
    {
      if |other.regsDense| != m { return InvalidParam; }
      var i := 0;
      ghost var was, theirs := regsDense, other.regsDense;
      while i < m
        invariant 0 <= i <= m == |regsDense| == |other.regsDense|
        invariant forall k :: 0 <= k < i ==> regsDense[k] == Max(was[k], theirs[k])
        invariant forall k :: i <= k < m ==> regsDense[k] == was[k] && other.regsDense[k] == theirs[k]
      {
        regsDense := regsDense[i := Max(regsDense[i], other.regsDense[i])];
        i := i + 1;
      }
      code := Ok;
    }

    method MergeToDense(other: HyperLogLog) returns (code: Code)
      requires Valid() && other.Valid() && init && other.init && p == other.p
      requires Maxima(Joined(regs, other.regs), hashes + other.hashes, bitsRem)
      modifies this
      ensures Valid() && other.Valid() && code == Ok && init
      ensures regs == Joined(old(regs), old(other.regs)) && hashes == old(hashes) + old(other.hashes)
    {
      hide Maxima, Shows, Pow2, Zeroes;
      if !dense { Densify(); }
      if |regsDense| != m { return InternalError; }
      if other.dense {
        code := MergeDenseDense(other);
        if code != Ok { return; }
      } else {
        regsDense := Raise(regsDense, other.sparse, other.regs);
      }
      regs, hashes := Joined(regs, other.regs), hashes + other.hashes;
      code := Ok;
    }

    /** What the estimate is computed from. */
    method Observe() returns (sum: real, zeros: nat)
      requires Valid()
      ensures sum == Harmonic(regs) && zeros == Zeros(regs)
      ensures zeros == |ZeroPlaces(regs)| && exists sums :: InverseSums(regs, sums) && sum == sums[|regs|]
    {
      hide Maxima, Shows, Pow2, Zeroes, Half, InverseSums, ZeroPlaces;
      ZerosCount(regs);
      ghost var sums := HarmonicSums(regs);
      sum, zeros := 0.0, 0;
      if !dense {
        if init { SameReading(sparse, regs); }
        var count: int := m;
        var i := 0;
        while i < |sparse|
          invariant 0 <= i <= |sparse| && count == m - i && sum == SparseSum(sparse[..i])
        {
          count := count - 1;
          sum := sum + Half(sparse[i].rank);
          assert sparse[..i + 1][..i] == sparse[..i];
          i := i + 1;
        }
        assert sparse[..i] == sparse;
        zeros := count;
        sum := sum + zeros as real * 1.0;
      } else {
        var i := 0;
        while i < m
          invariant 0 <= i <= m && sum == Harmonic(regs[..i]) && zeros == Zeros(regs[..i])
        {
          sum := sum + Half(regsDense[i]);
          if regsDense[i] == 0 { zeros := zeros + 1; }
          assert regs[..i + 1][..i] == regs[..i];
          i := i + 1;
        }
        assert regs[..i] == regs;
      }
    }
  }

  /** Counters of one precision that took in the same hashes agree, whatever their forms and histories. */
  lemma SameHashesSameRegisters(a: HyperLogLog, b: HyperLogLog)
    requires a.Valid() && b.Valid() && a.init && b.init && a.p == b.p && a.hashes == b.hashes
    ensures a.regs == b.regs
  {
    MaximaUnique(a.regs, b.regs, a.hashes, a.bitsRem);
  }

  lemma RaisedIs(regs: seq<nat>, i: nat, rank: nat)
    requires i < |regs|
    ensures Raised(regs, i, rank) == regs[i := Max(regs[i], rank)]
    ensures (rank <= regs[i] ==> Raised(regs, i, rank) == regs)
  {}

  lemma ShowsSorted(s: seq<Reg>, regs: seq<nat>)
    requires Shows(s, regs)
    ensures Sorted(s)
  {}
}
