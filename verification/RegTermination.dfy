/** When a search never spins and never runs over the end of the subject. */
module RegTermination {
  import opened RegSyntax
  import opened RegProgram
  import opened RegSemantics
  import opened RegLanguage

  /** A tree that can match without consuming anything. */
  predicate Nullable(r: Re) {
    match r
    case Leaf(sym) => sym.Bol? || sym.Eol?
    case Group(alts) => NullableAlts(alts)
    case Star(_) => true
    case Plus(b) => Nullable(b)
    case Opt(_) => true
  }

  predicate NullableSeq(bs: Blocks) { bs.Empty? || (Nullable(bs.first) && NullableSeq(bs.rest)) }

  predicate NullableAlts(alts: Alts) {
    NullableSeq(alts.branch) || (alts.Or? && NullableAlts(alts.others))
  }

  /** Every body of `*` and `+` consumes something. */
  predicate LoopsConsume(r: Re) {
    match r
    case Leaf(_) => true
    case Group(alts) => LoopsConsumeAlts(alts)
    case Star(b) => !Nullable(b) && LoopsConsume(b)
    case Plus(b) => !Nullable(b) && LoopsConsume(b)
    case Opt(b) => LoopsConsume(b)
  }

  predicate LoopsConsumeSeq(bs: Blocks) { bs.Then? ==> LoopsConsume(bs.first) && LoopsConsumeSeq(bs.rest) }

  predicate LoopsConsumeAlts(alts: Alts) {
    LoopsConsumeSeq(alts.branch) && (alts.Or? ==> LoopsConsumeAlts(alts.others))
  }

  predicate DotFree(r: Re) {
    match r
    case Leaf(sym) => !sym.Any?
    case Group(alts) => DotFreeAlts(alts)
    case Star(b) => DotFree(b)
    case Plus(b) => DotFree(b)
    case Opt(b) => DotFree(b)
  }

  predicate DotFreeSeq(bs: Blocks) { bs.Then? ==> DotFree(bs.first) && DotFreeSeq(bs.rest) }

  predicate DotFreeAlts(alts: Alts) {
    DotFreeSeq(alts.branch) && (alts.Or? ==> DotFreeAlts(alts.others))
  }

  // ----- matches of a tree that is not nullable are not empty

  lemma {:induction false} LangAdvances(r: Re, s: seq<byte>, i: nat, j: nat)
    requires WellFormed(r) && Lang(r, s, i, j)
    ensures i <= j && (!Nullable(r) ==> i < j)
    decreases r, 0
  {
    match r {
      case Leaf(_) =>
      case Group(alts) => LangAltsAdvances(alts, s, i, j);
      case Star(b) =>
        var n: nat :| LangPower(b, n, s, i, j);
        LangPowerAdvances(b, n, s, i, j);
      case Plus(b) =>
        var n: nat :| n > 0 && LangPower(b, n, s, i, j);
        LangPowerAdvances(b, n, s, i, j);
      case Opt(b) => if i != j { LangAdvances(b, s, i, j); }
    }
  }

  lemma {:induction false} LangPowerAdvances(r: Re, n: nat, s: seq<byte>, i: nat, j: nat)
    requires WellFormed(r) && LangPower(r, n, s, i, j)
    ensures i <= j && (n > 0 && !Nullable(r) ==> i < j)
    decreases r, n + 1
  {
    hide Lang;
    if n > 0 {
      var k: nat :| Lang(r, s, i, k) && LangPower(r, n - 1, s, k, j);
      LangAdvances(r, s, i, k);
      LangPowerAdvances(r, n - 1, s, k, j);
    }
  }

  lemma {:induction false} LangSeqAdvances(bs: Blocks, s: seq<byte>, i: nat, j: nat)
    requires WellFormedBlocks(bs) && LangSeq(bs, s, i, j)
    ensures i <= j && (!NullableSeq(bs) ==> i < j)
    decreases bs, 0
  {
    hide Lang;
    if bs.Then? {
      var k: nat :| Lang(bs.first, s, i, k) && LangSeq(bs.rest, s, k, j);
      LangAdvances(bs.first, s, i, k);
      LangSeqAdvances(bs.rest, s, k, j);
    }
  }

  lemma {:induction false} LangAltsAdvances(alts: Alts, s: seq<byte>, i: nat, j: nat)
    requires WellFormedAlts(alts) && LangAlts(alts, s, i, j)
    ensures i <= j && (!NullableAlts(alts) ==> i < j)
    decreases alts, 0
  {
    hide LangSeq;
    if LangSeq(alts.branch, s, i, j) {
      LangSeqAdvances(alts.branch, s, i, j);
    } else {
      LangAltsAdvances(alts.others, s, i, j);
    }
  }

  // ----- no spin

  lemma {:induction false} NeverSpins(r: Re, s: seq<byte>, i: nat)
    requires WellFormed(r) && LoopsConsume(r) && i <= |s| + 1
    ensures !Has(Ends(r, s, i), Spin)
    decreases r, |s| + 1 - i, 9, Nil
  {
    match r {
      case Leaf(_) =>
      case Group(alts) => AltsNeverSpin(alts, s, i);
      case Star(b) =>
        NeverSpins(b, s, i);
        IterationsAdvance(b, s, i);
        LoopFromNeverSpins(r, s, i, Ends(b, s, i));
        HasAppend(EndsStarFrom(r, s, i, Ends(b, s, i)), One(Reach(i)), Spin);
      case Plus(b) =>
        NeverSpins(b, s, i);
        IterationsAdvance(b, s, i);
        LoopFromNeverSpins(r, s, i, Ends(b, s, i));
      case Opt(b) =>
        NeverSpins(b, s, i);
        HasAppend(Ends(b, s, i), One(Reach(i)), Spin);
    }
  }

  lemma IterationsAdvance(b: Re, s: seq<byte>, i: nat)
    requires WellFormed(b) && !Nullable(b) && i <= |s| + 1
    ensures !Has(Ends(b, s, i), Reach(i))
  {
    if Has(Ends(b, s, i), Reach(i)) {
      EndsAreMatches(b, s, i, i);
      LangAdvances(b, s, i, i);
    }
  }

  lemma {:induction false} LoopFromNeverSpins(r: Re, s: seq<byte>, i: nat, os: Outcomes)
    requires (r.Star? || r.Plus?) && WellFormed(r) && LoopsConsume(r) && i <= |s| + 1 && Within(os, i, |s| + 1)
    requires !Has(os, Spin) && !Has(os, Reach(i))
    ensures r.Star? ==> !Has(EndsStarFrom(r, s, i, os), Spin)
    ensures r.Plus? ==> !Has(EndsPlusFrom(r, s, i, os), Spin)
    decreases r, |s| + 1 - i, 8, os
  {
    hide Ends;
    if os.Cons? {
      var o := os.head;
      LoopFromNeverSpins(r, s, i, os.tail);
      if o.Reach? { NeverSpins(r, s, o.idx); }
      if r.Star? {
        HasAppend(EndsStarAfter(r, s, i, o), EndsStarFrom(r, s, i, os.tail), Spin);
      } else {
        if o.Reach? { HasAppend(Ends(r, s, o.idx), One(o), Spin); }
        HasAppend(EndsPlusAfter(r, s, i, o), EndsPlusFrom(r, s, i, os.tail), Spin);
      }
    }
  }

  lemma {:induction false} SeqNeverSpins(bs: Blocks, s: seq<byte>, i: nat)
    requires WellFormedBlocks(bs) && LoopsConsumeSeq(bs) && i <= |s| + 1
    ensures !Has(EndsSeq(bs, s, i), Spin)
    decreases bs, 0, 0, Nil
  {
    hide Ends;
    if bs.Then? {
      NeverSpins(bs.first, s, i);
      SeqFromNeverSpins(bs.rest, s, i, Ends(bs.first, s, i));
    }
  }

  lemma {:induction false} SeqFromNeverSpins(bs: Blocks, s: seq<byte>, i: nat, os: Outcomes)
    requires WellFormedBlocks(bs) && LoopsConsumeSeq(bs) && i <= |s| + 1 && Within(os, i, |s| + 1)
    requires !Has(os, Spin)
    ensures !Has(EndsSeqFrom(bs, s, i, os), Spin)
    decreases bs, 1, 0, os
  {
    hide EndsSeq;
    if os.Cons? {
      if os.head.Reach? { SeqNeverSpins(bs, s, os.head.idx); }
      SeqFromNeverSpins(bs, s, i, os.tail);
      HasAppend(EndsSeqAfter(bs, s, i, os.head), EndsSeqFrom(bs, s, i, os.tail), Spin);
    }
  }

  lemma {:induction false} AltsNeverSpin(alts: Alts, s: seq<byte>, i: nat)
    requires WellFormedAlts(alts) && LoopsConsumeAlts(alts) && i <= |s| + 1
    ensures !Has(EndsAlts(alts, s, i), Spin)
    decreases alts, 0, 0, Nil
  {
    hide EndsSeq;
    SeqNeverSpins(alts.branch, s, i);
    if alts.Or? {
      AltsNeverSpin(alts.others, s, i);
      HasAppend(EndsSeq(alts.branch, s, i), EndsAlts(alts.others, s, i), Spin);
    }
  }

  // ----- no overrun without a dot

  /** No overrun, and no end past the end of a subject of length n. */
  predicate Inside(os: Outcomes, n: nat) {
    os.Cons? ==> !os.head.Overrun? && (os.head.Reach? ==> os.head.idx <= n) && Inside(os.tail, n)
  }

  lemma {:induction false} InsideAppend(a: Outcomes, b: Outcomes, n: nat)
    ensures Inside(Append(a, b), n) <==> Inside(a, n) && Inside(b, n)
  {
    if a.Cons? { InsideAppend(a.tail, b, n); }
  }

  lemma {:induction false} StaysInside(r: Re, s: seq<byte>, i: nat)
    requires DotFree(r) && i <= |s|
    ensures Inside(Ends(r, s, i), |s|)
    decreases r, |s| + 1 - i, 9, Nil
  {
    match r {
      case Leaf(_) =>
      case Group(alts) => AltsStayInside(alts, s, i);
      case Star(b) =>
        StaysInside(b, s, i);
        LoopFromStaysInside(r, s, i, Ends(b, s, i));
        InsideAppend(EndsStarFrom(r, s, i, Ends(b, s, i)), One(Reach(i)), |s|);
      case Plus(b) =>
        StaysInside(b, s, i);
        LoopFromStaysInside(r, s, i, Ends(b, s, i));
      case Opt(b) =>
        StaysInside(b, s, i);
        InsideAppend(Ends(b, s, i), One(Reach(i)), |s|);
    }
  }

  lemma {:induction false} LoopFromStaysInside(r: Re, s: seq<byte>, i: nat, os: Outcomes)
    requires (r.Star? || r.Plus?) && DotFree(r) && i <= |s| && Within(os, i, |s| + 1) && Inside(os, |s|)
    ensures r.Star? ==> Inside(EndsStarFrom(r, s, i, os), |s|)
    ensures r.Plus? ==> Inside(EndsPlusFrom(r, s, i, os), |s|)
    decreases r, |s| + 1 - i, 8, os
  {
    hide Ends;
    if os.Cons? {
      var o := os.head;
      LoopFromStaysInside(r, s, i, os.tail);
      if o.Reach? && o.idx != i { StaysInside(r, s, o.idx); }
      if r.Star? {
        InsideAppend(EndsStarAfter(r, s, i, o), EndsStarFrom(r, s, i, os.tail), |s|);
      } else {
        if o.Reach? { InsideAppend(Ends(r, s, o.idx), One(o), |s|); }
        InsideAppend(EndsPlusAfter(r, s, i, o), EndsPlusFrom(r, s, i, os.tail), |s|);
      }
    }
  }

  lemma {:induction false} SeqStaysInside(bs: Blocks, s: seq<byte>, i: nat)
    requires DotFreeSeq(bs) && i <= |s|
    ensures Inside(EndsSeq(bs, s, i), |s|)
    decreases bs, 0, 0, Nil
  {
    hide Ends;
    if bs.Then? {
      StaysInside(bs.first, s, i);
      SeqFromStaysInside(bs.rest, s, i, Ends(bs.first, s, i));
    }
  }

  lemma {:induction false} SeqFromStaysInside(bs: Blocks, s: seq<byte>, i: nat, os: Outcomes)
    requires DotFreeSeq(bs) && i <= |s| && Within(os, i, |s| + 1) && Inside(os, |s|)
    ensures Inside(EndsSeqFrom(bs, s, i, os), |s|)
    decreases bs, 1, 0, os
  {
    hide EndsSeq;
    if os.Cons? {
      if os.head.Reach? { SeqStaysInside(bs, s, os.head.idx); }
      SeqFromStaysInside(bs, s, i, os.tail);
      InsideAppend(EndsSeqAfter(bs, s, i, os.head), EndsSeqFrom(bs, s, i, os.tail), |s|);
    }
  }

  lemma {:induction false} AltsStayInside(alts: Alts, s: seq<byte>, i: nat)
    requires DotFreeAlts(alts) && i <= |s|
    ensures Inside(EndsAlts(alts, s, i), |s|)
    decreases alts, 0, 0, Nil
  {
    hide EndsSeq;
    SeqStaysInside(alts.branch, s, i);
    if alts.Or? {
      AltsStayInside(alts.others, s, i);
      InsideAppend(EndsSeq(alts.branch, s, i), EndsAlts(alts.others, s, i), |s|);
    }
  }
}
