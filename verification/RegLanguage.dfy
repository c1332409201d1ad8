/** The language of a pattern, without any order of trying, and the conditions
    under which a search always ends with an answer. */
module RegLanguage {
  import opened RegSyntax
  import opened RegProgram
  import opened RegSemantics

  /** `sym` matches s from i to j.  The dot also matches one place past the end. */
  predicate SymbolLang(sym: Symbol, s: seq<byte>, i: nat, j: nat) {
    match sym
    case Bol => i == 0 && j == i
    case Eol => i == |s| && j == i
    case Any => i <= |s| && j == i + 1
    case Class(negated, items) => i < |s| && ClassHas(negated, items, s[i]) && j == i + 1
    case Escaped(c) => i < |s| && s[i] == c && j == i + 1
    case Literal(t) => j == i + |t| <= |s| && s[i..j] == t
  }

  ghost predicate Lang(r: Re, s: seq<byte>, i: nat, j: nat)
    decreases r, 0
  {
    match r
    case Leaf(sym) => SymbolLang(sym, s, i, j)
    case Group(alts) => LangAlts(alts, s, i, j)
    case Star(b) => exists n: nat :: LangPower(b, n, s, i, j)
    case Plus(b) => exists n: nat :: n > 0 && LangPower(b, n, s, i, j)
    case Opt(b) => i == j || Lang(b, s, i, j)
  }

  /** n matches of r one after another. */
  ghost predicate LangPower(r: Re, n: nat, s: seq<byte>, i: nat, j: nat)
    decreases r, n + 1
  {
    if n == 0 then i == j else exists k: nat :: Lang(r, s, i, k) && LangPower(r, n - 1, s, k, j)
  }

  ghost predicate LangSeq(bs: Blocks, s: seq<byte>, i: nat, j: nat)
    decreases bs, 0
  {
    match bs
    case Empty => i == j
    case Then(b, rest) => exists k: nat :: Lang(b, s, i, k) && LangSeq(rest, s, k, j)
  }

  ghost predicate LangAlts(alts: Alts, s: seq<byte>, i: nat, j: nat)
    decreases alts, 0
  {
    match alts
    case Only(bs) => LangSeq(bs, s, i, j)
    case Or(bs, others) => LangSeq(bs, s, i, j) || LangAlts(others, s, i, j)
  }

  // ----- the ends of a search are matches

  predicate Has(os: Outcomes, o: Outcome) { os.Cons? && (os.head == o || Has(os.tail, o)) }

  lemma {:induction false} HasAppend(a: Outcomes, b: Outcomes, o: Outcome)
    ensures Has(Append(a, b), o) <==> Has(a, o) || Has(b, o)
  {
    if a.Cons? { HasAppend(a.tail, b, o); }
  }

  lemma LiteralEnds(t: seq<byte>, s: seq<byte>, i: nat, j: nat)
    requires t != [] && i <= |s| + 1
    ensures Has(EndsLiteral(t, s, i), Reach(j)) <==> j == i + |t| <= |s| && s[i..j] == t
  {
    if i < |s| && i + |t| <= |s| { assert s[i..][..|t|] == s[i..i + |t|]; }
  }

  lemma SymbolEnds(sym: Symbol, s: seq<byte>, i: nat, j: nat)
    requires WellFormedSymbol(sym) && i <= |s| + 1
    ensures Has(EndsSymbol(sym, s, i), Reach(j)) <==> SymbolLang(sym, s, i, j)
  {
    match sym {
      case Literal(t) => LiteralEnds(t, s, i, j);
      case Escaped(c) => LiteralEnds([c], s, i, j);
      case _ =>
    }
  }

  lemma {:induction false} EndsAreMatches(r: Re, s: seq<byte>, i: nat, j: nat)
    requires WellFormed(r) && i <= |s| + 1 && Has(Ends(r, s, i), Reach(j))
    ensures Lang(r, s, i, j)
    decreases r, |s| + 1 - i, 9, Nil
  {
    match r {
      case Leaf(sym) => SymbolEnds(sym, s, i, j);
      case Group(alts) => AltsEndsAreMatches(alts, s, i, j);
      case Star(b) => var n := StarEndsAreMatches(r, s, i, j);
      case Plus(b) => var n := PlusEndsAreMatches(r, s, i, j);
      case Opt(b) =>
        HasAppend(Ends(b, s, i), One(Reach(i)), Reach(j));
        if i != j { EndsAreMatches(b, s, i, j); }
    }
  }

  lemma PowerStep(r: Re, n: nat, s: seq<byte>, i: nat, k: nat, j: nat)
    requires Lang(r, s, i, k) && LangPower(r, n, s, k, j)
    ensures LangPower(r, n + 1, s, i, j)
  {
  }

  lemma {:induction false} StarEndsAreMatches(r: Re, s: seq<byte>, i: nat, j: nat) returns (n: nat)
    requires r.Star? && WellFormed(r) && i <= |s| + 1 && Has(Ends(r, s, i), Reach(j))
    ensures LangPower(r.body, n, s, i, j)
    decreases r, |s| + 1 - i, 8, Nil
  {
    hide Lang, EndsStarFrom;
    var os := Ends(r.body, s, i);
    HasAppend(EndsStarFrom(r, s, i, os), One(Reach(i)), Reach(j));
    if i == j {
      n := 0;
    } else {
      var k, m := StarFromEndsAreMatches(r, s, i, os, j);
      EndsAreMatches(r.body, s, i, k);
      PowerStep(r.body, m, s, i, k, j);
      n := m + 1;
    }
  }

  lemma {:induction false} StarFromEndsAreMatches(r: Re, s: seq<byte>, i: nat, os: Outcomes, j: nat)
    returns (k: nat, m: nat)
    requires r.Star? && WellFormed(r) && i <= |s| + 1 && Within(os, i, |s| + 1)
    requires Has(EndsStarFrom(r, s, i, os), Reach(j))
    ensures Has(os, Reach(k)) && LangPower(r.body, m, s, k, j)
    decreases r, |s| + 1 - i, 7, os
  {
    hide Ends, LangPower, Lang;
    var o := os.head;
    HasAppend(EndsStarAfter(r, s, i, o), EndsStarFrom(r, s, i, os.tail), Reach(j));
    if Has(EndsStarAfter(r, s, i, o), Reach(j)) {
      k := o.idx;
      m := StarEndsAreMatches(r, s, k, j);
    } else {
      k, m := StarFromEndsAreMatches(r, s, i, os.tail, j);
    }
  }

  lemma {:induction false} PlusEndsAreMatches(r: Re, s: seq<byte>, i: nat, j: nat) returns (n: nat)
    requires r.Plus? && WellFormed(r) && i <= |s| + 1 && Has(Ends(r, s, i), Reach(j))
    ensures n > 0 && LangPower(r.body, n, s, i, j)
    decreases r, |s| + 1 - i, 8, Nil
  {
    hide Lang, EndsPlusFrom;
    var k, m := PlusFromEndsAreMatches(r, s, i, Ends(r.body, s, i), j);
    EndsAreMatches(r.body, s, i, k);
    PowerStep(r.body, m, s, i, k, j);
    n := m + 1;
  }

  lemma {:induction false} PlusFromEndsAreMatches(r: Re, s: seq<byte>, i: nat, os: Outcomes, j: nat)
    returns (k: nat, m: nat)
    requires r.Plus? && WellFormed(r) && i <= |s| + 1 && Within(os, i, |s| + 1)
    requires Has(EndsPlusFrom(r, s, i, os), Reach(j))
    ensures Has(os, Reach(k)) && LangPower(r.body, m, s, k, j)
    decreases r, |s| + 1 - i, 7, os
  {
    hide Ends, Lang;
    var o := os.head;
    HasAppend(EndsPlusAfter(r, s, i, o), EndsPlusFrom(r, s, i, os.tail), Reach(j));
    if Has(EndsPlusAfter(r, s, i, o), Reach(j)) {
      k := o.idx;
      HasAppend(Ends(r, s, k), One(Reach(k)), Reach(j));
      if k == j {
        m := 0;
      } else {
        m := PlusEndsAreMatches(r, s, k, j);
      }
    } else {
      k, m := PlusFromEndsAreMatches(r, s, i, os.tail, j);
    }
  }

  lemma {:induction false} SeqEndsAreMatches(bs: Blocks, s: seq<byte>, i: nat, j: nat)
    requires WellFormedBlocks(bs) && i <= |s| + 1 && Has(EndsSeq(bs, s, i), Reach(j))
    ensures LangSeq(bs, s, i, j)
    decreases bs, 0, 0, Nil
  {
    hide Lang, EndsSeqFrom;
    match bs {
      case Empty =>
      case Then(b, rest) =>
        var k := SeqFromEndsAreMatches(rest, s, i, Ends(b, s, i), j);
        EndsAreMatches(b, s, i, k);
    }
  }

  lemma {:induction false} SeqFromEndsAreMatches(bs: Blocks, s: seq<byte>, i: nat, os: Outcomes, j: nat)
    returns (k: nat)
    requires WellFormedBlocks(bs) && i <= |s| + 1 && Within(os, i, |s| + 1)
    requires Has(EndsSeqFrom(bs, s, i, os), Reach(j))
    ensures Has(os, Reach(k)) && LangSeq(bs, s, k, j)
    decreases bs, 1, 0, os
  {
    hide LangSeq, EndsSeq;
    var o := os.head;
    HasAppend(EndsSeqAfter(bs, s, i, o), EndsSeqFrom(bs, s, i, os.tail), Reach(j));
    if Has(EndsSeqAfter(bs, s, i, o), Reach(j)) {
      k := o.idx;
      SeqEndsAreMatches(bs, s, k, j);
    } else {
      k := SeqFromEndsAreMatches(bs, s, i, os.tail, j);
    }
  }

  lemma {:induction false} AltsEndsAreMatches(alts: Alts, s: seq<byte>, i: nat, j: nat)
    requires WellFormedAlts(alts) && i <= |s| + 1 && Has(EndsAlts(alts, s, i), Reach(j))
    ensures LangAlts(alts, s, i, j)
    decreases alts, 0, 0, Nil
  {
    hide LangSeq, EndsSeq;
    match alts {
      case Only(bs) => SeqEndsAreMatches(bs, s, i, j);
      case Or(bs, others) =>
        HasAppend(EndsSeq(bs, s, i), EndsAlts(others, s, i), Reach(j));
        if Has(EndsSeq(bs, s, i), Reach(j)) {
          SeqEndsAreMatches(bs, s, i, j);
        } else {
          AltsEndsAreMatches(others, s, i, j);
        }
    }
  }

  // ----- matches are ends of the search, when the search is not cut short

  /** No `Overrun` and no `Spin`. */
  predicate Clean(os: Outcomes) { os.Cons? ==> os.head.Reach? && Clean(os.tail) }

  lemma {:induction false} CleanAppend(a: Outcomes, b: Outcomes)
    ensures Clean(Append(a, b)) <==> Clean(a) && Clean(b)
  {
    if a.Cons? { CleanAppend(a.tail, b); }
  }

  lemma {:induction false} MatchesAreEnds(r: Re, s: seq<byte>, i: nat, j: nat)
    requires WellFormed(r) && i <= |s| + 1 && Clean(Ends(r, s, i)) && Lang(r, s, i, j)
    ensures Has(Ends(r, s, i), Reach(j))
    decreases r, 0, 0
  {
    match r {
      case Leaf(sym) => SymbolEnds(sym, s, i, j);
      case Group(alts) => AltsMatchesAreEnds(alts, s, i, j);
      case Star(b) =>
        var n: nat :| LangPower(b, n, s, i, j);
        StarMatchesAreEnds(r, n, s, i, j);
      case Plus(b) =>
        var n: nat :| n > 0 && LangPower(b, n, s, i, j);
        PlusMatchesAreEnds(r, n, s, i, j);
      case Opt(b) =>
        HasAppend(Ends(b, s, i), One(Reach(i)), Reach(j));
        CleanAppend(Ends(b, s, i), One(Reach(i)));
        if i != j { MatchesAreEnds(b, s, i, j); }
    }
  }

  lemma {:induction false} StarFromClean(r: Re, s: seq<byte>, i: nat, os: Outcomes)
    requires r.Star? && i <= |s| + 1 && Within(os, i, |s| + 1) && Clean(EndsStarFrom(r, s, i, os))
    ensures Clean(os)
  {
    hide Ends;
    if os.Cons? {
      CleanAppend(EndsStarAfter(r, s, i, os.head), EndsStarFrom(r, s, i, os.tail));
      StarFromClean(r, s, i, os.tail);
    }
  }

  /** One iteration's end k, and what the repetition can do from there. */
  lemma {:induction false} StarFromHas(r: Re, s: seq<byte>, i: nat, os: Outcomes, k: nat)
    requires r.Star? && i <= |s| + 1 && Within(os, i, |s| + 1) && Clean(EndsStarFrom(r, s, i, os))
    requires Has(os, Reach(k))
    ensures i < k <= |s| + 1 && Clean(Ends(r, s, k))
    ensures forall j: nat :: Has(Ends(r, s, k), Reach(j)) ==> Has(EndsStarFrom(r, s, i, os), Reach(j))
    decreases os
  {
    hide Ends;
    CleanAppend(EndsStarAfter(r, s, i, os.head), EndsStarFrom(r, s, i, os.tail));
    if os.head == Reach(k) {
      forall j: nat | Has(Ends(r, s, k), Reach(j)) ensures Has(EndsStarFrom(r, s, i, os), Reach(j)) {
        HasAppend(EndsStarAfter(r, s, i, os.head), EndsStarFrom(r, s, i, os.tail), Reach(j));
      }
    } else {
      StarFromHas(r, s, i, os.tail, k);
      forall j: nat | Has(Ends(r, s, k), Reach(j)) ensures Has(EndsStarFrom(r, s, i, os), Reach(j)) {
        HasAppend(EndsStarAfter(r, s, i, os.head), EndsStarFrom(r, s, i, os.tail), Reach(j));
      }
    }
  }

  lemma {:induction false} StarMatchesAreEnds(r: Re, n: nat, s: seq<byte>, i: nat, j: nat)
    requires r.Star? && WellFormed(r) && i <= |s| + 1 && Clean(Ends(r, s, i)) && LangPower(r.body, n, s, i, j)
    ensures Has(Ends(r, s, i), Reach(j))
    decreases r.body, n + 1, 0
  {
    hide Lang, EndsStarFrom;
    var os := Ends(r.body, s, i);
    HasAppend(EndsStarFrom(r, s, i, os), One(Reach(i)), Reach(j));
    CleanAppend(EndsStarFrom(r, s, i, os), One(Reach(i)));
    if n > 0 {
      var k: nat :| Lang(r.body, s, i, k) && LangPower(r.body, n - 1, s, k, j);
      StarFromClean(r, s, i, os);
      MatchesAreEnds(r.body, s, i, k);
      StarFromHas(r, s, i, os, k);
      StarMatchesAreEnds(r, n - 1, s, k, j);
    }
  }

  lemma {:induction false} PlusFromClean(r: Re, s: seq<byte>, i: nat, os: Outcomes)
    requires r.Plus? && i <= |s| + 1 && Within(os, i, |s| + 1) && Clean(EndsPlusFrom(r, s, i, os))
    ensures Clean(os)
  {
    hide Ends;
    if os.Cons? {
      CleanAppend(EndsPlusAfter(r, s, i, os.head), EndsPlusFrom(r, s, i, os.tail));
      PlusFromClean(r, s, i, os.tail);
    }
  }

  lemma {:induction false} PlusFromHas(r: Re, s: seq<byte>, i: nat, os: Outcomes, k: nat)
    requires r.Plus? && i <= |s| + 1 && Within(os, i, |s| + 1) && Clean(EndsPlusFrom(r, s, i, os))
    requires Has(os, Reach(k))
    ensures i < k <= |s| + 1 && Clean(Ends(r, s, k)) && Has(EndsPlusFrom(r, s, i, os), Reach(k))
    ensures forall j: nat :: Has(Ends(r, s, k), Reach(j)) ==> Has(EndsPlusFrom(r, s, i, os), Reach(j))
    decreases os
  {
    hide Ends;
    var head, rest := EndsPlusAfter(r, s, i, os.head), EndsPlusFrom(r, s, i, os.tail);
    CleanAppend(head, rest);
    HasAppend(head, rest, Reach(k));
    if os.head == Reach(k) {
      CleanAppend(Ends(r, s, k), One(Reach(k)));
      HasAppend(Ends(r, s, k), One(Reach(k)), Reach(k));
    } else {
      PlusFromHas(r, s, i, os.tail, k);
    }
    forall j: nat | Has(Ends(r, s, k), Reach(j)) ensures Has(EndsPlusFrom(r, s, i, os), Reach(j)) {
      HasAppend(head, rest, Reach(j));
      if os.head == Reach(k) { HasAppend(Ends(r, s, k), One(Reach(k)), Reach(j)); }
    }
  }

  lemma {:induction false} PlusMatchesAreEnds(r: Re, n: nat, s: seq<byte>, i: nat, j: nat)
    requires r.Plus? && WellFormed(r) && i <= |s| + 1 && Clean(Ends(r, s, i))
    requires n > 0 && LangPower(r.body, n, s, i, j)
    ensures Has(Ends(r, s, i), Reach(j))
    decreases r.body, n + 1, 0
  {
    hide Lang, EndsPlusFrom;
    var os := Ends(r.body, s, i);
    var k: nat :| Lang(r.body, s, i, k) && LangPower(r.body, n - 1, s, k, j);
    PlusFromClean(r, s, i, os);
    MatchesAreEnds(r.body, s, i, k);
    PlusFromHas(r, s, i, os, k);
    if n > 1 { PlusMatchesAreEnds(r, n - 1, s, k, j); }
  }

  lemma {:induction false} SeqFromHas(bs: Blocks, s: seq<byte>, i: nat, os: Outcomes, k: nat)
    requires i <= |s| + 1 && Within(os, i, |s| + 1) && Clean(EndsSeqFrom(bs, s, i, os)) && Has(os, Reach(k))
    ensures k <= |s| + 1 && Clean(EndsSeq(bs, s, k))
    ensures forall j: nat :: Has(EndsSeq(bs, s, k), Reach(j)) ==> Has(EndsSeqFrom(bs, s, i, os), Reach(j))
    decreases os
  {
    hide EndsSeq;
    var head, rest := EndsSeqAfter(bs, s, i, os.head), EndsSeqFrom(bs, s, i, os.tail);
    CleanAppend(head, rest);
    if os.head != Reach(k) { SeqFromHas(bs, s, i, os.tail, k); }
    forall j: nat | Has(EndsSeq(bs, s, k), Reach(j)) ensures Has(EndsSeqFrom(bs, s, i, os), Reach(j)) {
      HasAppend(head, rest, Reach(j));
    }
  }

  lemma {:induction false} SeqFromClean(bs: Blocks, s: seq<byte>, i: nat, os: Outcomes)
    requires i <= |s| + 1 && Within(os, i, |s| + 1) && Clean(EndsSeqFrom(bs, s, i, os))
    ensures Clean(os)
  {
    hide EndsSeq;
    if os.Cons? {
      CleanAppend(EndsSeqAfter(bs, s, i, os.head), EndsSeqFrom(bs, s, i, os.tail));
      SeqFromClean(bs, s, i, os.tail);
    }
  }

  lemma {:induction false} SeqMatchesAreEnds(bs: Blocks, s: seq<byte>, i: nat, j: nat)
    requires WellFormedBlocks(bs) && i <= |s| + 1 && Clean(EndsSeq(bs, s, i)) && LangSeq(bs, s, i, j)
    ensures Has(EndsSeq(bs, s, i), Reach(j))
    decreases bs, 0, 0
  {
    hide Lang, EndsSeqFrom;
    match bs {
      case Empty =>
      case Then(b, rest) =>
        var k: nat :| Lang(b, s, i, k) && LangSeq(rest, s, k, j);
        SeqFromClean(rest, s, i, Ends(b, s, i));
        MatchesAreEnds(b, s, i, k);
        SeqFromHas(rest, s, i, Ends(b, s, i), k);
        SeqMatchesAreEnds(rest, s, k, j);
    }
  }

  lemma {:induction false} AltsMatchesAreEnds(alts: Alts, s: seq<byte>, i: nat, j: nat)
    requires WellFormedAlts(alts) && i <= |s| + 1 && Clean(EndsAlts(alts, s, i)) && LangAlts(alts, s, i, j)
    ensures Has(EndsAlts(alts, s, i), Reach(j))
    decreases alts, 0, 0
  {
    hide LangSeq, EndsSeq;
    match alts {
      case Only(bs) => SeqMatchesAreEnds(bs, s, i, j);
      case Or(bs, others) =>
        HasAppend(EndsSeq(bs, s, i), EndsAlts(others, s, i), Reach(j));
        CleanAppend(EndsSeq(bs, s, i), EndsAlts(others, s, i));
        if LangSeq(bs, s, i, j) {
          SeqMatchesAreEnds(bs, s, i, j);
        } else {
          AltsMatchesAreEnds(others, s, i, j);
        }
    }
  }
}
