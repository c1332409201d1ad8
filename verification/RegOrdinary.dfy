/** The language of a pattern in which the dot, too, needs a character, and what the search has to
    do with it when the pattern has dots. */
module RegOrdinary {
  import opened RegSyntax
  import opened RegProgram
  import opened RegSemantics
  import opened RegLanguage
  import opened RegTermination

  predicate SymbolMatches(sym: Symbol, s: seq<byte>, i: nat, j: nat) {
    if sym.Any? then i < |s| && j == i + 1 else SymbolLang(sym, s, i, j)
  }

  ghost predicate Matches(r: Re, s: seq<byte>, i: nat, j: nat)
    decreases r, 0
  {
    match r
    case Leaf(sym) => SymbolMatches(sym, s, i, j)
    case Group(alts) => MatchesAlts(alts, s, i, j)
    case Star(b) => exists n: nat :: MatchesPower(b, n, s, i, j)
    case Plus(b) => exists n: nat :: n > 0 && MatchesPower(b, n, s, i, j)
    case Opt(b) => i == j || Matches(b, s, i, j)
  }

  ghost predicate MatchesPower(r: Re, n: nat, s: seq<byte>, i: nat, j: nat)
    decreases r, n + 1
  {
    if n == 0 then i == j else exists k: nat :: Matches(r, s, i, k) && MatchesPower(r, n - 1, s, k, j)
  }

  ghost predicate MatchesSeq(bs: Blocks, s: seq<byte>, i: nat, j: nat)
    decreases bs, 0
  {
    match bs
    case Empty => i == j
    case Then(b, rest) => exists k: nat :: Matches(b, s, i, k) && MatchesSeq(rest, s, k, j)
  }

  ghost predicate MatchesAlts(alts: Alts, s: seq<byte>, i: nat, j: nat)
    decreases alts, 0
  {
    match alts
    case Only(bs) => MatchesSeq(bs, s, i, j)
    case Or(bs, others) => MatchesSeq(bs, s, i, j) || MatchesAlts(others, s, i, j)
  }

  // ----- a match in the language of the search does not go back

  lemma {:induction false} Forward(r: Re, s: seq<byte>, i: nat, j: nat)
    requires Lang(r, s, i, j)
    ensures i <= j
    decreases r, 0
  {
    match r {
      case Leaf(_) =>
      case Group(alts) => ForwardAlts(alts, s, i, j);
      case Star(b) =>
        var n: nat :| LangPower(b, n, s, i, j);
        ForwardPower(b, n, s, i, j);
      case Plus(b) =>
        var n: nat :| n > 0 && LangPower(b, n, s, i, j);
        ForwardPower(b, n, s, i, j);
      case Opt(b) => if i != j { Forward(b, s, i, j); }
    }
  }

  lemma {:induction false} ForwardPower(r: Re, n: nat, s: seq<byte>, i: nat, j: nat)
    requires LangPower(r, n, s, i, j)
    ensures i <= j
    decreases r, n + 1
  {
    if n > 0 {
      var k: nat :| Lang(r, s, i, k) && LangPower(r, n - 1, s, k, j);
      Forward(r, s, i, k);
      ForwardPower(r, n - 1, s, k, j);
    }
  }

  lemma {:induction false} ForwardSeq(bs: Blocks, s: seq<byte>, i: nat, j: nat)
    requires LangSeq(bs, s, i, j)
    ensures i <= j
    decreases bs, 0
  {
    if bs.Then? {
      var k: nat :| Lang(bs.first, s, i, k) && LangSeq(bs.rest, s, k, j);
      Forward(bs.first, s, i, k);
      ForwardSeq(bs.rest, s, k, j);
    }
  }

  lemma {:induction false} ForwardAlts(alts: Alts, s: seq<byte>, i: nat, j: nat)
    requires LangAlts(alts, s, i, j)
    ensures i <= j
    decreases alts, 0
  {
    if LangSeq(alts.branch, s, i, j) { ForwardSeq(alts.branch, s, i, j); } else { ForwardAlts(alts.others, s, i, j); }
  }

  // ----- the ordinary matches are those that end inside the subject

  lemma {:induction false} MatchIsLang(r: Re, s: seq<byte>, i: nat, j: nat)
    requires Matches(r, s, i, j) && i <= |s|
    ensures Lang(r, s, i, j) && j <= |s|
    decreases r, 0
  {
    match r {
      case Leaf(_) =>
      case Group(alts) => MatchIsLangAlts(alts, s, i, j);
      case Star(b) =>
        var n: nat :| MatchesPower(b, n, s, i, j);
        MatchIsLangPower(b, n, s, i, j);
      case Plus(b) =>
        var n: nat :| n > 0 && MatchesPower(b, n, s, i, j);
        MatchIsLangPower(b, n, s, i, j);
      case Opt(b) => if i != j { MatchIsLang(b, s, i, j); }
    }
  }

  lemma {:induction false} MatchIsLangPower(r: Re, n: nat, s: seq<byte>, i: nat, j: nat)
    requires MatchesPower(r, n, s, i, j) && i <= |s|
    ensures LangPower(r, n, s, i, j) && j <= |s|
    decreases r, n + 1
  {
    if n > 0 {
      var k: nat :| Matches(r, s, i, k) && MatchesPower(r, n - 1, s, k, j);
      MatchIsLang(r, s, i, k);
      MatchIsLangPower(r, n - 1, s, k, j);
    }
  }

  lemma {:induction false} MatchIsLangSeq(bs: Blocks, s: seq<byte>, i: nat, j: nat)
    requires MatchesSeq(bs, s, i, j) && i <= |s|
    ensures LangSeq(bs, s, i, j) && j <= |s|
    decreases bs, 0
  {
    if bs.Then? {
      var k: nat :| Matches(bs.first, s, i, k) && MatchesSeq(bs.rest, s, k, j);
      MatchIsLang(bs.first, s, i, k);
      MatchIsLangSeq(bs.rest, s, k, j);
    }
  }

  lemma {:induction false} MatchIsLangAlts(alts: Alts, s: seq<byte>, i: nat, j: nat)
    requires MatchesAlts(alts, s, i, j) && i <= |s|
    ensures LangAlts(alts, s, i, j) && j <= |s|
    decreases alts, 0
  {
    if MatchesSeq(alts.branch, s, i, j) {
      MatchIsLangSeq(alts.branch, s, i, j);
    } else {
      MatchIsLangAlts(alts.others, s, i, j);
    }
  }

  lemma {:induction false} LangIsMatch(r: Re, s: seq<byte>, i: nat, j: nat)
    requires Lang(r, s, i, j) && j <= |s|
    ensures Matches(r, s, i, j)
    decreases r, 0
  {
    match r {
      case Leaf(_) =>
      case Group(alts) => LangIsMatchAlts(alts, s, i, j);
      case Star(b) =>
        var n: nat :| LangPower(b, n, s, i, j);
        LangIsMatchPower(b, n, s, i, j);
      case Plus(b) =>
        var n: nat :| n > 0 && LangPower(b, n, s, i, j);
        LangIsMatchPower(b, n, s, i, j);
      case Opt(b) => if i != j { LangIsMatch(b, s, i, j); }
    }
  }

  lemma {:induction false} LangIsMatchPower(r: Re, n: nat, s: seq<byte>, i: nat, j: nat)
    requires LangPower(r, n, s, i, j) && j <= |s|
    ensures MatchesPower(r, n, s, i, j)
    decreases r, n + 1
  {
    if n > 0 {
      var k: nat :| Lang(r, s, i, k) && LangPower(r, n - 1, s, k, j);
      ForwardPower(r, n - 1, s, k, j);
      LangIsMatch(r, s, i, k);
      LangIsMatchPower(r, n - 1, s, k, j);
    }
  }

  lemma {:induction false} LangIsMatchSeq(bs: Blocks, s: seq<byte>, i: nat, j: nat)
    requires LangSeq(bs, s, i, j) && j <= |s|
    ensures MatchesSeq(bs, s, i, j)
    decreases bs, 0
  {
    if bs.Then? {
      var k: nat :| Lang(bs.first, s, i, k) && LangSeq(bs.rest, s, k, j);
      ForwardSeq(bs.rest, s, k, j);
      LangIsMatch(bs.first, s, i, k);
      LangIsMatchSeq(bs.rest, s, k, j);
    }
  }

  lemma {:induction false} LangIsMatchAlts(alts: Alts, s: seq<byte>, i: nat, j: nat)
    requires LangAlts(alts, s, i, j) && j <= |s|
    ensures MatchesAlts(alts, s, i, j)
    decreases alts, 0
  {
    if LangSeq(alts.branch, s, i, j) {
      LangIsMatchSeq(alts.branch, s, i, j);
    } else {
      LangIsMatchAlts(alts.others, s, i, j);
    }
  }

  /** The ordinary language is that of the search, inside the subject. */
  lemma MatchesInside(r: Re, s: seq<byte>, i: nat, j: nat)
    requires i <= |s|
    ensures Matches(r, s, i, j) <==> Lang(r, s, i, j) && j <= |s|
  {
    hide Matches, Lang;
    if Matches(r, s, i, j) { MatchIsLang(r, s, i, j); }
    if Lang(r, s, i, j) && j <= |s| { LangIsMatch(r, s, i, j); }
  }

  lemma AltsInside(alts: Alts, s: seq<byte>, i: nat, j: nat)
    requires i <= |s|
    ensures MatchesAlts(alts, s, i, j) <==> LangAlts(alts, s, i, j) && j <= |s|
  {
    hide MatchesAlts, LangAlts;
    if MatchesAlts(alts, s, i, j) { MatchIsLangAlts(alts, s, i, j); }
    if LangAlts(alts, s, i, j) && j <= |s| { LangIsMatchAlts(alts, s, i, j); }
  }

  // ----- without dots every match is an ordinary one

  lemma {:induction false} NoDots(r: Re, s: seq<byte>, i: nat, j: nat)
    requires DotFree(r) && i <= |s| && Lang(r, s, i, j)
    ensures j <= |s|
    decreases r, 0
  {
    match r {
      case Leaf(_) =>
      case Group(alts) => NoDotsAlts(alts, s, i, j);
      case Star(b) =>
        var n: nat :| LangPower(b, n, s, i, j);
        NoDotsPower(b, n, s, i, j);
      case Plus(b) =>
        var n: nat :| n > 0 && LangPower(b, n, s, i, j);
        NoDotsPower(b, n, s, i, j);
      case Opt(b) => if i != j { NoDots(b, s, i, j); }
    }
  }

  lemma {:induction false} NoDotsPower(r: Re, n: nat, s: seq<byte>, i: nat, j: nat)
    requires DotFree(r) && i <= |s| && LangPower(r, n, s, i, j)
    ensures j <= |s|
    decreases r, n + 1
  {
    if n > 0 {
      var k: nat :| Lang(r, s, i, k) && LangPower(r, n - 1, s, k, j);
      NoDots(r, s, i, k);
      NoDotsPower(r, n - 1, s, k, j);
    }
  }

  lemma {:induction false} NoDotsSeq(bs: Blocks, s: seq<byte>, i: nat, j: nat)
    requires DotFreeSeq(bs) && i <= |s| && LangSeq(bs, s, i, j)
    ensures j <= |s|
    decreases bs, 0
  {
    if bs.Then? {
      var k: nat :| Lang(bs.first, s, i, k) && LangSeq(bs.rest, s, k, j);
      NoDots(bs.first, s, i, k);
      NoDotsSeq(bs.rest, s, k, j);
    }
  }

  lemma {:induction false} NoDotsAlts(alts: Alts, s: seq<byte>, i: nat, j: nat)
    requires DotFreeAlts(alts) && i <= |s| && LangAlts(alts, s, i, j)
    ensures j <= |s|
    decreases alts, 0
  {
    if LangSeq(alts.branch, s, i, j) { NoDotsSeq(alts.branch, s, i, j); } else { NoDotsAlts(alts.others, s, i, j); }
  }

  // ----- what a success of the search means

  /** The end at which a search that succeeds arrives is an ordinary match exactly when it lies inside the
      subject; and a search that fails has no ordinary match to find. */
  lemma SuccessInside(alts: Alts, s: seq<byte>, i: nat)
    requires WellFormedAlts(alts) && i <= |s|
    ensures var os := EndsAlts(alts, s, i);
      && (os.Cons? && os.head.Reach? ==> (MatchesAlts(alts, s, i, os.head.idx) <==> os.head.idx <= |s|))
      && (os.Nil? ==> forall j: nat :: !MatchesAlts(alts, s, i, j))
  {
    hide EndsAlts, LangAlts, MatchesAlts;
    var os := EndsAlts(alts, s, i);
    if os.Cons? && os.head.Reach? {
      AltsEndsAreMatches(alts, s, i, os.head.idx);
      AltsInside(alts, s, i, os.head.idx);
    } else if os.Nil? {
      forall j: nat ensures !MatchesAlts(alts, s, i, j) {
        AltsInside(alts, s, i, j);
        if LangAlts(alts, s, i, j) { AltsMatchesAreEnds(alts, s, i, j); }
      }
    }
  }
}
