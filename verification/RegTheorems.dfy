/** What a compiled pattern does on a subject, in terms of the pattern's language. */
module RegTheorems {
  import opened RegSyntax
  import opened RegProgram
  import opened RegSemantics
  import opened RegLayout
  import opened RegSound
  import opened RegComplete
  import opened RegLanguage
  import opened RegOrdinary
  import opened RegTermination
  import opened RegRelink
  import opened RegGroup
  import opened RegGrammar

  const LOWER_A: byte := 97
  const LOWER_X: byte := 120

  /** A tree that the compiler accepts. */
  predicate Compilable(alts: Alts) { WellFormedAlts(alts) && |Program(alts)| < MAX_NFA_LEN }

  // ----- which patterns are accepted

  /** A pattern is accepted exactly when it is, up to its end or a NUL, the text of a tree of the grammar
      that has fewer than twenty groups and less than 65535 bytes of code. */
  lemma AcceptedIff(pattern: seq<byte>)
    ensures Accepted(pattern) <==> exists t: Alts, n: nat :: Writes(t, pattern, n) && LenAlts(t) + 6 < 65535
  {
    hide ParsePattern, Writes, Program;
    var r := ParsePattern(pattern);
    if Accepted(pattern) {
      assert ParsePattern(pattern) == Parsed(r.val, r.idx, r.parens);
      ParsedIff(pattern, r.val, r.idx);
    }
    if t: Alts, n: nat :| Writes(t, pattern, n) && LenAlts(t) + 6 < 65535 {
      ParsedIff(pattern, t, n);
    }
  }

  /** A tree of the grammar is anchored when it is a single branch that begins with "^" or "^+". */
  lemma AnchoredIff(t: Alts)
    requires RegularAlts(t)
    ensures Anchored(t) <==>
      t.Only? && t.branch.Then? && (t.branch.first == Leaf(Bol) || t.branch.first == Plus(Leaf(Bol)))
  {
    if t.branch.Then? {
      var r := t.branch.first;
      assert Regular(r);
      if r.Plus? {
        assert Repeatable(r.body);
        assert StartsAtBol(r) <==> StartsAtBol(r.body);
        assert StartsAtBol(r.body) <==> r.body == Leaf(Bol);
      } else {
        assert StartsAtBol(r) <==> r == Leaf(Bol);
      }
    }
  }

  // ----- one search: from the first branch, at index i

  lemma ProgramIsWired(alts: Alts)
    requires Compilable(alts)
    ensures var nfa, e := Program(alts), 3 + LenAlts(alts);
      WiredAlts(nfa, 3, alts, e) && e + NODE_SIZE == |nfa|
      && Op(nfa, e) == END && GetNextNodePos(nfa, e) == Fail(NoNextNode)
  {
    hide GenAlts, WiredAlts, LenAlts, WellFormedAlts;
    var nfa, e := Program(alts), 3 + LenAlts(alts);
    assert At(nfa, 3, GenAlts(alts, 0)) && At(nfa, e, Node(END, 0));
    NodeIs(nfa, e, END, 0);
    GenAltsIsWired(nfa, 3, alts);
  }

  /** At the end node every end of a match is a success. */
  lemma AtTheEnd(n: nat, nfa: seq<byte>, s: seq<byte>, e: nat, os: Outcomes)
    requires GetNextNodePos(nfa, e) == Fail(NoNextNode) && Op(nfa, e) == END
    ensures n > 0 ==> After(n, nfa, s, e, os) == Answer(os)
    ensures After(n, nfa, s, e, os) != Pending ==> After(n, nfa, s, e, os) == Answer(os)
  {
    if os.Cons? && os.head.Reach? && n > 0 {
      assert Step(nfa, s, e, os.head.idx) == Done(Ok);
    }
  }

  /** A search that ends gives the answer of the tree's ends. */
  lemma MatchAgrees(n: nat, alts: Alts, s: seq<byte>, i: nat)
    requires Compilable(alts) && i <= |s| + 1
    ensures var v := Enter(n, Program(alts), s, START_VALID_POS, i);
      v != Pending ==> v == Answer(EndsAlts(alts, s, i))
  {
    hide WiredAlts, Run, EndsAlts, After, Program, Step;
    var nfa, e := Program(alts), 3 + LenAlts(alts);
    ProgramIsWired(alts);
    AltsSound(n, nfa, s, 3, alts, e, i);
    if n > 0 { AtTheEnd(n - 1, nfa, s, e, EndsAlts(alts, s, i)); }
  }

  /** And it ends unless that answer is reached only after an iteration that
      consumed nothing. */
  lemma MatchEnds(alts: Alts, s: seq<byte>, i: nat) returns (n: nat)
    requires Compilable(alts) && i <= |s| + 1 && Answer(EndsAlts(alts, s, i)) != Pending
    ensures Enter(n, Program(alts), s, START_VALID_POS, i) == Answer(EndsAlts(alts, s, i))
  {
    hide WiredAlts, Run, EndsAlts, After, Program, Step;
    var nfa, e := Program(alts), 3 + LenAlts(alts);
    ProgramIsWired(alts);
    AtTheEnd(1, nfa, s, e, EndsAlts(alts, s, i));
    n := AltsComplete(1, nfa, s, 3, alts, e, i);
  }

  /** That is: a search ends, with enough steps, exactly when the first of the tree's ends is not an
      iteration that consumed nothing. */
  lemma MatchEndsIff(alts: Alts, s: seq<byte>, i: nat)
    requires Compilable(alts) && i <= |s| + 1
    ensures (exists n: nat :: Enter(n, Program(alts), s, START_VALID_POS, i) != Pending)
      <==> Answer(EndsAlts(alts, s, i)) != Pending
  {
    hide Enter, EndsAlts, Program, Compilable;
    if Answer(EndsAlts(alts, s, i)) != Pending {
      var n := MatchEnds(alts, s, i);
    }
    if n: nat :| Enter(n, Program(alts), s, START_VALID_POS, i) != Pending {
      MatchAgrees(n, alts, s, i);
    }
  }

  /** A search that succeeds has found an ordinary match, in which every dot stands for a character, exactly
      when the end it arrives at lies inside the subject. */
  lemma SuccessIsMatch(n: nat, alts: Alts, s: seq<byte>, i: nat)
    requires Compilable(alts) && i <= |s|
    requires Enter(n, Program(alts), s, START_VALID_POS, i) == Returns(Ok)
    ensures var os := EndsAlts(alts, s, i);
      os.Cons? && os.head.Reach? && (MatchesAlts(alts, s, i, os.head.idx) <==> os.head.idx <= |s|)
  {
    hide Enter, EndsAlts, Program, MatchesAlts;
    MatchAgrees(n, alts, s, i);
    SuccessInside(alts, s, i);
  }

  /** A success is a match of the pattern's language, and a failure means that
      there is none: for every pattern and subject on which the search ends. */
  lemma AnswerIsLanguage(alts: Alts, s: seq<byte>, i: nat)
    requires WellFormedAlts(alts) && i <= |s| + 1
    ensures var v := Answer(EndsAlts(alts, s, i));
      && (v == Returns(Ok) ==> exists j: nat :: LangAlts(alts, s, i, j))
      && (v == Mismatch ==> !exists j: nat :: LangAlts(alts, s, i, j))
  {
    hide EndsAlts, LangAlts;
    var os := EndsAlts(alts, s, i);
    if os.Nil? {
      forall j: nat | LangAlts(alts, s, i, j) ensures false { AltsMatchesAreEnds(alts, s, i, j); }
    } else if os.head.Reach? {
      AltsEndsAreMatches(alts, s, i, os.head.idx);
    }
  }

  /** Without dots and with loops that consume, every search ends and decides
      whether the pattern matches at i. */
  lemma MatchDecides(alts: Alts, s: seq<byte>, i: nat) returns (n: nat)
    requires Compilable(alts) && LoopsConsumeAlts(alts) && DotFreeAlts(alts) && i <= |s|
    ensures Enter(n, Program(alts), s, START_VALID_POS, i) ==
      if exists j: nat :: LangAlts(alts, s, i, j) then Returns(Ok) else Mismatch
  {
    hide EndsAlts, LangAlts, Enter;
    AltsNeverSpin(alts, s, i);
    AltsStayInside(alts, s, i);
    AnswerIsLanguage(alts, s, i);
    n := MatchEnds(alts, s, i);
  }

  /** Without dots and with loops that consume, the search decides the ordinary language. */
  lemma OrdinaryDecides(alts: Alts, s: seq<byte>, i: nat) returns (n: nat)
    requires Compilable(alts) && LoopsConsumeAlts(alts) && DotFreeAlts(alts) && i <= |s|
    ensures Enter(n, Program(alts), s, START_VALID_POS, i) ==
      if exists j: nat :: MatchesAlts(alts, s, i, j) then Returns(Ok) else Mismatch
  {
    hide Enter, Program;
    n := MatchDecides(alts, s, i);
    if exists j: nat :: LangAlts(alts, s, i, j) {
      var j: nat :| LangAlts(alts, s, i, j);
      NoDotsAlts(alts, s, i, j);
      AltsInside(alts, s, i, j);
    } else {
      forall j: nat ensures !MatchesAlts(alts, s, i, j) { AltsInside(alts, s, i, j); }
    }
  }

  // ----- a loop whose body can match nothing

  predicate AnchorFree(r: Re) {
    match r
    case Leaf(sym) => !sym.Bol? && !sym.Eol?
    case Group(alts) => AnchorFreeAlts(alts)
    case Star(b) => AnchorFree(b)
    case Plus(b) => AnchorFree(b)
    case Opt(b) => AnchorFree(b)
  }

  predicate AnchorFreeSeq(bs: Blocks) { bs.Then? ==> AnchorFree(bs.first) && AnchorFreeSeq(bs.rest) }

  predicate AnchorFreeAlts(alts: Alts) {
    AnchorFreeSeq(alts.branch) && (alts.Or? ==> AnchorFreeAlts(alts.others))
  }

  lemma {:induction false} NullableHasEnd(r: Re, s: seq<byte>, i: nat)
    requires Nullable(r) && AnchorFree(r) && i <= |s| + 1
    ensures Ends(r, s, i).Cons?
    decreases r
  {
    match r {
      case Leaf(_) =>
      case Group(alts) => NullableAltsHasEnd(alts, s, i);
      case Star(b) => AppendCons(EndsStarFrom(r, s, i, Ends(b, s, i)), One(Reach(i)));
      case Plus(b) =>
        NullableHasEnd(b, s, i);
        PlusAfterHasEnd(r, s, i, Ends(b, s, i));
      case Opt(b) => AppendCons(Ends(b, s, i), One(Reach(i)));
    }
  }

  lemma AppendCons(a: Outcomes, b: Outcomes)
    ensures b.Cons? || a.Cons? ==> Append(a, b).Cons?
    ensures a.Cons? ==> Append(a, b).head == a.head
  {
  }

  lemma PlusAfterHasEnd(r: Re, s: seq<byte>, i: nat, os: Outcomes)
    requires r.Plus? && i <= |s| + 1 && Within(os, i, |s| + 1) && os.Cons?
    ensures EndsPlusFrom(r, s, i, os).Cons?
  {
    hide Ends;
    var o := os.head;
    if o.Reach? && o.idx != i { AppendCons(Ends(r, s, o.idx), One(o)); }
    AppendCons(EndsPlusAfter(r, s, i, o), EndsPlusFrom(r, s, i, os.tail));
  }

  lemma {:induction false} NullableSeqHasEnd(bs: Blocks, s: seq<byte>, i: nat)
    requires NullableSeq(bs) && AnchorFreeSeq(bs) && i <= |s| + 1
    ensures EndsSeq(bs, s, i).Cons?
    decreases bs
  {
    hide Ends, Nullable, AnchorFree;
    if bs.Then? {
      NullableHasEnd(bs.first, s, i);
      var os := Ends(bs.first, s, i);
      if os.head.Reach? { NullableSeqHasEnd(bs.rest, s, os.head.idx); }
      AppendCons(EndsSeqAfter(bs.rest, s, i, os.head), EndsSeqFrom(bs.rest, s, i, os.tail));
    }
  }

  lemma {:induction false} NullableAltsHasEnd(alts: Alts, s: seq<byte>, i: nat)
    requires NullableAlts(alts) && AnchorFreeAlts(alts) && i <= |s| + 1
    ensures EndsAlts(alts, s, i).Cons?
    decreases alts
  {
    hide EndsSeq, NullableSeq, AnchorFreeSeq;
    if NullableSeq(alts.branch) {
      NullableSeqHasEnd(alts.branch, s, i);
    } else {
      NullableAltsHasEnd(alts.others, s, i);
    }
    if alts.Or? { AppendCons(EndsSeq(alts.branch, s, i), EndsAlts(alts.others, s, i)); }
  }

  /** Such a loop never ends once it is reached, whatever the subject: the side
      condition on loops cannot be dropped. */
  lemma {:induction false} NullableLoopSpins(r: Re, s: seq<byte>, i: nat)
    requires (r.Star? || r.Plus?) && Nullable(r.body) && AnchorFree(r.body) && DotFree(r) && i <= |s|
    ensures Ends(r, s, i).Cons? && Ends(r, s, i).head == Spin
    decreases |s| - i
  {
    hide Nullable, AnchorFree, DotFree;
    NullableHasEnd(r.body, s, i);
    NullableBodyInside(r, s, i);
    var os := Ends(r.body, s, i);
    if os.head.Reach? && os.head.idx != i { NullableLoopSpins(r, s, os.head.idx); }
    LoopHead(r, s, i, os);
  }

  lemma NullableBodyInside(r: Re, s: seq<byte>, i: nat)
    requires (r.Star? || r.Plus?) && DotFree(r) && i <= |s|
    ensures Inside(Ends(r.body, s, i), |s|)
  {
    StaysInside(r.body, s, i);
  }

  lemma LoopHead(r: Re, s: seq<byte>, i: nat, os: Outcomes)
    requires (r.Star? || r.Plus?) && i <= |s| && os == Ends(r.body, s, i) && os.Cons? && !os.head.Overrun?
    requires os.head.Reach? && os.head.idx != i ==>
      os.head.idx <= |s| && Ends(r, s, os.head.idx).Cons? && Ends(r, s, os.head.idx).head == Spin
    ensures Ends(r, s, i).Cons? && Ends(r, s, i).head == Spin
  {
    var o := os.head;
    if r.Star? {
      AppendCons(EndsStarAfter(r, s, i, o), EndsStarFrom(r, s, i, os.tail));
      AppendCons(EndsStarFrom(r, s, i, os), One(Reach(i)));
    } else {
      if o.Reach? && o.idx != i { AppendCons(Ends(r, s, o.idx), One(o)); }
      AppendCons(EndsPlusAfter(r, s, i, o), EndsPlusFrom(r, s, i, os.tail));
    }
  }

  /** A pattern that is only such a loop makes the matcher run forever on every subject. */
  lemma NullableLoopRunsForever(r: Re, s: seq<byte>, i: nat, n: nat)
    requires (r.Star? || r.Plus?) && Nullable(r.body) && AnchorFree(r.body) && DotFree(r) && i <= |s|
    requires Compilable(Only(Then(r, Empty)))
    ensures Enter(n, Program(Only(Then(r, Empty))), s, START_VALID_POS, i) == Pending
  {
    hide Ends, Program, Enter, Nullable, AnchorFree, DotFree;
    NullableLoopSpins(r, s, i);
    var alts := Only(Then(r, Empty));
    var os := Ends(r, s, i);
    AppendCons(EndsSeqAfter(Empty, s, i, os.head), EndsSeqFrom(Empty, s, i, os.tail));
    assert EndsAlts(alts, s, i) == EndsSeqFrom(Empty, s, i, os);
    MatchAgrees(n, alts, s, i);
  }

  lemma LoneLoop(r: Re)
    requires (r.Star? || r.Plus?) && !Nullable(r.body) && LoopsConsume(r.body) && DotFree(r)
    ensures DotFreeAlts(Only(Then(r, Empty))) && LoopsConsumeAlts(Only(Then(r, Empty)))
  {
    assert LoopsConsume(r);
    assert DotFreeSeq(Then(r, Empty)) && LoopsConsumeSeq(Then(r, Empty));
  }

  /** A pattern that is one loop, whose body has no other loop over nothing: its search ends, on
      any subject and from any index, exactly when the body cannot match nothing. */
  lemma LoopEndsIff(r: Re, s: seq<byte>, i: nat)
    requires (r.Star? || r.Plus?) && AnchorFree(r.body) && DotFree(r) && LoopsConsume(r.body) && i <= |s|
    requires Compilable(Only(Then(r, Empty)))
    ensures (exists n: nat :: Enter(n, Program(Only(Then(r, Empty))), s, START_VALID_POS, i) != Pending)
      <==> !Nullable(r.body)
  {
    hide Program, Enter, Compilable, AnchorFree, DotFree, Nullable;
    var alts := Only(Then(r, Empty));
    if Nullable(r.body) {
      forall n: nat ensures Enter(n, Program(alts), s, START_VALID_POS, i) == Pending {
        NullableLoopRunsForever(r, s, i, n);
      }
    } else {
      LoneLoop(r);
      var n := MatchDecides(alts, s, i);
      assert Enter(n, Program(alts), s, START_VALID_POS, i) != Pending;
    }
  }

  /** The pattern "(a?)*" is such a loop: its search never ends. */
  lemma OptionalInLoop(s: seq<byte>, i: nat, n: nat)
    requires i <= |s|
    ensures var alts := Only(Then(Star(Group(Only(Then(Opt(Leaf(Literal([LOWER_A]))), Empty)))), Empty));
      && ParsePattern([LPAREN, LOWER_A, QUESTION, RPAREN, STAR]) == Parsed(alts, 5, 1)
      && Enter(n, Program(alts), s, START_VALID_POS, i) == Pending
  {
    hide Program, Enter;
    var opt := Opt(Leaf(Literal([LOWER_A])));
    var body := Group(Only(Then(opt, Empty)));
    ParseOptionalInLoop();
    assert AnchorFree(opt) && DotFree(opt) && Nullable(opt);
    assert AnchorFreeSeq(Then(opt, Empty)) && DotFreeSeq(Then(opt, Empty)) && NullableSeq(Then(opt, Empty));
    assert AnchorFree(body) && DotFree(body) && Nullable(body);
    SmallLoop(Star(body));
    NullableLoopRunsForever(Star(body), s, i, n);
  }

  lemma SmallLoop(r: Re)
    requires r == Star(Group(Only(Then(Opt(Leaf(Literal([LOWER_A]))), Empty))))
    ensures Compilable(Only(Then(r, Empty)))
  {
    var a := Leaf(Literal([LOWER_A]));
    var opt, bs := Opt(a), Then(Opt(a), Empty);
    assert WellFormed(a) && Len(a) == NODE_SIZE + |Operand(a.sym)| <= 10;
    assert WellFormed(opt) && Len(opt) == Len(a) + 9;
    assert WellFormedBlocks(bs) && LenSeq(bs) == Len(opt);
    assert WellFormedAlts(Only(bs)) && LenAlts(Only(bs)) == NODE_SIZE + LenSeq(bs);
    assert WellFormed(r.body) && Len(r.body) == LenAlts(Only(bs)) + 6;
    assert WellFormed(r) && Len(r) == Len(r.body) + 12;
    assert WellFormedBlocks(Then(r, Empty)) && LenSeq(Then(r, Empty)) == Len(r);
  }

  lemma ParseOptionalInLoop()
    ensures ParsePattern([LPAREN, LOWER_A, QUESTION, RPAREN, STAR]) ==
      Parsed(Only(Then(Star(Group(Only(Then(Opt(Leaf(Literal([LOWER_A]))), Empty)))), Empty)), 5, 1)
  {
    var s := [LPAREN, LOWER_A, QUESTION, RPAREN, STAR];
    var a := Leaf(Literal([LOWER_A]));
    var group := Group(Only(Then(Opt(a), Empty)));
    assert Span(s, 2) == 0 && Span(s, 1) == 1 && s[1..2] == [LOWER_A];
    assert ParseAtom(s, 1, 1) == Parsed(a, 2, 1);
    assert ParseBlock(s, 1, 1) == Parsed(Opt(a), 3, 1);
    assert ParseBranch(s, 3, 1) == Parsed(Empty, 3, 1);
    assert ParseBranch(s, 1, 1) == Parsed(Then(Opt(a), Empty), 3, 1);
    assert ParseBranches(s, 1, 1) == Parsed(Only(Then(Opt(a), Empty)), 3, 1);
    assert ParseAlts(s, true, 1, 0) == Parsed(Only(Then(Opt(a), Empty)), 4, 1);
    assert ParseAtom(s, 0, 0) == Parsed(group, 4, 1);
    assert ParseBlock(s, 0, 0) == Parsed(Star(group), 5, 1);
    assert ParseBranch(s, 5, 1) == Parsed(Empty, 5, 1);
    assert ParseBranch(s, 0, 0) == Parsed(Then(Star(group), Empty), 5, 1);
    assert ParseBranches(s, 0, 0) == Parsed(Only(Then(Star(group), Empty)), 5, 1);
  }

  // ----- a check: searches from every index

  lemma PowerHead(r: Re, n: nat, s: seq<byte>, i: nat, j: nat) returns (k: nat)
    requires n > 0 && LangPower(r, n, s, i, j)
    ensures Lang(r, s, i, k)
  {
    hide Lang;
    k :| Lang(r, s, i, k) && LangPower(r, n - 1, s, k, j);
  }

  lemma {:induction false} AnchoredStart(r: Re, s: seq<byte>, i: nat, j: nat)
    requires StartsAtBol(r) && Lang(r, s, i, j)
    ensures i == 0
    decreases r
  {
    if r.Plus? {
      var n: nat :| n > 0 && LangPower(r.body, n, s, i, j);
      var k := PowerHead(r.body, n, s, i, j);
      AnchoredStart(r.body, s, i, k);
    }
  }

  /** An anchored pattern matches nowhere but at the start, so nothing is lost by
      searching only there. */
  lemma AnchoredOnlyAtStart(alts: Alts, s: seq<byte>, i: nat, j: nat)
    requires Anchored(alts) && LangAlts(alts, s, i, j)
    ensures i == 0
  {
    hide StartsAtBol, Lang;
    var bs := alts.branch;
    assert LangSeq(bs, s, i, j);
    var k: nat :| Lang(bs.first, s, i, k) && LangSeq(bs.rest, s, k, j);
    AnchoredStart(bs.first, s, i, k);
  }

  /** The pattern matches somewhere: at a character of the subject, or at the start. */
  ghost predicate Occurs(alts: Alts, s: seq<byte>) {
    exists i: nat, j: nat :: (i == 0 || i < |s|) && LangAlts(alts, s, i, j)
  }

  lemma {:induction false} CheckFromMeans(n: nat, alts: Alts, s: seq<byte>, i: nat)
    requires Compilable(alts)
    ensures var v := CheckFrom(n, Program(alts), s, i);
      && (v == Returns(Ok) ==> exists k: nat, j: nat :: i <= k < |s| && LangAlts(alts, s, k, j))
      && (v == Mismatch ==> forall k: nat, j: nat :: i <= k < |s| ==> !LangAlts(alts, s, k, j))
    decreases |s| - i
  {
    hide LangAlts, Enter, Program, EndsAlts;
    if i < |s| {
      MatchAgrees(n, alts, s, i);
      AnswerIsLanguage(alts, s, i);
      CheckFromMeans(n, alts, s, i + 1);
    }
  }

  /** A check that ends with success or failure is right about whether the pattern
      occurs, except that an unanchored pattern is found in the empty subject. */
  lemma CheckMeans(n: nat, alts: Alts, s: seq<byte>)
    requires Compilable(alts)
    ensures var v := CheckVerdict(n, Program(alts), Anchored(alts), s);
      && (v == Returns(Ok) ==> Occurs(alts, s) || (s == [] && !Anchored(alts)))
      && (v == Mismatch ==> !Occurs(alts, s))
  {
    hide LangAlts, Enter, Program, EndsAlts, Anchored, CheckFrom;
    CheckFromMeans(n, alts, s, 0);
    MatchAgrees(n, alts, s, 0);
    AnswerIsLanguage(alts, s, 0);
    if Anchored(alts) {
      forall i: nat, j: nat | LangAlts(alts, s, i, j) ensures i == 0 { AnchoredOnlyAtStart(alts, s, i, j); }
    }
  }

  lemma EnterMonotone(n: nat, m: nat, nfa: seq<byte>, s: seq<byte>, p: nat, i: nat)
    requires n <= m && Enter(n, nfa, s, p, i) != Pending
    ensures Enter(m, nfa, s, p, i) == Enter(n, nfa, s, p, i)
  {
    hide Run;
    if p >= START_VALID_POS { RunMonotone(n, m, nfa, s, p, i); }
  }

  lemma {:induction false} CheckFromMonotone(n: nat, m: nat, nfa: seq<byte>, s: seq<byte>, i: nat)
    requires n <= m && CheckFrom(n, nfa, s, i) != Pending
    ensures CheckFrom(m, nfa, s, i) == CheckFrom(n, nfa, s, i)
    decreases |s| - i
  {
    hide Enter;
    if i < |s| {
      EnterMonotone(n, m, nfa, s, START_VALID_POS, i);
      if Enter(n, nfa, s, START_VALID_POS, i) == Mismatch { CheckFromMonotone(n, m, nfa, s, i + 1); }
    }
  }

  lemma {:induction false} CheckFromEnds(alts: Alts, s: seq<byte>, i: nat) returns (n: nat)
    requires Compilable(alts) && LoopsConsumeAlts(alts) && DotFreeAlts(alts)
    ensures CheckFrom(n, Program(alts), s, i) in {Returns(Ok), Mismatch}
    decreases |s| - i
  {
    hide LangAlts, Enter, Program, EndsAlts;
    if i < |s| {
      var a := MatchDecides(alts, s, i);
      var b := CheckFromEnds(alts, s, i + 1);
      n := Max(a, b);
      EnterMonotone(a, n, Program(alts), s, START_VALID_POS, i);
      CheckFromMonotone(b, n, Program(alts), s, i + 1);
    } else {
      n := 0;
    }
  }

  /** Without dots and with loops that consume, a check of a non-empty subject
      always ends, with success exactly when the pattern occurs in it; and so does
      the check of an anchored pattern on the empty subject. */
  lemma CheckDecides(alts: Alts, s: seq<byte>) returns (n: nat)
    requires Compilable(alts) && LoopsConsumeAlts(alts) && DotFreeAlts(alts)
    ensures CheckVerdict(n, Program(alts), Anchored(alts), s) ==
      if Occurs(alts, s) || (s == [] && !Anchored(alts)) then Returns(Ok) else Mismatch
  {
    hide LangAlts, Enter, Program, EndsAlts, Anchored, CheckFrom, LoopsConsumeAlts, DotFreeAlts, Compilable, Occurs;
    if Anchored(alts) {
      n := MatchDecides(alts, s, 0);
    } else {
      n := CheckFromEnds(alts, s, 0);
    }
    CheckMeans(n, alts, s);
  }

  // ----- what a bracket expression stands for

  predicate Covers(item: ClassItem, c: byte) {
    match item
    case Single(x) => c == x
    case Upto(lo, hi) => Signed(lo) < Signed(c) <= Signed(hi)
  }

  lemma {:induction false} IntervalHas(lo: int, hi: int, c: byte)
    requires -128 <= lo && hi < 128
    ensures c in Interval(lo, hi) <==> lo <= Signed(c) <= hi
    decreases hi - lo
  {
    if lo <= hi { IntervalHas(lo + 1, hi, c); }
  }

  lemma {:induction false} ItemsHave(items: seq<ClassItem>, c: byte)
    ensures c in ItemsChars(items) <==> exists k :: 0 <= k < |items| && Covers(items[k], c)
  {
    if items != [] {
      if items[0].Upto? { IntervalHas(Signed(items[0].lo) + 1, Signed(items[0].hi), c); }
      assert c in ItemChars(items[0]) <==> Covers(items[0], c);
      ItemsHave(items[1..], c);
      if k :| 0 <= k < |items| && Covers(items[k], c) {
        if k > 0 { assert Covers(items[1..][k - 1], c); }
      }
      if c in ItemsChars(items[1..]) {
        var k :| 0 <= k < |items[1..]| && Covers(items[1..][k], c);
        assert Covers(items[k + 1], c);
      }
    }
  }

  /** A bracket expression that does not mention NUL accepts what one of its items
      covers, a negated one everything else; NUL itself is taken to be in every one. */
  lemma ClassMeaning(negated: bool, items: seq<ClassItem>, c: byte)
    requires forall k :: 0 <= k < |items| ==> !Covers(items[k], NUL)
    ensures ClassHas(negated, items, c) <==>
      (c == NUL || exists k :: 0 <= k < |items| && Covers(items[k], c)) != negated
  {
    ItemsHave(items, NUL);
    ItemsHave(items, c);
    CStrWhole(ItemsChars(items), 0);
  }

  // ----- where the code does not do what a regular expression should

  /** No search starts behind the last character: `$` is not found in "a",
      although the subject's end matches it. */
  lemma EndIsMissed() returns (n: nat)
    ensures var alts := Only(Then(Leaf(Eol), Empty));
      && ParsePattern([DOLLAR]) == Parsed(alts, 1, 0)
      && LangAlts(alts, [LOWER_A], 1, 1)
      && CheckVerdict(n, Program(alts), Anchored(alts), [LOWER_A]) == Mismatch
  {
    hide CheckVerdict, Program;
    var alts, s := Only(Then(Leaf(Eol), Empty)), [LOWER_A];
    EolLang(s, 1, 1);
    ParseDollar();
    forall j: nat ensures !LangAlts(alts, s, 0, j) { EolLang(s, 0, j); }
    SmallProgram(alts);
    n := CheckDecides(alts, s);
  }

  lemma ParseDollar()
    ensures ParsePattern([DOLLAR]) == Parsed(Only(Then(Leaf(Eol), Empty)), 1, 0)
  {
    var s := [DOLLAR];
    assert ParseAtom(s, 0, 0) == Parsed(Leaf(Eol), 1, 0);
    assert ParseBlock(s, 0, 0) == Parsed(Leaf(Eol), 1, 0);
    assert ParseBranch(s, 1, 0) == Parsed(Empty, 1, 0);
    assert ParseBranch(s, 0, 0) == Parsed(Then(Leaf(Eol), Empty), 1, 0);
    assert ParseBranches(s, 0, 0) == Parsed(Only(Then(Leaf(Eol), Empty)), 1, 0);
  }

  lemma EolLang(s: seq<byte>, i: nat, j: nat)
    ensures LangAlts(Only(Then(Leaf(Eol), Empty)), s, i, j) <==> i == |s| && j == i
  {
    var bs := Then(Leaf(Eol), Empty);
    assert LangSeq(bs, s, i, j) <==> exists k: nat :: Lang(Leaf(Eol), s, i, k) && LangSeq(Empty, s, k, j);
    if i == |s| && i == j { assert Lang(Leaf(Eol), s, i, i) && LangSeq(Empty, s, i, j); }
  }

  lemma SmallProgram(alts: Alts)
    requires alts == Only(Then(Leaf(Eol), Empty))
    ensures |Program(alts)| < MAX_NFA_LEN
  {
    assert Len(Leaf(Eol)) == 3 && LenSeq(alts.branch) == 3;
  }

  /** The dot matches the place behind the last character: ".." is found in "x". */
  lemma DotPastEnd() returns (n: nat)
    ensures var alts := Only(Then(Leaf(Any), Then(Leaf(Any), Empty)));
      && ParsePattern([DOT, DOT]) == Parsed(alts, 2, 0)
      && CheckVerdict(n, Program(alts), Anchored(alts), [LOWER_X]) == Returns(Ok)
  {
    hide Program, Enter;
    var dots, s := Then(Leaf(Any), Then(Leaf(Any), Empty)), [LOWER_X];
    assert ParseBlock([DOT, DOT], 1, 0) == Parsed(Leaf(Any), 2, 0);
    assert ParseBlock([DOT, DOT], 0, 0) == Parsed(Leaf(Any), 1, 0);
    assert ParseBranch([DOT, DOT], 1, 0) == Parsed(Then(Leaf(Any), Empty), 2, 0);
    assert ParseBranches([DOT, DOT], 0, 0) == Parsed(Only(dots), 2, 0);
    assert EndsSeq(Then(Leaf(Any), Empty), s, 1) == EndsSeqFrom(Empty, s, 1, One(Reach(2))) == One(Reach(2));
    assert EndsSeq(dots, s, 0) == EndsSeqFrom(Then(Leaf(Any), Empty), s, 0, One(Reach(1))) == One(Reach(2));
    SmallDots(dots);
    n := MatchEnds(Only(dots), s, 0);
    assert CheckFrom(n, Program(Only(dots)), s, 0) == Returns(Ok);
  }

  /** And a literal after it is looked up behind the end: the check of "..a" on "x" is an error
      instead of a mismatch. */
  lemma DotOverruns() returns (n: nat)
    ensures var alts := Only(Then(Leaf(Any), Then(Leaf(Any), Then(Leaf(Literal([LOWER_A])), Empty))));
      && ParsePattern([DOT, DOT, LOWER_A]) == Parsed(alts, 3, 0)
      && CheckVerdict(n, Program(alts), Anchored(alts), [LOWER_X]) == Returns(InvalidRange)
  {
    hide Program, Enter;
    var literal := Then(Leaf(Literal([LOWER_A])), Empty);
    var dots := Then(Leaf(Any), Then(Leaf(Any), literal));
    var s := [LOWER_X];
    ParseDots();
    assert EndsSeq(literal, s, 2) == EndsSeqFrom(Empty, s, 2, One(Overrun)) == One(Overrun);
    assert EndsSeq(Then(Leaf(Any), literal), s, 1) == EndsSeqFrom(literal, s, 1, One(Reach(2))) == One(Overrun);
    assert EndsSeq(dots, s, 0) == EndsSeqFrom(Then(Leaf(Any), literal), s, 0, One(Reach(1))) == One(Overrun);
    SmallDots(dots);
    n := MatchEnds(Only(dots), s, 0);
    assert CheckFrom(n, Program(Only(dots)), s, 0) == Returns(InvalidRange);
  }

  lemma SmallDots(bs: Blocks)
    requires bs.Then? && bs.first == Leaf(Any) && bs.rest.Then? && bs.rest.first == Leaf(Any)
    requires bs.rest.rest == Empty || bs.rest.rest == Then(Leaf(Literal([LOWER_A])), Empty)
    ensures Compilable(Only(bs))
  {
    var a, d, more := Leaf(Literal([LOWER_A])), Leaf(Any), bs.rest.rest;
    assert WellFormed(a) && Len(a) == NODE_SIZE + |Operand(a.sym)| <= 10;
    assert WellFormed(d) && Len(d) == NODE_SIZE + |Operand(d.sym)| <= 10;
    assert WellFormedBlocks(more) && LenSeq(more) <= 10;
    assert WellFormedBlocks(bs.rest) && LenSeq(bs.rest) <= Len(d) + LenSeq(more);
    assert WellFormedBlocks(bs) && LenSeq(bs) == Len(d) + LenSeq(bs.rest);
    assert LenAlts(Only(bs)) == NODE_SIZE + LenSeq(bs);
  }

  lemma ParseDots()
    ensures ParsePattern([DOT, DOT, LOWER_A]) ==
      Parsed(Only(Then(Leaf(Any), Then(Leaf(Any), Then(Leaf(Literal([LOWER_A])), Empty)))), 3, 0)
  {
    var s := [DOT, DOT, LOWER_A];
    var a := Leaf(Literal([LOWER_A]));
    assert Span(s, 3) == 0 && Span(s, 2) == 1 && s[2..3] == [LOWER_A];
    assert ParseAtom(s, 2, 0) == Parsed(a, 3, 0);
    assert ParseBlock(s, 2, 0) == Parsed(a, 3, 0);
    assert ParseBlock(s, 1, 0) == Parsed(Leaf(Any), 2, 0);
    assert ParseBlock(s, 0, 0) == Parsed(Leaf(Any), 1, 0);
    assert ParseBranch(s, 3, 0) == Parsed(Empty, 3, 0);
    assert ParseBranch(s, 2, 0) == Parsed(Then(a, Empty), 3, 0);
    assert ParseBranch(s, 1, 0) == Parsed(Then(Leaf(Any), Then(a, Empty)), 3, 0);
    assert ParseBranches(s, 0, 0) == Parsed(Only(Then(Leaf(Any), Then(Leaf(Any), Then(a, Empty)))), 3, 0);
  }
}
