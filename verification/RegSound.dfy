/** If the interpreter finishes on the program of a tree, its verdict is the one
    the tree's meaning gives. */
module RegSound {
  import opened RegSyntax
  import opened RegProgram
  import opened RegSemantics
  import opened RegLayout

  /** The verdict when every end of a match goes on at node q: the first that
      does not fail, in order. */
  function After(n: nat, nfa: seq<byte>, s: seq<byte>, q: nat, os: Outcomes): Verdict {
    match os
    case Nil => Mismatch
    case Cons(o, t) =>
      if AfterOne(n, nfa, s, q, o) == Mismatch then After(n, nfa, s, q, t) else AfterOne(n, nfa, s, q, o)
  }

  function AfterOne(n: nat, nfa: seq<byte>, s: seq<byte>, q: nat, o: Outcome): Verdict {
    match o
    case Reach(j) => Run(n, nfa, s, q, j)
    case Overrun => Returns(InvalidRange)
    case Spin => Pending
  }

  lemma {:induction false} AfterAppend(n: nat, nfa: seq<byte>, s: seq<byte>, q: nat, a: Outcomes, b: Outcomes)
    ensures After(n, nfa, s, q, Append(a, b)) ==
      if After(n, nfa, s, q, a) == Mismatch then After(n, nfa, s, q, b) else After(n, nfa, s, q, a)
  {
    hide AfterOne;
    if a.Cons? { AfterAppend(n, nfa, s, q, a.tail, b); }
  }

  lemma {:induction false} AfterMonotone(n: nat, m: nat, nfa: seq<byte>, s: seq<byte>, q: nat, os: Outcomes)
    requires n <= m
    ensures After(n, nfa, s, q, os) != Pending ==> After(m, nfa, s, q, os) == After(n, nfa, s, q, os)
  {
    hide Run;
    if os.Cons? {
      if os.head.Reach? { RunMonotone(n, m, nfa, s, q, os.head.idx); }
      AfterMonotone(n, m, nfa, s, q, os.tail);
    }
  }

  /** A `Spin` that is reached leaves the run unfinished. */
  lemma SpinIsPending(n: nat, nfa: seq<byte>, s: seq<byte>, q: nat, a: Outcomes, b: Outcomes, c: Outcomes)
    requires After(n, nfa, s, q, a) == Mismatch && b.Cons? && b.head == Spin
    ensures After(n, nfa, s, q, Append(Append(a, b), c)) == Pending
  {
    AfterAppend(n, nfa, s, q, Append(a, b), c);
    AfterAppend(n, nfa, s, q, a, b);
  }

  // ----- single steps

  /** A branch with another branch after it. */
  lemma BranchStep(n: nat, nfa: seq<byte>, s: seq<byte>, p: nat, p2: nat, p3: nat, i: nat)
    requires START_VALID_POS <= p && START_VALID_POS <= p2
    requires View(nfa, p) == Linked(BRANCH, p2) && View(nfa, p2) == Linked(BRANCH, p3)
    ensures Run(n, nfa, s, p, i) ==
      if n < 2 then Pending
      else if Run(n - 2, nfa, s, p + NODE_SIZE, i) != Mismatch then Run(n - 2, nfa, s, p + NODE_SIZE, i)
      else Run(n - 1, nfa, s, p2, i)
  {
    if n > 0 {
      assert Step(nfa, s, p, i) == TryBranches;
      assert Run(n, nfa, s, p, i) == Try(n - 1, nfa, s, p, p2, i);
    }
  }

  /** A branch with no branch after it. */
  lemma LastBranchStep(n: nat, nfa: seq<byte>, s: seq<byte>, p: nat, q: nat, i: nat)
    requires START_VALID_POS <= p && View(nfa, p) == Linked(BRANCH, q) && Op(nfa, q) != BRANCH
    ensures Run(n, nfa, s, p, i) == if n == 0 then Pending else Run(n - 1, nfa, s, p + NODE_SIZE, i)
  {
  }

  /** Two branches and no third: the operand of the first, then that of the second. */
  lemma TwoBranches(n: nat, nfa: seq<byte>, s: seq<byte>, p: nat, p2: nat, p3: nat, q: nat, i: nat)
    requires START_VALID_POS <= p && START_VALID_POS <= p2
    requires View(nfa, p) == Linked(BRANCH, p2) && View(nfa, p2) == Linked(BRANCH, p3)
    requires View(nfa, p3) == Linked(NOTHING, q)
    ensures Run(n, nfa, s, p, i) ==
      if n < 2 then Pending
      else if Run(n - 2, nfa, s, p + NODE_SIZE, i) != Mismatch then Run(n - 2, nfa, s, p + NODE_SIZE, i)
      else Run(n - 2, nfa, s, p2 + NODE_SIZE, i)
  {
    hide Run, Step;
    BranchStep(n, nfa, s, p, p2, p3, i);
    if n > 0 { LastBranchStep(n - 1, nfa, s, p2, p3, i); }
  }

  /** Nodes that only lead to another node. */
  lemma PassStep(n: nat, nfa: seq<byte>, s: seq<byte>, p: nat, op: byte, q: nat, i: nat)
    requires View(nfa, p) == Linked(op, q) && START_VALID_POS <= q
    requires op == BACK || op == NOTHING || op == PAREN_START || op == PAREN_END
    ensures Run(n, nfa, s, p, i) == if n == 0 then Pending else Run(n - 1, nfa, s, q, i)
  {
  }

  lemma {:induction false} AfterPass(n: nat, nfa: seq<byte>, s: seq<byte>, p: nat, op: byte, q: nat, os: Outcomes)
    requires View(nfa, p) == Linked(op, q) && START_VALID_POS <= q
    requires op == BACK || op == NOTHING || op == PAREN_START || op == PAREN_END
    ensures After(n + 1, nfa, s, p, os) == After(n, nfa, s, q, os)
  {
    hide Run, View;
    if os.Cons? {
      if os.head.Reach? { PassStep(n + 1, nfa, s, p, op, q, os.head.idx); }
      AfterPass(n, nfa, s, p, op, q, os.tail);
    }
  }

  function SymbolAction(os: Outcomes, q: nat): Action {
    match os
    case Cons(Reach(j), _) => Goto(q, j)
    case Cons(Overrun, _) => Done(InvalidRange)
    case _ => Done(RegNotMatch)
  }

  lemma SymbolStep(nfa: seq<byte>, s: seq<byte>, p: nat, sym: Symbol, q: nat, i: nat)
    requires WiredSymbol(nfa, p, sym, q) && START_VALID_POS <= p && i <= |s| + 1
    ensures var os := EndsSymbol(sym, s, i);
      (os.Nil? || (os.tail.Nil? && !os.head.Spin?)) && Step(nfa, s, p, i) == SymbolAction(os, q)
  {
    hide CStr;
  }

  // ----- the simulation

  /** A finished run gives the verdict of the ends, with one step less to go. */
  predicate Agrees(n: nat, nfa: seq<byte>, s: seq<byte>, p: nat, i: nat, q: nat, os: Outcomes) {
    Run(n, nfa, s, p, i) != Pending ==> n > 0 && After(n - 1, nfa, s, q, os) == Run(n, nfa, s, p, i)
  }

  function Less(n: nat, k: nat): nat { if n < k then 0 else n - k }

  lemma LeafSound(n: nat, nfa: seq<byte>, s: seq<byte>, p: nat, sym: Symbol, q: nat, i: nat)
    requires Wired(nfa, p, Leaf(sym), q) && i <= |s| + 1
    ensures Agrees(n, nfa, s, p, i, q, Ends(Leaf(sym), s, i))
  {
    hide Step, EndsSymbol, WiredSymbol;
    SymbolStep(nfa, s, p, sym, q, i);
    var os := EndsSymbol(sym, s, i);
    if n > 0 && os.Cons? { assert After(n - 1, nfa, s, q, os.tail) == Mismatch; }
  }

  lemma {:induction false} Sound(n: nat, nfa: seq<byte>, s: seq<byte>, p: nat, r: Re, q: nat, i: nat)
    requires Wired(nfa, p, r, q) && i <= |s| + 1
    ensures Agrees(n, nfa, s, p, i, q, Ends(r, s, i))
    decreases r, n, 9, Nil
  {
    hide Wired, Run, Ends, After;
    match r {
      case Leaf(sym) => LeafSound(n, nfa, s, p, sym, q, i);
      case Star(_) => StarSound(n, nfa, s, p, r, q, i);
      case Plus(_) => PlusSound(n, nfa, s, p, r, q, i);
      case Opt(_) => OptSound(n, nfa, s, p, r, q, i);
      case Group(_) => GroupSound(n, nfa, s, p, r, q, i);
    }
  }

  lemma StarParts(nfa: seq<byte>, p: nat, r: Re, q: nat)
    requires r.Star? && Wired(nfa, p, r, q)
    ensures var back := p + 3 + Len(r.body);
      && START_VALID_POS <= p && START_VALID_POS <= q && Wired(nfa, p + 3, r.body, back)
      && View(nfa, p) == Linked(BRANCH, back + 3) && View(nfa, back) == Linked(BACK, p)
      && View(nfa, back + 3) == Linked(BRANCH, back + 6) && View(nfa, back + 6) == Linked(NOTHING, q)
  {
    hide View;
  }

  lemma PlusParts(nfa: seq<byte>, p: nat, r: Re, q: nat)
    requires r.Plus? && Wired(nfa, p, r, q)
    ensures var b1 := p + Len(r.body);
      && START_VALID_POS <= p && START_VALID_POS <= q && Wired(nfa, p, r.body, b1)
      && View(nfa, b1) == Linked(BRANCH, b1 + 6) && View(nfa, b1 + 3) == Linked(BACK, p)
      && View(nfa, b1 + 6) == Linked(BRANCH, b1 + 9) && View(nfa, b1 + 9) == Linked(NOTHING, q)
  {
    hide View;
  }

  lemma OptParts(nfa: seq<byte>, p: nat, r: Re, q: nat)
    requires r.Opt? && Wired(nfa, p, r, q)
    ensures var p2 := p + 3 + Len(r.body);
      && START_VALID_POS <= p && START_VALID_POS <= q && Wired(nfa, p + 3, r.body, p2 + 3)
      && View(nfa, p) == Linked(BRANCH, p2) && View(nfa, p2) == Linked(BRANCH, p2 + 3)
      && View(nfa, p2 + 3) == Linked(NOTHING, q)
  {
    hide View;
  }

  lemma {:induction false} StarSound(n: nat, nfa: seq<byte>, s: seq<byte>, p: nat, r: Re, q: nat, i: nat)
    requires r.Star? && Wired(nfa, p, r, q) && i <= |s| + 1
    ensures Agrees(n, nfa, s, p, i, q, Ends(r, s, i))
    decreases r, n, 8, Nil
  {
    hide Run, View, After, EndsStarFrom, Wired;
    StarParts(nfa, p, r, q);
    if Run(n, nfa, s, p, i) != Pending {
      var b := r.body;
      var back := p + 3 + Len(b);
      TwoBranches(n, nfa, s, p, back + 3, back + 6, q, i);
      var os := Ends(b, s, i);
      Sound(n - 2, nfa, s, p + 3, b, back, i);
      StarFromNil(nfa, s, q, r, i);
      StarSoundFrom(n - 3, nfa, s, p, r, q, i, Nil, os);
      AfterMonotone(Less(n - 3, 2), n - 1, nfa, s, q, EndsStarFrom(r, s, i, os));
      AfterAppend(n - 1, nfa, s, q, EndsStarFrom(r, s, i, os), One(Reach(i)));
      AfterReach(n - 1, nfa, s, q, i);
      if Run(n - 2, nfa, s, p + 3, i) == Mismatch {
        PassStep(n - 2, nfa, s, back + 6, NOTHING, q, i);
        RunMonotone(n - 3, n - 1, nfa, s, q, i);
      }
    }
  }

  lemma AfterReach(n: nat, nfa: seq<byte>, s: seq<byte>, q: nat, i: nat)
    ensures After(n, nfa, s, q, One(Reach(i))) == Run(n, nfa, s, q, i)
  {
    hide Run;
  }

  lemma StarFromNil(nfa: seq<byte>, s: seq<byte>, q: nat, r: Re, i: nat)
    requires r.Star? && i <= |s| + 1
    ensures forall k: nat :: After(k, nfa, s, q, EndsStarFrom(r, s, i, Nil)) == Mismatch
  {
  }

  lemma {:induction false} AppendSnoc(a: Outcomes, o: Outcome, t: Outcomes)
    ensures Append(a, Cons(o, t)) == Append(Append(a, One(o)), t)
  {
    if a.Cons? { AppendSnoc(a.tail, o, t); }
  }

  lemma {:induction false} AppendAssoc(a: Outcomes, b: Outcomes, c: Outcomes)
    ensures Append(a, Append(b, c)) == Append(Append(a, b), c)
  {
    if a.Cons? { AppendAssoc(a.tail, b, c); }
  }

  lemma {:induction false} AppendNil(a: Outcomes)
    ensures Append(a, Nil) == a
  {
    if a.Cons? { AppendNil(a.tail); }
  }

  lemma {:induction false} StarFromAppend(r: Re, s: seq<byte>, i: nat, a: Outcomes, b: Outcomes)
    requires r.Star? && i <= |s| + 1 && Within(a, i, |s| + 1) && Within(b, i, |s| + 1)
    ensures Within(Append(a, b), i, |s| + 1)
    ensures EndsStarFrom(r, s, i, Append(a, b)) == Append(EndsStarFrom(r, s, i, a), EndsStarFrom(r, s, i, b))
  {
    hide EndsStarAfter;
    WithinAppend(a, b, i, |s| + 1);
    if a.Cons? {
      StarFromAppend(r, s, i, a.tail, b);
      AppendAssoc(EndsStarAfter(r, s, i, a.head), EndsStarFrom(r, s, i, a.tail), EndsStarFrom(r, s, i, b));
    }
  }

  lemma StarFromOne(r: Re, s: seq<byte>, i: nat, o: Outcome)
    requires r.Star? && i <= |s| + 1 && Within(One(o), i, |s| + 1)
    ensures EndsStarFrom(r, s, i, One(o)) == EndsStarAfter(r, s, i, o)
  {
    hide EndsStarAfter;
    AppendNil(EndsStarAfter(r, s, i, o));
  }

  /** The ends of one iteration, tried at the jump back, against the ends of the
      whole repetition; `done` are the ends already tried without success. */
  lemma {:induction false} StarSoundFrom(
      k: nat, nfa: seq<byte>, s: seq<byte>, p: nat, r: Re, q: nat, i: nat, done: Outcomes, os: Outcomes)
    requires r.Star? && Wired(nfa, p, r, q) && i <= |s| + 1 && Ends(r.body, s, i) == Append(done, os)
    requires Within(done, i, |s| + 1) && Within(os, i, |s| + 1)
    requires After(k, nfa, s, p + 3 + Len(r.body), os) != Pending
    requires After(Less(k, 2), nfa, s, q, EndsStarFrom(r, s, i, done)) == Mismatch
    ensures After(Less(k, 2), nfa, s, q, EndsStarFrom(r, s, i, os)) == After(k, nfa, s, p + 3 + Len(r.body), os)
    decreases r, k, 7, os
  {
    hide Wired, Run, AfterOne, EndsStarAfter, Ends;
    match os {
      case Nil =>
      case Cons(o, t) =>
        StarHeadSound(k, nfa, s, p, r, q, i, done, o, t);
        var head := EndsStarAfter(r, s, i, o);
        AfterAppend(Less(k, 2), nfa, s, q, head, EndsStarFrom(r, s, i, t));
        if AfterOne(k, nfa, s, p + 3 + Len(r.body), o) == Mismatch {
          StarFromOne(r, s, i, o);
          StarFromAppend(r, s, i, done, One(o));
          AfterAppend(Less(k, 2), nfa, s, q, EndsStarFrom(r, s, i, done), head);
          AppendSnoc(done, o, t);
          StarSoundFrom(k, nfa, s, p, r, q, i, Append(done, One(o)), t);
        }
    }
  }

  lemma {:induction false} StarHeadSound(
      k: nat, nfa: seq<byte>, s: seq<byte>, p: nat, r: Re, q: nat, i: nat, done: Outcomes, o: Outcome, t: Outcomes)
    requires r.Star? && Wired(nfa, p, r, q) && i <= |s| + 1 && Ends(r.body, s, i) == Append(done, Cons(o, t))
    requires Within(done, i, |s| + 1) && Within(Cons(o, t), i, |s| + 1)
    requires AfterOne(k, nfa, s, p + 3 + Len(r.body), o) != Pending
    requires After(Less(k, 2), nfa, s, q, EndsStarFrom(r, s, i, done)) == Mismatch
    ensures After(Less(k, 2), nfa, s, q, EndsStarAfter(r, s, i, o)) == AfterOne(k, nfa, s, p + 3 + Len(r.body), o)
    decreases r, k, 0, Nil
  {
    hide Run, View, EndsStarFrom, Wired, Ends, Append;
    StarParts(nfa, p, r, q);
    if o.Reach? {
      PassStep(k, nfa, s, p + 3 + Len(r.body), BACK, p, o.idx);
      Sound(k - 1, nfa, s, p, r, q, o.idx);
      if o.idx == i {
        // this run would itself have tried the iteration that consumes nothing
        StarSpins(k - 2, nfa, s, q, r, i, done, t);
        assert false;
      }
    }
  }

  lemma StarSpins(k: nat, nfa: seq<byte>, s: seq<byte>, q: nat, r: Re, i: nat, done: Outcomes, t: Outcomes)
    requires r.Star? && i <= |s| + 1 && Within(done, i, |s| + 1) && Within(t, i, |s| + 1)
    requires Ends(r.body, s, i) == Append(done, Cons(Reach(i), t))
    requires After(k, nfa, s, q, EndsStarFrom(r, s, i, done)) == Mismatch
    ensures After(k, nfa, s, q, Ends(r, s, i)) == Pending
  {
    hide Run, After;
    StarFromAppend(r, s, i, done, Cons(Reach(i), t));
    SpinIsPending(k, nfa, s, q, EndsStarFrom(r, s, i, done), EndsStarFrom(r, s, i, Cons(Reach(i), t)), One(Reach(i)));
  }

  lemma {:induction false} PlusSound(n: nat, nfa: seq<byte>, s: seq<byte>, p: nat, r: Re, q: nat, i: nat)
    requires r.Plus? && Wired(nfa, p, r, q) && i <= |s| + 1
    ensures Agrees(n, nfa, s, p, i, q, Ends(r, s, i))
    decreases r, n, 8, Nil
  {
    hide Run, View, After, EndsPlusFrom, Wired;
    PlusParts(nfa, p, r, q);
    if Run(n, nfa, s, p, i) != Pending {
      var os := Ends(r.body, s, i);
      Sound(n, nfa, s, p, r.body, p + Len(r.body), i);
      PlusFromNil(nfa, s, q, r, i);
      PlusSoundFrom(n - 1, nfa, s, p, r, q, i, Nil, os);
      AfterMonotone(Less(n - 1, 3), n - 1, nfa, s, q, EndsPlusFrom(r, s, i, os));
    }
  }

  lemma PlusFromNil(nfa: seq<byte>, s: seq<byte>, q: nat, r: Re, i: nat)
    requires r.Plus? && i <= |s| + 1
    ensures forall k: nat :: After(k, nfa, s, q, EndsPlusFrom(r, s, i, Nil)) == Mismatch
  {
  }

  lemma {:induction false} PlusFromAppend(r: Re, s: seq<byte>, i: nat, a: Outcomes, b: Outcomes)
    requires r.Plus? && i <= |s| + 1 && Within(a, i, |s| + 1) && Within(b, i, |s| + 1)
    ensures Within(Append(a, b), i, |s| + 1)
    ensures EndsPlusFrom(r, s, i, Append(a, b)) == Append(EndsPlusFrom(r, s, i, a), EndsPlusFrom(r, s, i, b))
  {
    hide EndsPlusAfter;
    WithinAppend(a, b, i, |s| + 1);
    if a.Cons? {
      PlusFromAppend(r, s, i, a.tail, b);
      AppendAssoc(EndsPlusAfter(r, s, i, a.head), EndsPlusFrom(r, s, i, a.tail), EndsPlusFrom(r, s, i, b));
    }
  }

  lemma PlusFromOne(r: Re, s: seq<byte>, i: nat, o: Outcome)
    requires r.Plus? && i <= |s| + 1 && Within(One(o), i, |s| + 1)
    ensures EndsPlusFrom(r, s, i, One(o)) == EndsPlusAfter(r, s, i, o)
  {
    hide EndsPlusAfter;
    AppendNil(EndsPlusAfter(r, s, i, o));
  }

  lemma {:induction false} PlusSoundFrom(
      k: nat, nfa: seq<byte>, s: seq<byte>, p: nat, r: Re, q: nat, i: nat, done: Outcomes, os: Outcomes)
    requires r.Plus? && Wired(nfa, p, r, q) && i <= |s| + 1 && Ends(r.body, s, i) == Append(done, os)
    requires Within(done, i, |s| + 1) && Within(os, i, |s| + 1)
    requires After(k, nfa, s, p + Len(r.body), os) != Pending
    requires After(Less(k, 3), nfa, s, q, EndsPlusFrom(r, s, i, done)) == Mismatch
    ensures After(Less(k, 3), nfa, s, q, EndsPlusFrom(r, s, i, os)) == After(k, nfa, s, p + Len(r.body), os)
    decreases r, k, 7, os
  {
    hide Wired, Run, AfterOne, EndsPlusAfter, Ends;
    match os {
      case Nil =>
      case Cons(o, t) =>
        PlusHeadSound(k, nfa, s, p, r, q, i, done, o, t);
        var head := EndsPlusAfter(r, s, i, o);
        AfterAppend(Less(k, 3), nfa, s, q, head, EndsPlusFrom(r, s, i, t));
        if AfterOne(k, nfa, s, p + Len(r.body), o) == Mismatch {
          PlusFromOne(r, s, i, o);
          PlusFromAppend(r, s, i, done, One(o));
          AfterAppend(Less(k, 3), nfa, s, q, EndsPlusFrom(r, s, i, done), head);
          AppendSnoc(done, o, t);
          PlusSoundFrom(k, nfa, s, p, r, q, i, Append(done, One(o)), t);
        }
    }
  }

  lemma {:induction false} PlusHeadSound(
      k: nat, nfa: seq<byte>, s: seq<byte>, p: nat, r: Re, q: nat, i: nat, done: Outcomes, o: Outcome, t: Outcomes)
    requires r.Plus? && Wired(nfa, p, r, q) && i <= |s| + 1 && Ends(r.body, s, i) == Append(done, Cons(o, t))
    requires Within(done, i, |s| + 1) && Within(Cons(o, t), i, |s| + 1)
    requires AfterOne(k, nfa, s, p + Len(r.body), o) != Pending
    requires After(Less(k, 3), nfa, s, q, EndsPlusFrom(r, s, i, done)) == Mismatch
    ensures After(Less(k, 3), nfa, s, q, EndsPlusAfter(r, s, i, o)) == AfterOne(k, nfa, s, p + Len(r.body), o)
    decreases r, k, 0, Nil
  {
    hide Run, View, EndsPlusFrom, Wired, Ends, Append;
    PlusParts(nfa, p, r, q);
    if o.Reach? {
      var b1, j := p + Len(r.body), o.idx;
      TwoBranches(k, nfa, s, b1, b1 + 6, b1 + 9, q, j);
      PassStep(k - 2, nfa, s, b1 + 3, BACK, p, j);
      PassStep(k - 2, nfa, s, b1 + 9, NOTHING, q, j);
      Sound(k - 3, nfa, s, p, r, q, j);
      AfterMonotone(k - 4, k - 3, nfa, s, q, Ends(r, s, j));
      if j == i {
        PlusSpins(k - 3, nfa, s, q, r, i, done, t);
        assert false;
      }
      AfterAppend(k - 3, nfa, s, q, Ends(r, s, j), One(Reach(j)));
      AfterReach(k - 3, nfa, s, q, j);
    }
  }

  lemma PlusSpins(k: nat, nfa: seq<byte>, s: seq<byte>, q: nat, r: Re, i: nat, done: Outcomes, t: Outcomes)
    requires r.Plus? && i <= |s| + 1 && Within(done, i, |s| + 1) && Within(t, i, |s| + 1)
    requires Ends(r.body, s, i) == Append(done, Cons(Reach(i), t))
    requires After(k, nfa, s, q, EndsPlusFrom(r, s, i, done)) == Mismatch
    ensures After(k, nfa, s, q, Ends(r, s, i)) == Pending
  {
    hide Run, After;
    var tail := EndsPlusFrom(r, s, i, Cons(Reach(i), t));
    PlusFromAppend(r, s, i, done, Cons(Reach(i), t));
    SpinIsPending(k, nfa, s, q, EndsPlusFrom(r, s, i, done), tail, Nil);
    AppendNil(Append(EndsPlusFrom(r, s, i, done), tail));
  }

  lemma {:induction false} OptSound(n: nat, nfa: seq<byte>, s: seq<byte>, p: nat, r: Re, q: nat, i: nat)
    requires r.Opt? && Wired(nfa, p, r, q) && i <= |s| + 1
    ensures Agrees(n, nfa, s, p, i, q, Ends(r, s, i))
    decreases r, n, 8, Nil
  {
    hide Run, View, After, Wired;
    OptParts(nfa, p, r, q);
    if Run(n, nfa, s, p, i) != Pending {
      var os, p2 := Ends(r.body, s, i), p + 3 + Len(r.body);
      TwoBranches(n, nfa, s, p, p2, p2 + 3, q, i);
      Sound(n - 2, nfa, s, p + 3, r.body, p2 + 3, i);
      AfterMonotone(n - 3, n, nfa, s, p2 + 3, os);
      AfterPass(n - 1, nfa, s, p2 + 3, NOTHING, q, os);
      AfterAppend(n - 1, nfa, s, q, os, One(Reach(i)));
      AfterReach(n - 1, nfa, s, q, i);
      if Run(n - 2, nfa, s, p + 3, i) == Mismatch {
        PassStep(n - 2, nfa, s, p2 + 3, NOTHING, q, i);
        RunMonotone(n - 3, n - 1, nfa, s, q, i);
      }
    }
  }

  lemma {:induction false} GroupSound(n: nat, nfa: seq<byte>, s: seq<byte>, p: nat, r: Re, q: nat, i: nat)
    requires r.Group? && Wired(nfa, p, r, q) && i <= |s| + 1
    ensures Agrees(n, nfa, s, p, i, q, Ends(r, s, i))
    decreases r, n, 8, Nil
  {
    hide Run, View, After, WiredAlts;
    if Run(n, nfa, s, p, i) != Pending {
      var end, os := p + 3 + LenAlts(r.alts), EndsAlts(r.alts, s, i);
      PassStep(n, nfa, s, p, PAREN_START, p + 3, i);
      AltsSound(n - 1, nfa, s, p + 3, r.alts, end, i);
      AfterMonotone(n - 2, n, nfa, s, end, os);
      AfterPass(n - 1, nfa, s, end, PAREN_END, q, os);
    }
  }

  lemma {:induction false} AltsSound(n: nat, nfa: seq<byte>, s: seq<byte>, p: nat, alts: Alts, e: nat, i: nat)
    requires WiredAlts(nfa, p, alts, e) && i <= |s| + 1
    ensures Agrees(n, nfa, s, p, i, e, EndsAlts(alts, s, i))
    decreases alts, n, 8, Nil
  {
    hide Run, View, After, WiredSeq, EndsSeq;
    if Run(n, nfa, s, p, i) != Pending {
      var os := EndsSeq(alts.branch, s, i);
      match alts {
        case Only(bs) =>
          LastBranchStep(n, nfa, s, p, e, i);
          SeqSound(n - 1, nfa, s, p + 3, bs, e, i);
          AfterMonotone(n - 2, n - 1, nfa, s, e, os);
        case Or(bs, others) =>
          var p2 := p + 3 + LenSeq(bs);
          BranchStep(n, nfa, s, p, p2, View(nfa, p2).next, i);
          SeqSound(n - 2, nfa, s, p + 3, bs, e, i);
          AfterMonotone(n - 3, n - 1, nfa, s, e, os);
          AfterAppend(n - 1, nfa, s, e, os, EndsAlts(others, s, i));
          if Run(n - 2, nfa, s, p + 3, i) == Mismatch {
            AltsSound(n - 1, nfa, s, p2, others, e, i);
            AfterMonotone(n - 2, n - 1, nfa, s, e, EndsAlts(others, s, i));
          }
      }
    }
  }

  lemma {:induction false} SeqFromEmpty(s: seq<byte>, i: nat, os: Outcomes)
    requires i <= |s| + 1 && Within(os, i, |s| + 1)
    ensures EndsSeqFrom(Empty, s, i, os) == os
  {
    if os.Cons? { assert EndsSeqAfter(Empty, s, i, os.head) == One(os.head); }
    if os.Cons? { SeqFromEmpty(s, i, os.tail); }
  }

  lemma {:induction false} SeqSound(n: nat, nfa: seq<byte>, s: seq<byte>, p: nat, bs: Blocks, q: nat, i: nat)
    requires WiredSeq(nfa, p, bs, q) && i <= |s| + 1
    ensures Agrees(n, nfa, s, p, i, q, EndsSeq(bs, s, i))
    decreases bs, n, 8, Nil
  {
    hide Run, View, After, EndsSeqFrom, Wired;
    match bs {
      case Empty =>
        PassStep(n, nfa, s, p, NOTHING, q, i);
        if n > 0 { AfterReach(n - 1, nfa, s, q, i); }
      case Then(b, Empty) =>
        Sound(n, nfa, s, p, b, q, i);
        SeqFromEmpty(s, i, Ends(b, s, i));
      case Then(b, rest) =>
        if Run(n, nfa, s, p, i) != Pending {
          var os := Ends(b, s, i);
          Sound(n, nfa, s, p, b, p + Len(b), i);
          SeqSoundFrom(n - 1, nfa, s, p + Len(b), rest, q, i, os);
          AfterMonotone(Less(n - 1, 1), n - 1, nfa, s, q, EndsSeqFrom(rest, s, i, os));
        }
    }
  }

  lemma {:induction false} SeqSoundFrom(
      k: nat, nfa: seq<byte>, s: seq<byte>, p: nat, bs: Blocks, q: nat, i: nat, os: Outcomes)
    requires WiredSeq(nfa, p, bs, q) && i <= |s| + 1 && Within(os, i, |s| + 1)
    requires After(k, nfa, s, p, os) != Pending
    ensures After(Less(k, 1), nfa, s, q, EndsSeqFrom(bs, s, i, os)) == After(k, nfa, s, p, os)
    decreases bs, k, 9, os
  {
    hide WiredSeq, Run, EndsSeq;
    match os {
      case Nil =>
      case Cons(o, t) =>
        AfterAppend(Less(k, 1), nfa, s, q, EndsSeqAfter(bs, s, i, o), EndsSeqFrom(bs, s, i, t));
        if o.Reach? { SeqSound(k, nfa, s, p, bs, q, o.idx); }
        if AfterOne(k, nfa, s, p, o) == Mismatch {
          SeqSoundFrom(k, nfa, s, p, bs, q, i, t);
        }
    }
  }
}
