/** If the meaning of a tree gives a verdict, the interpreter finishes with it. */
module RegComplete {
  import opened RegSyntax
  import opened RegProgram
  import opened RegSemantics
  import opened RegLayout
  import opened RegSound

  function Max(a: nat, b: nat): nat { if a < b then b else a }


  lemma {:induction false} Complete(n: nat, nfa: seq<byte>, s: seq<byte>, p: nat, r: Re, q: nat, i: nat)
    returns (m: nat)
    requires Wired(nfa, p, r, q) && i <= |s| + 1
    requires After(n, nfa, s, q, Ends(r, s, i)) != Pending
    ensures Run(m, nfa, s, p, i) == After(n, nfa, s, q, Ends(r, s, i))
    decreases r, |s| + 1 - i, 9, Nil
  {
    hide Wired, Run, Ends, After;
    match r {
      case Leaf(sym) => m := LeafComplete(n, nfa, s, p, sym, q, i);
      case Star(_) => m := StarComplete(n, nfa, s, p, r, q, i);
      case Plus(_) => m := PlusComplete(n, nfa, s, p, r, q, i);
      case Opt(_) => m := OptComplete(n, nfa, s, p, r, q, i);
      case Group(_) => m := GroupComplete(n, nfa, s, p, r, q, i);
    }
  }

  lemma LeafComplete(n: nat, nfa: seq<byte>, s: seq<byte>, p: nat, sym: Symbol, q: nat, i: nat) returns (m: nat)
    requires Wired(nfa, p, Leaf(sym), q) && i <= |s| + 1
    requires After(n, nfa, s, q, Ends(Leaf(sym), s, i)) != Pending
    ensures Run(m, nfa, s, p, i) == After(n, nfa, s, q, Ends(Leaf(sym), s, i))
  {
    hide Step, EndsSymbol, WiredSymbol;
    m := n + 1;
    SymbolStep(nfa, s, p, sym, q, i);
    var os := EndsSymbol(sym, s, i);
    if os.Cons? { assert After(n, nfa, s, q, os.tail) == Mismatch; }
  }

  lemma {:induction false} StarComplete(n: nat, nfa: seq<byte>, s: seq<byte>, p: nat, r: Re, q: nat, i: nat)
    returns (m: nat)
    requires r.Star? && Wired(nfa, p, r, q) && i <= |s| + 1
    requires After(n, nfa, s, q, Ends(r, s, i)) != Pending
    ensures Run(m, nfa, s, p, i) == After(n, nfa, s, q, Ends(r, s, i))
    decreases r, |s| + 1 - i, 8, Nil
  {
    hide Run, View, After, EndsStarFrom, Wired;
    StarParts(nfa, p, r, q);
    var back := p + 3 + Len(r.body);
    var os := Ends(r.body, s, i);
    AfterAppend(n, nfa, s, q, EndsStarFrom(r, s, i, os), One(Reach(i)));
    AfterReach(n, nfa, s, q, i);
    var k := StarCompleteFrom(n, nfa, s, p, r, q, i, os);
    var m1 := Complete(k, nfa, s, p + 3, r.body, back, i);
    m := Max(m1, n + 1) + 2;
    TwoBranches(m, nfa, s, p, back + 3, back + 6, q, i);
    RunMonotone(m1, m - 2, nfa, s, p + 3, i);
    PassStep(m - 2, nfa, s, back + 6, NOTHING, q, i);
    RunMonotone(n, m - 3, nfa, s, q, i);
  }

  lemma {:induction false} StarCompleteFrom(
      n: nat, nfa: seq<byte>, s: seq<byte>, p: nat, r: Re, q: nat, i: nat, os: Outcomes) returns (k: nat)
    requires r.Star? && Wired(nfa, p, r, q) && i <= |s| + 1 && Within(os, i, |s| + 1)
    requires After(n, nfa, s, q, EndsStarFrom(r, s, i, os)) != Pending
    ensures After(k, nfa, s, p + 3 + Len(r.body), os) == After(n, nfa, s, q, EndsStarFrom(r, s, i, os))
    decreases r, |s| + 1 - i, 7, os
  {
    hide Wired, Run, AfterOne, EndsStarAfter;
    match os {
      case Nil => k := 0;
      case Cons(o, t) =>
        AfterAppend(n, nfa, s, q, EndsStarAfter(r, s, i, o), EndsStarFrom(r, s, i, t));
        var k1 := StarHeadComplete(n, nfa, s, p, r, q, i, o);
        var back := p + 3 + Len(r.body);
        if AfterOne(k1, nfa, s, back, o) == Mismatch {
          var k2 := StarCompleteFrom(n, nfa, s, p, r, q, i, t);
          k := Max(k1, k2);
          AfterMonotone(k2, k, nfa, s, back, t);
          AfterOneMonotone(k1, k, nfa, s, back, o);
        } else {
          k := k1;
        }
    }
  }

  lemma AfterOneMonotone(n: nat, m: nat, nfa: seq<byte>, s: seq<byte>, q: nat, o: Outcome)
    requires n <= m
    ensures AfterOne(n, nfa, s, q, o) != Pending ==> AfterOne(m, nfa, s, q, o) == AfterOne(n, nfa, s, q, o)
  {
    hide Run;
    if o.Reach? { RunMonotone(n, m, nfa, s, q, o.idx); }
  }

  lemma {:induction false} StarHeadComplete(
      n: nat, nfa: seq<byte>, s: seq<byte>, p: nat, r: Re, q: nat, i: nat, o: Outcome) returns (k: nat)
    requires r.Star? && Wired(nfa, p, r, q) && i <= |s| + 1 && Within(One(o), i, |s| + 1)
    requires After(n, nfa, s, q, EndsStarAfter(r, s, i, o)) != Pending
    ensures AfterOne(k, nfa, s, p + 3 + Len(r.body), o) == After(n, nfa, s, q, EndsStarAfter(r, s, i, o))
    decreases r, |s| + 1 - i, 0, Nil
  {
    hide Run, View, Wired, Ends;
    StarParts(nfa, p, r, q);
    k := 0;
    if o.Reach? && o.idx != i {
      var m := Complete(n, nfa, s, p, r, q, o.idx);
      k := m + 1;
      PassStep(k, nfa, s, p + 3 + Len(r.body), BACK, p, o.idx);
    }
  }

  lemma {:induction false} PlusComplete(n: nat, nfa: seq<byte>, s: seq<byte>, p: nat, r: Re, q: nat, i: nat)
    returns (m: nat)
    requires r.Plus? && Wired(nfa, p, r, q) && i <= |s| + 1
    requires After(n, nfa, s, q, Ends(r, s, i)) != Pending
    ensures Run(m, nfa, s, p, i) == After(n, nfa, s, q, Ends(r, s, i))
    decreases r, |s| + 1 - i, 8, Nil
  {
    hide Run, View, After, EndsPlusFrom, Wired;
    PlusParts(nfa, p, r, q);
    var k := PlusCompleteFrom(n, nfa, s, p, r, q, i, Ends(r.body, s, i));
    m := Complete(k, nfa, s, p, r.body, p + Len(r.body), i);
  }

  lemma {:induction false} PlusCompleteFrom(
      n: nat, nfa: seq<byte>, s: seq<byte>, p: nat, r: Re, q: nat, i: nat, os: Outcomes) returns (k: nat)
    requires r.Plus? && Wired(nfa, p, r, q) && i <= |s| + 1 && Within(os, i, |s| + 1)
    requires After(n, nfa, s, q, EndsPlusFrom(r, s, i, os)) != Pending
    ensures After(k, nfa, s, p + Len(r.body), os) == After(n, nfa, s, q, EndsPlusFrom(r, s, i, os))
    decreases r, |s| + 1 - i, 7, os
  {
    hide Wired, Run, AfterOne, EndsPlusAfter;
    match os {
      case Nil => k := 0;
      case Cons(o, t) =>
        AfterAppend(n, nfa, s, q, EndsPlusAfter(r, s, i, o), EndsPlusFrom(r, s, i, t));
        var k1 := PlusHeadComplete(n, nfa, s, p, r, q, i, o);
        var b1 := p + Len(r.body);
        if AfterOne(k1, nfa, s, b1, o) == Mismatch {
          var k2 := PlusCompleteFrom(n, nfa, s, p, r, q, i, t);
          k := Max(k1, k2);
          AfterMonotone(k2, k, nfa, s, b1, t);
          AfterOneMonotone(k1, k, nfa, s, b1, o);
        } else {
          k := k1;
        }
    }
  }

  lemma {:induction false} PlusHeadComplete(
      n: nat, nfa: seq<byte>, s: seq<byte>, p: nat, r: Re, q: nat, i: nat, o: Outcome) returns (k: nat)
    requires r.Plus? && Wired(nfa, p, r, q) && i <= |s| + 1 && Within(One(o), i, |s| + 1)
    requires After(n, nfa, s, q, EndsPlusAfter(r, s, i, o)) != Pending
    ensures AfterOne(k, nfa, s, p + Len(r.body), o) == After(n, nfa, s, q, EndsPlusAfter(r, s, i, o))
    decreases r, |s| + 1 - i, 0, Nil
  {
    hide Run, View, Wired, Ends;
    PlusParts(nfa, p, r, q);
    k := 0;
    if o.Reach? && o.idx != i {
      var b1, j := p + Len(r.body), o.idx;
      AfterAppend(n, nfa, s, q, Ends(r, s, j), One(Reach(j)));
      AfterReach(n, nfa, s, q, j);
      var m := Complete(n, nfa, s, p, r, q, j);
      k := Max(m, n) + 3;
      TwoBranches(k, nfa, s, b1, b1 + 6, b1 + 9, q, j);
      PassStep(k - 2, nfa, s, b1 + 3, BACK, p, j);
      PassStep(k - 2, nfa, s, b1 + 9, NOTHING, q, j);
      RunMonotone(m, k - 3, nfa, s, p, j);
      RunMonotone(n, k - 3, nfa, s, q, j);
    }
  }

  lemma {:induction false} OptComplete(n: nat, nfa: seq<byte>, s: seq<byte>, p: nat, r: Re, q: nat, i: nat)
    returns (m: nat)
    requires r.Opt? && Wired(nfa, p, r, q) && i <= |s| + 1
    requires After(n, nfa, s, q, Ends(r, s, i)) != Pending
    ensures Run(m, nfa, s, p, i) == After(n, nfa, s, q, Ends(r, s, i))
    decreases r, |s| + 1 - i, 8, Nil
  {
    hide Run, View, After, Wired;
    OptParts(nfa, p, r, q);
    var os, p2 := Ends(r.body, s, i), p + 3 + Len(r.body);
    AfterAppend(n, nfa, s, q, os, One(Reach(i)));
    AfterReach(n, nfa, s, q, i);
    AfterPass(n, nfa, s, p2 + 3, NOTHING, q, os);
    var m1 := Complete(n + 1, nfa, s, p + 3, r.body, p2 + 3, i);
    m := Max(m1, n + 1) + 2;
    TwoBranches(m, nfa, s, p, p2, p2 + 3, q, i);
    RunMonotone(m1, m - 2, nfa, s, p + 3, i);
    PassStep(m - 2, nfa, s, p2 + 3, NOTHING, q, i);
    RunMonotone(n, m - 3, nfa, s, q, i);
  }

  lemma {:induction false} GroupComplete(n: nat, nfa: seq<byte>, s: seq<byte>, p: nat, r: Re, q: nat, i: nat)
    returns (m: nat)
    requires r.Group? && Wired(nfa, p, r, q) && i <= |s| + 1
    requires After(n, nfa, s, q, Ends(r, s, i)) != Pending
    ensures Run(m, nfa, s, p, i) == After(n, nfa, s, q, Ends(r, s, i))
    decreases r, |s| + 1 - i, 8, Nil
  {
    hide Run, View, After, WiredAlts;
    var end, os := p + 3 + LenAlts(r.alts), EndsAlts(r.alts, s, i);
    AfterPass(n, nfa, s, end, PAREN_END, q, os);
    var m1 := AltsComplete(n + 1, nfa, s, p + 3, r.alts, end, i);
    m := m1 + 1;
    PassStep(m, nfa, s, p, PAREN_START, p + 3, i);
  }

  lemma {:induction false} AltsComplete(n: nat, nfa: seq<byte>, s: seq<byte>, p: nat, alts: Alts, e: nat, i: nat)
    returns (m: nat)
    requires WiredAlts(nfa, p, alts, e) && i <= |s| + 1
    requires After(n, nfa, s, e, EndsAlts(alts, s, i)) != Pending
    ensures Run(m, nfa, s, p, i) == After(n, nfa, s, e, EndsAlts(alts, s, i))
    decreases alts, 0, 8, Nil
  {
    hide Run, View, After, WiredSeq, EndsSeq;
    match alts {
      case Only(bs) =>
        var m1 := SeqComplete(n, nfa, s, p + 3, bs, e, i);
        m := m1 + 1;
        LastBranchStep(m, nfa, s, p, e, i);
      case Or(bs, others) =>
        var p2 := p + 3 + LenSeq(bs);
        AfterAppend(n, nfa, s, e, EndsSeq(bs, s, i), EndsAlts(others, s, i));
        var m1 := SeqComplete(n, nfa, s, p + 3, bs, e, i);
        var m2 := 0;
        if Run(m1, nfa, s, p + 3, i) == Mismatch {
          m2 := AltsComplete(n, nfa, s, p2, others, e, i);
        }
        m := Max(m1, m2) + 2;
        BranchStep(m, nfa, s, p, p2, View(nfa, p2).next, i);
        RunMonotone(m1, m - 2, nfa, s, p + 3, i);
        RunMonotone(m2, m - 1, nfa, s, p2, i);
    }
  }

  lemma {:induction false} SeqComplete(n: nat, nfa: seq<byte>, s: seq<byte>, p: nat, bs: Blocks, q: nat, i: nat)
    returns (m: nat)
    requires WiredSeq(nfa, p, bs, q) && i <= |s| + 1
    requires After(n, nfa, s, q, EndsSeq(bs, s, i)) != Pending
    ensures Run(m, nfa, s, p, i) == After(n, nfa, s, q, EndsSeq(bs, s, i))
    decreases bs, 0, 8, Nil
  {
    hide Run, View, After, EndsSeqFrom, Wired;
    match bs {
      case Empty =>
        m := n + 1;
        AfterReach(n, nfa, s, q, i);
        PassStep(m, nfa, s, p, NOTHING, q, i);
      case Then(b, Empty) =>
        SeqFromEmpty(s, i, Ends(b, s, i));
        m := Complete(n, nfa, s, p, b, q, i);
      case Then(b, rest) =>
        var k := SeqCompleteFrom(n, nfa, s, p + Len(b), rest, q, i, Ends(b, s, i));
        m := Complete(k, nfa, s, p, b, p + Len(b), i);
    }
  }

  lemma {:induction false} SeqCompleteFrom(
      n: nat, nfa: seq<byte>, s: seq<byte>, p: nat, bs: Blocks, q: nat, i: nat, os: Outcomes) returns (k: nat)
    requires WiredSeq(nfa, p, bs, q) && i <= |s| + 1 && Within(os, i, |s| + 1)
    requires After(n, nfa, s, q, EndsSeqFrom(bs, s, i, os)) != Pending
    ensures After(k, nfa, s, p, os) == After(n, nfa, s, q, EndsSeqFrom(bs, s, i, os))
    decreases bs, 1, 9, os
  {
    hide WiredSeq, Run, EndsSeq;
    match os {
      case Nil => k := 0;
      case Cons(o, t) =>
        AfterAppend(n, nfa, s, q, EndsSeqAfter(bs, s, i, o), EndsSeqFrom(bs, s, i, t));
        var k1 := 0;
        if o.Reach? { k1 := SeqComplete(n, nfa, s, p, bs, q, o.idx); }
        if AfterOne(k1, nfa, s, p, o) == Mismatch {
          var k2 := SeqCompleteFrom(n, nfa, s, p, bs, q, i, t);
          k := Max(k1, k2);
          AfterMonotone(k2, k, nfa, s, p, t);
          AfterOneMonotone(k1, k, nfa, s, p, o);
        } else {
          k := k1;
        }
    }
  }
}
