/** Where the parts of a tree's program stand, and how its nodes are linked. */
module RegLayout {
  import opened RegSyntax
  import opened RegProgram
  import opened RegSemantics

  datatype NodeView = Linked(op: byte, next: nat) | Unlinked

  /** The node at p as the interpreter sees it. */
  function View(nfa: seq<byte>, p: nat): (v: NodeView)
    ensures v.Linked? ==> p + NODE_SIZE <= |nfa| && v.op == Op(nfa, p) && v.next < |nfa|
  {
    match GetNextNodePos(nfa, p)
    case To(q) => Linked(Op(nfa, p), q)
    case Fail(_) => Unlinked
  }

  /** The tail that `*` and `+` have in common: a jump back to `back`, then the
      branch that leaves the loop for q. */
  predicate LoopTail(nfa: seq<byte>, p: nat, back: nat, q: nat) {
    && View(nfa, p) == Linked(BACK, back)
    && View(nfa, p + 3) == Linked(BRANCH, p + 6)
    && View(nfa, p + 6) == Linked(NOTHING, q)
  }

  predicate WiredSymbol(nfa: seq<byte>, p: nat, sym: Symbol, q: nat) {
    && View(nfa, p) == Linked(OpOf(sym), q)
    && match sym
       case Class(_, items) => CStr(nfa, p + NODE_SIZE) == CStr(ItemsChars(items), 0)
       case Escaped(c) => CStr(nfa, p + NODE_SIZE) == [c]
       case Literal(t) => CStr(nfa, p + NODE_SIZE) == t
       case _ => true
  }

  /** The nodes of r stand from p on, and all its exits lead to node q. */
  predicate Wired(nfa: seq<byte>, p: nat, r: Re, q: nat)
    decreases r, 0
  {
    && START_VALID_POS <= p
    && START_VALID_POS <= q
    && match r
       case Leaf(sym) => WiredSymbol(nfa, p, sym, q)
       case Star(b) =>
         var l := Len(b);
         View(nfa, p) == Linked(BRANCH, p + 6 + l) && Wired(nfa, p + 3, b, p + 3 + l) &&
         LoopTail(nfa, p + 3 + l, p, q)
       case Plus(b) =>
         var l := Len(b);
         Wired(nfa, p, b, p + l) && View(nfa, p + l) == Linked(BRANCH, p + l + 6) &&
         LoopTail(nfa, p + l + 3, p, q)
       case Opt(b) =>
         var l := Len(b);
         View(nfa, p) == Linked(BRANCH, p + 3 + l) && Wired(nfa, p + 3, b, p + 6 + l) &&
         View(nfa, p + 3 + l) == Linked(BRANCH, p + 6 + l) && View(nfa, p + 6 + l) == Linked(NOTHING, q)
       case Group(alts) =>
         var e := p + 3 + LenAlts(alts);
         View(nfa, p) == Linked(PAREN_START, p + 3) && WiredAlts(nfa, p + 3, alts, e) &&
         View(nfa, e) == Linked(PAREN_END, q)
  }

  /** The blocks of a branch, each leading to the next and the last to q. */
  predicate WiredSeq(nfa: seq<byte>, p: nat, bs: Blocks, q: nat)
    decreases bs, 1
  {
    && START_VALID_POS <= p
    && START_VALID_POS <= q
    && match bs
       case Empty => View(nfa, p) == Linked(NOTHING, q)
       case Then(b, Empty) => Wired(nfa, p, b, q)
       case Then(b, rest) => Wired(nfa, p, b, p + Len(b)) && WiredSeq(nfa, p + Len(b), rest, q)
  }

  /** A chain of branches that all lead to node e, which follows them. */
  predicate WiredAlts(nfa: seq<byte>, p: nat, alts: Alts, e: nat)
    decreases alts, 1
  {
    && START_VALID_POS <= p
    && match alts
       case Only(bs) =>
         e == p + 3 + LenSeq(bs) < |nfa| && Op(nfa, e) != BRANCH &&
         View(nfa, p) == Linked(BRANCH, e) && WiredSeq(nfa, p + 3, bs, e)
       case Or(bs, others) =>
         View(nfa, p) == Linked(BRANCH, p + 3 + LenSeq(bs)) && WiredSeq(nfa, p + 3, bs, e) &&
         WiredAlts(nfa, p + 3 + LenSeq(bs), others, e)
  }

  // ----- code that stands in a program is wired

  lemma {:induction false} CStrAt(nfa: seq<byte>, p: nat, t: seq<byte>)
    requires At(nfa, p, t + [NUL])
    ensures p <= |nfa| && CStr(nfa, p) == CStr(t, 0)
  {
    CStrShift(nfa, p, t, 0);
  }

  lemma {:induction false} CStrShift(nfa: seq<byte>, p: nat, t: seq<byte>, k: nat)
    requires At(nfa, p, t + [NUL]) && k <= |t|
    ensures CStr(nfa, p + k) == CStr(t, k)
    decreases |t| - k
  {
    assert nfa[p + k] == (t + [NUL])[k];
    if k < |t| { CStrShift(nfa, p, t, k + 1); }
  }

  lemma {:induction false} CStrWhole(t: seq<byte>, k: nat)
    requires k <= |t| && NUL !in t
    ensures CStr(t, k) == t[k..]
    decreases |t| - k
  {
    if k < |t| { CStrWhole(t, k + 1); }
  }

  lemma LoopTailAt(nfa: seq<byte>, p: nat, dist: nat, d: nat)
    requires At(nfa, p, LoopTailCode(dist, d))
    requires 0 < dist <= p && 0 < d && p + 6 + d < |nfa| <= MAX_NFA_LEN
    ensures LoopTail(nfa, p, p - dist, p + 6 + d)
  {
    AtNodeThen(nfa, p, BACK, dist, Node(BRANCH, 3) + Node(NOTHING, d));
    AtNodeThen(nfa, p + 3, BRANCH, 3, Node(NOTHING, d));
    AtNode(nfa, p + 6, NOTHING, d);
  }

  lemma BranchAt(nfa: seq<byte>, p: nat, d: nat, rest: seq<byte>)
    requires At(nfa, p, Node(BRANCH, d) + rest) && 0 < d && p + d < |nfa| <= MAX_NFA_LEN
    ensures View(nfa, p) == Linked(BRANCH, p + d) && At(nfa, p + 3, rest)
  {
    AtNodeThen(nfa, p, BRANCH, d, rest);
  }

  lemma StarCodeAt(nfa: seq<byte>, p: nat, body: seq<byte>, d: nat)
    requires At(nfa, p, StarCode(body, d)) && 0 < d && p + |body| + 9 + d < |nfa| <= MAX_NFA_LEN
    ensures At(nfa, p + 3, body) && View(nfa, p) == Linked(BRANCH, p + 6 + |body|)
    ensures LoopTail(nfa, p + 3 + |body|, p, p + |body| + 9 + d)
  {
    hide View;
    BranchAt(nfa, p, |body| + 6, body + LoopTailCode(|body| + 3, d));
    AtSplit(nfa, p + 3, body, LoopTailCode(|body| + 3, d));
    LoopTailAt(nfa, p + 3 + |body|, |body| + 3, d);
  }

  lemma PlusCodeAt(nfa: seq<byte>, p: nat, body: seq<byte>, d: nat)
    requires At(nfa, p, PlusCode(body, d)) && 0 < d && p + |body| + 9 + d < |nfa| <= MAX_NFA_LEN
    ensures At(nfa, p, body) && View(nfa, p + |body|) == Linked(BRANCH, p + |body| + 6)
    ensures LoopTail(nfa, p + |body| + 3, p, p + |body| + 9 + d)
  {
    var tail := LoopTailCode(|body| + 3, d);
    hide View;
    AtSplit(nfa, p, body, Node(BRANCH, 6) + tail);
    BranchAt(nfa, p + |body|, 6, tail);
    LoopTailAt(nfa, p + |body| + 3, |body| + 3, d);
  }

  lemma OptCodeAt(nfa: seq<byte>, p: nat, body: seq<byte>, d: nat)
    requires At(nfa, p, OptCode(body, d)) && 0 < d && p + |body| + 6 + d < |nfa| <= MAX_NFA_LEN
    ensures At(nfa, p + 3, body)
    ensures View(nfa, p) == Linked(BRANCH, p + 3 + |body|)
    ensures View(nfa, p + 3 + |body|) == Linked(BRANCH, p + 6 + |body|)
    ensures View(nfa, p + 6 + |body|) == Linked(NOTHING, p + |body| + 6 + d)
  {
    var tail := Node(BRANCH, 3) + Node(NOTHING, d);
    BranchAt(nfa, p, |body| + 3, body + tail);
    AtSplit(nfa, p + 3, body, tail);
    BranchAt(nfa, p + 3 + |body|, 3, Node(NOTHING, d));
    AtNode(nfa, p + 6 + |body|, NOTHING, d);
  }

  lemma GroupCodeAt(nfa: seq<byte>, p: nat, body: seq<byte>, d: nat)
    requires At(nfa, p, GroupCode(body, d)) && 0 < d && p + |body| + 3 + d < |nfa| <= MAX_NFA_LEN
    ensures At(nfa, p + 3, body) && View(nfa, p) == Linked(PAREN_START, p + 3)
    ensures View(nfa, p + 3 + |body|) == Linked(PAREN_END, p + |body| + 3 + d)
  {
    AtNodeThen(nfa, p, PAREN_START, 3, body + Node(PAREN_END, d));
    AtSplit(nfa, p + 3, body, Node(PAREN_END, d));
    AtNode(nfa, p + 3 + |body|, PAREN_END, d);
  }

  lemma LeafAt(nfa: seq<byte>, p: nat, sym: Symbol, d: nat)
    requires WellFormedSymbol(sym) && At(nfa, p, LeafCode(sym, d)) && 0 < d <= 0xffff && p + d < |nfa|
    ensures WiredSymbol(nfa, p, sym, p + d)
  {
    AtNodeThen(nfa, p, OpOf(sym), d, Operand(sym));
    match sym {
      case Class(negated, items) => CStrAt(nfa, p + NODE_SIZE, ItemsChars(items));
      case Escaped(c) =>
        assert Operand(sym) == [c] + [NUL];
        CStrAt(nfa, p + NODE_SIZE, [c]);
        CStrWhole([c], 0);
      case Literal(t) =>
        CStrAt(nfa, p + NODE_SIZE, t);
        CStrWhole(t, 0);
      case _ =>
    }
  }

  function Exit(p: nat, r: Re, d: nat): nat { p + (Len(r) - Gap(r)) + d }

  /** One step of the code of a tree. */
  lemma GenOf(b: Re, alts: Alts, d: nat)
    ensures Gen(Star(b), d) == StarCode(Gen(b, Gap(b)), d)
    ensures Gen(Plus(b), d) == PlusCode(Gen(b, Gap(b)), d)
    ensures Gen(Opt(b), d) == OptCode(Gen(b, Gap(b) + 3), d)
    ensures Gen(Group(alts), d) == GroupCode(GenAlts(alts, 0), d)
  {
    hide StarCode, PlusCode, OptCode, GroupCode, GenAlts, Gap;
  }

  lemma StarAt(nfa: seq<byte>, p: nat, b: Re, d: nat)
    requires At(nfa, p, Gen(Star(b), d)) && 0 < d && p + Len(b) + 9 + d < |nfa| <= MAX_NFA_LEN
    ensures var l := Len(b);
      && At(nfa, p + 3, Gen(b, Gap(b))) && View(nfa, p) == Linked(BRANCH, p + 6 + l)
      && LoopTail(nfa, p + 3 + l, p, p + l + 9 + d)
  {
    hide At, View, LoopTail, StarCode, Gen;
    GenOf(b, Only(Empty), d);
    StarCodeAt(nfa, p, Gen(b, Gap(b)), d);
  }

  lemma PlusAt(nfa: seq<byte>, p: nat, b: Re, d: nat)
    requires At(nfa, p, Gen(Plus(b), d)) && 0 < d && p + Len(b) + 9 + d < |nfa| <= MAX_NFA_LEN
    ensures var l := Len(b);
      && At(nfa, p, Gen(b, Gap(b))) && View(nfa, p + l) == Linked(BRANCH, p + l + 6)
      && LoopTail(nfa, p + l + 3, p, p + l + 9 + d)
  {
    hide At, View, LoopTail, PlusCode, Gen;
    GenOf(b, Only(Empty), d);
    PlusCodeAt(nfa, p, Gen(b, Gap(b)), d);
  }

  lemma OptAt(nfa: seq<byte>, p: nat, b: Re, d: nat)
    requires At(nfa, p, Gen(Opt(b), d)) && 0 < d && p + Len(b) + 6 + d < |nfa| <= MAX_NFA_LEN
    ensures var l := Len(b);
      && At(nfa, p + 3, Gen(b, Gap(b) + 3)) && View(nfa, p) == Linked(BRANCH, p + 3 + l)
      && View(nfa, p + 3 + l) == Linked(BRANCH, p + 6 + l) && View(nfa, p + 6 + l) == Linked(NOTHING, p + l + 6 + d)
  {
    hide At, View, OptCode, Gen;
    GenOf(b, Only(Empty), d);
    OptCodeAt(nfa, p, Gen(b, Gap(b) + 3), d);
  }

  lemma GroupAt(nfa: seq<byte>, p: nat, alts: Alts, d: nat)
    requires At(nfa, p, Gen(Group(alts), d)) && 0 < d && p + LenAlts(alts) + 3 + d < |nfa| <= MAX_NFA_LEN
    ensures var e := p + 3 + LenAlts(alts);
      && At(nfa, p + 3, GenAlts(alts, 0)) && View(nfa, p) == Linked(PAREN_START, p + 3)
      && View(nfa, e) == Linked(PAREN_END, e + d)
  {
    hide At, View, GroupCode, Gen, GenAlts;
    GenOf(Leaf(Bol), alts, d);
    GroupCodeAt(nfa, p, GenAlts(alts, 0), d);
  }

  lemma WiredStar(nfa: seq<byte>, p: nat, b: Re, q: nat)
    requires START_VALID_POS <= p && START_VALID_POS <= q && Wired(nfa, p + 3, b, p + 3 + Len(b))
    requires View(nfa, p) == Linked(BRANCH, p + 6 + Len(b)) && LoopTail(nfa, p + 3 + Len(b), p, q)
    ensures Wired(nfa, p, Star(b), q)
  {
    hide View, LoopTail, Len, WiredSymbol, WiredAlts;
  }

  lemma WiredPlus(nfa: seq<byte>, p: nat, b: Re, q: nat)
    requires START_VALID_POS <= p && START_VALID_POS <= q && Wired(nfa, p, b, p + Len(b))
    requires View(nfa, p + Len(b)) == Linked(BRANCH, p + Len(b) + 6) && LoopTail(nfa, p + Len(b) + 3, p, q)
    ensures Wired(nfa, p, Plus(b), q)
  {
    hide View, LoopTail, Len, WiredSymbol, WiredAlts;
  }

  lemma WiredOpt(nfa: seq<byte>, p: nat, b: Re, q: nat)
    requires START_VALID_POS <= p && START_VALID_POS <= q && Wired(nfa, p + 3, b, p + 6 + Len(b))
    requires View(nfa, p) == Linked(BRANCH, p + 3 + Len(b))
    requires View(nfa, p + 3 + Len(b)) == Linked(BRANCH, p + 6 + Len(b))
    requires View(nfa, p + 6 + Len(b)) == Linked(NOTHING, q)
    ensures Wired(nfa, p, Opt(b), q)
  {
    hide View, LoopTail, Len, WiredSymbol, WiredAlts;
  }

  lemma {:induction false} GenIsWired(nfa: seq<byte>, p: nat, r: Re, d: nat)
    requires WellFormed(r) && At(nfa, p, Gen(r, d)) && START_VALID_POS <= p
    requires 0 < d && Exit(p, r, d) < |nfa| <= MAX_NFA_LEN
    ensures Wired(nfa, p, r, Exit(p, r, d))
    decreases r, 1
  {
    match r {
      case Star(b) => StarIsWired(nfa, p, b, d);
      case Plus(b) => PlusIsWired(nfa, p, b, d);
      case Opt(b) => OptIsWired(nfa, p, b, d);
      case Group(alts) => GroupIsWired(nfa, p, alts, d);
      case Leaf(sym) => LeafIsWired(nfa, p, sym, d);
    }
  }

  lemma LeafIsWired(nfa: seq<byte>, p: nat, sym: Symbol, d: nat)
    requires WellFormedSymbol(sym) && At(nfa, p, Gen(Leaf(sym), d)) && START_VALID_POS <= p
    requires 0 < d && Exit(p, Leaf(sym), d) < |nfa| <= MAX_NFA_LEN
    ensures Wired(nfa, p, Leaf(sym), Exit(p, Leaf(sym), d))
  {
    hide At, WiredSymbol, LeafCode;
    LeafAt(nfa, p, sym, d);
  }

  lemma {:induction false} GroupIsWired(nfa: seq<byte>, p: nat, alts: Alts, d: nat)
    requires WellFormed(Group(alts)) && At(nfa, p, Gen(Group(alts), d)) && START_VALID_POS <= p
    requires 0 < d && Exit(p, Group(alts), d) < |nfa| <= MAX_NFA_LEN
    ensures Wired(nfa, p, Group(alts), Exit(p, Group(alts), d))
    decreases Group(alts), 0
  {
    hide View, At, Gen, WiredAlts, GenAlts;
    GroupAt(nfa, p, alts, d);
    GenAltsIsWired(nfa, p + 3, alts);
  }

  lemma {:induction false} StarIsWired(nfa: seq<byte>, p: nat, b: Re, d: nat)
    requires WellFormed(b) && At(nfa, p, Gen(Star(b), d)) && START_VALID_POS <= p
    requires 0 < d && Exit(p, Star(b), d) < |nfa| <= MAX_NFA_LEN
    ensures Wired(nfa, p, Star(b), Exit(p, Star(b), d))
    decreases Star(b), 0
  {
    hide View, At, LoopTail, Gen, Wired;
    StarAt(nfa, p, b, d);
    GenIsWired(nfa, p + 3, b, Gap(b));
    WiredStar(nfa, p, b, Exit(p, Star(b), d));
  }

  lemma {:induction false} PlusIsWired(nfa: seq<byte>, p: nat, b: Re, d: nat)
    requires WellFormed(b) && At(nfa, p, Gen(Plus(b), d)) && START_VALID_POS <= p
    requires 0 < d && Exit(p, Plus(b), d) < |nfa| <= MAX_NFA_LEN
    ensures Wired(nfa, p, Plus(b), Exit(p, Plus(b), d))
    decreases Plus(b), 0
  {
    hide View, At, LoopTail, Gen, Wired;
    PlusAt(nfa, p, b, d);
    GenIsWired(nfa, p, b, Gap(b));
    WiredPlus(nfa, p, b, Exit(p, Plus(b), d));
  }

  lemma {:induction false} OptIsWired(nfa: seq<byte>, p: nat, b: Re, d: nat)
    requires WellFormed(b) && At(nfa, p, Gen(Opt(b), d)) && START_VALID_POS <= p
    requires 0 < d && Exit(p, Opt(b), d) < |nfa| <= MAX_NFA_LEN
    ensures Wired(nfa, p, Opt(b), Exit(p, Opt(b), d))
    decreases Opt(b), 0
  {
    hide View, At, LoopTail, Gen, Wired;
    OptAt(nfa, p, b, d);
    GenIsWired(nfa, p + 3, b, Gap(b) + 3);
    WiredOpt(nfa, p, b, Exit(p, Opt(b), d));
  }

  function SeqExit(p: nat, bs: Blocks, d: nat): nat { p + (LenSeq(bs) - GapSeq(bs)) + d }

  lemma {:induction false} GenSeqIsWired(nfa: seq<byte>, p: nat, bs: Blocks, d: nat)
    requires WellFormedBlocks(bs) && At(nfa, p, GenSeq(bs, d)) && START_VALID_POS <= p
    requires 0 < d && SeqExit(p, bs, d) < |nfa| <= MAX_NFA_LEN
    ensures WiredSeq(nfa, p, bs, SeqExit(p, bs, d))
    decreases bs, 2
  {
    match bs {
      case Empty => AtNode(nfa, p, NOTHING, d);
      case Then(b, Empty) => GenIsWired(nfa, p, b, d);
      case Then(b, rest) => ConsIsWired(nfa, p, b, rest, d);
    }
  }

  lemma GenCons(b: Re, rest: Blocks, d: nat)
    requires rest.Then?
    ensures GenSeq(Then(b, rest), d) == Gen(b, Gap(b)) + GenSeq(rest, d)
  {
    hide Gen, Gap;
  }

  lemma AtInside(nfa: seq<byte>, p: nat, code: seq<byte>)
    requires At(nfa, p, code)
    ensures p + |code| <= |nfa|
  {
  }

  lemma ConsAt(nfa: seq<byte>, p: nat, b: Re, rest: Blocks, d: nat)
    requires rest.Then? && At(nfa, p, GenSeq(Then(b, rest), d))
    ensures At(nfa, p, Gen(b, Gap(b))) && At(nfa, p + Len(b), GenSeq(rest, d))
    ensures p + Len(b) + LenSeq(rest) <= |nfa|
  {
    hide Gap, Gen, GenSeq, At;
    GenCons(b, rest, d);
    AtSplit(nfa, p, Gen(b, Gap(b)), GenSeq(rest, d));
    AtInside(nfa, p + Len(b), GenSeq(rest, d));
  }

  lemma {:induction false} ConsIsWired(nfa: seq<byte>, p: nat, b: Re, rest: Blocks, d: nat)
    requires rest.Then? && WellFormedBlocks(Then(b, rest)) && At(nfa, p, GenSeq(Then(b, rest), d))
    requires START_VALID_POS <= p && 0 < d && SeqExit(p, Then(b, rest), d) < |nfa| <= MAX_NFA_LEN
    ensures WiredSeq(nfa, p, Then(b, rest), SeqExit(p, Then(b, rest), d))
    decreases Then(b, rest), 1
  {
    hide View, At, Wired, Gen, GenSeq, Gap;
    ConsAt(nfa, p, b, rest, d);
    GenIsWired(nfa, p, b, Gap(b));
    GenSeqIsWired(nfa, p + Len(b), rest, d);
  }

  lemma BranchCodeAt(nfa: seq<byte>, p: nat, body: seq<byte>, rest: seq<byte>)
    requires At(nfa, p, BranchCode(body) + rest) && p + 3 + |body| < |nfa| <= MAX_NFA_LEN
    ensures View(nfa, p) == Linked(BRANCH, p + 3 + |body|)
    ensures At(nfa, p + 3, body) && At(nfa, p + 3 + |body|, rest)
  {
    AtSplit(nfa, p, BranchCode(body), rest);
    BranchAt(nfa, p, 3 + |body|, body);
  }

  lemma OnlyAt(nfa: seq<byte>, p: nat, bs: Blocks)
    requires At(nfa, p, GenAlts(Only(bs), 0)) && p + LenAlts(Only(bs)) < |nfa| <= MAX_NFA_LEN
    ensures View(nfa, p) == Linked(BRANCH, p + 3 + LenSeq(bs)) && At(nfa, p + 3, GenSeq(bs, GapSeq(bs)))
  {
    hide View, At, LenSeq, GapSeq;
    var code := GenSeq(bs, GapSeq(bs));
    assert BranchCode(code) + [] == BranchCode(code);
    BranchCodeAt(nfa, p, code, []);
  }

  lemma OrAt(nfa: seq<byte>, p: nat, bs: Blocks, others: Alts)
    requires At(nfa, p, GenAlts(Or(bs, others), 0)) && p + LenAlts(Or(bs, others)) < |nfa| <= MAX_NFA_LEN
    ensures View(nfa, p) == Linked(BRANCH, p + 3 + LenSeq(bs))
    ensures At(nfa, p + 3, GenSeq(bs, GapSeq(bs) + LenAlts(others)))
    ensures At(nfa, p + 3 + LenSeq(bs), GenAlts(others, 0))
  {
    hide View, At, BranchCode, GapSeq, LenSeq, GenSeq, Node;
    BranchCodeAt(nfa, p, GenSeq(bs, GapSeq(bs) + LenAlts(others)), GenAlts(others, 0));
  }

  lemma {:induction false} GenAltsIsWired(nfa: seq<byte>, p: nat, alts: Alts)
    requires WellFormedAlts(alts) && At(nfa, p, GenAlts(alts, 0)) && START_VALID_POS <= p
    requires p + LenAlts(alts) < |nfa| <= MAX_NFA_LEN && Op(nfa, p + LenAlts(alts)) != BRANCH
    ensures WiredAlts(nfa, p, alts, p + LenAlts(alts))
    decreases alts, 2
  {
    hide View, At, GenAlts, WiredSeq, GenSeq, GapSeq, LenSeq, WellFormedBlocks;
    match alts {
      case Only(bs) =>
        OnlyAt(nfa, p, bs);
        GenSeqIsWired(nfa, p + 3, bs, GapSeq(bs));
      case Or(bs, others) =>
        OrAt(nfa, p, bs, others);
        GenSeqIsWired(nfa, p + 3, bs, GapSeq(bs) + LenAlts(others));
        GenAltsIsWired(nfa, p + 3 + LenSeq(bs), others);
    }
  }
}
