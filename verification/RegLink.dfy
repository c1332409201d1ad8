/** Following and setting links while a program is being built. */
module RegLink {
  import opened RegSyntax
  import opened RegProgram
  import opened RegSemantics
  import opened RegLayout

  /** n links lead from p to q. */
  predicate Path(nfa: seq<byte>, p: nat, q: nat, n: nat)
    decreases n
  {
    if n == 0 then p == q else View(nfa, p).Linked? && Path(nfa, View(nfa, p).next, q, n - 1)
  }

  /** The first node without a link on the way from p is t. */
  predicate FirstEmpty(nfa: seq<byte>, p: nat, t: nat, n: nat) {
    Path(nfa, p, t, n) && t + NODE_SIZE <= |nfa| && Next(nfa, t) == 0
  }

  lemma {:induction false} PathJoin(nfa: seq<byte>, p: nat, q: nat, n: nat, t: nat, m: nat)
    requires Path(nfa, p, q, n) && Path(nfa, q, t, m)
    ensures Path(nfa, p, t, n + m)
    decreases n
  {
    hide View;
    if n > 0 { PathJoin(nfa, View(nfa, p).next, q, n - 1, t, m); }
  }

  lemma OneStep(nfa: seq<byte>, p: nat, op: byte, q: nat)
    requires View(nfa, p) == Linked(op, q)
    ensures Path(nfa, p, q, 1)
  {
    assert Path(nfa, q, q, 0);
  }

  lemma TwoSteps(nfa: seq<byte>, p: nat, op: byte, q: nat, op': byte, t: nat)
    requires View(nfa, p) == Linked(op, q) && View(nfa, q) == Linked(op', t)
    ensures Path(nfa, p, t, 2)
  {
    OneStep(nfa, p, op, q);
    OneStep(nfa, q, op', t);
    PathJoin(nfa, p, q, 1, t, 1);
  }

  /** The node at p, whose distance is d. */
  lemma LinkedAt(nfa: seq<byte>, p: nat, op: byte, d: nat, rest: seq<byte>)
    requires At(nfa, p, Node(op, d) + rest) && d <= 0xffff
    requires if op == BACK then d <= p else p + d < |nfa|
    ensures p + NODE_SIZE <= |nfa| && Next(nfa, p) == d && Op(nfa, p) == op
    ensures d > 0 ==> View(nfa, p) == Linked(op, if op == BACK then p - d else p + d)
    ensures At(nfa, p + NODE_SIZE, rest)
  {
    AtNodeThen(nfa, p, op, d, rest);
  }

  // ----- the way through a fragment

  /** The number of links from the first node of a fragment to its last. */
  function Steps(r: Re): nat {
    match r
    case Leaf(_) => 0
    case Star(_) => 2
    case Plus(b) => Steps(b) + 3
    case Opt(_) => 2
    case Group(alts) => StepsAlts(alts) + 1
  }

  function StepsSeq(bs: Blocks): nat {
    match bs
    case Empty => 0
    case Then(b, Empty) => Steps(b)
    case Then(b, rest) => Steps(b) + 1 + StepsSeq(rest)
  }

  function StepsAlts(alts: Alts): nat { if alts.Only? then 1 else 1 + StepsAlts(alts.others) }

  /** The position of the last node of a fragment, relative to its start. */
  function Last(r: Re): nat { Len(r) - Gap(r) }

  function LastSeq(bs: Blocks): nat { LenSeq(bs) - GapSeq(bs) }

  /** What is known of the last node of a fragment whose link has distance d. */
  predicate EndsWith(nfa: seq<byte>, t: nat, d: nat) {
    && t + NODE_SIZE <= |nfa| && Next(nfa, t) == d && Op(nfa, t) != BACK
  }

  lemma LeafPath(nfa: seq<byte>, p: nat, sym: Symbol, d: nat)
    requires At(nfa, p, Gen(Leaf(sym), d)) && d <= 0xffff
    ensures Path(nfa, p, p, 0) && EndsWith(nfa, p, d)
  {
    AtNodeThen(nfa, p, OpOf(sym), d, Operand(sym));
  }

  lemma LoopTailPath(nfa: seq<byte>, p: nat, dist: nat, d: nat)
    requires At(nfa, p, LoopTailCode(dist, d)) && d <= 0xffff
    ensures View(nfa, p + 3) == Linked(BRANCH, p + 6) && EndsWith(nfa, p + 6, d)
  {
    var tail := Node(BRANCH, 3) + Node(NOTHING, d);
    AtSplit(nfa, p, Node(BACK, dist), tail);
    AtNodeThen(nfa, p + 3, BRANCH, 3, Node(NOTHING, d));
    AtNode(nfa, p + 6, NOTHING, d);
  }

  lemma StarPath(nfa: seq<byte>, p: nat, body: seq<byte>, d: nat)
    requires At(nfa, p, StarCode(body, d)) && |body| + 6 <= 0xffff && d <= 0xffff
    ensures Path(nfa, p, p + |body| + 9, 2) && EndsWith(nfa, p + |body| + 9, d)
  {
    var tail := LoopTailCode(|body| + 3, d);
    LinkedAt(nfa, p, BRANCH, |body| + 6, body + tail);
    AtSplit(nfa, p + 3, body, tail);
    LoopTailPath(nfa, p + 3 + |body|, |body| + 3, d);
    hide View, At;
    TwoSteps(nfa, p, BRANCH, p + |body| + 6, BRANCH, p + |body| + 9);
  }

  lemma PlusPath(nfa: seq<byte>, p: nat, body: seq<byte>, d: nat)
    requires At(nfa, p, PlusCode(body, d)) && d <= 0xffff
    ensures Path(nfa, p + |body|, p + |body| + 9, 2) && EndsWith(nfa, p + |body| + 9, d)
  {
    var tail := LoopTailCode(|body| + 3, d);
    AtSplit(nfa, p, body, Node(BRANCH, 6) + tail);
    LinkedAt(nfa, p + |body|, BRANCH, 6, tail);
    LoopTailPath(nfa, p + 3 + |body|, |body| + 3, d);
    hide View, At;
    TwoSteps(nfa, p + |body|, BRANCH, p + |body| + 6, BRANCH, p + |body| + 9);
  }

  lemma OptPath(nfa: seq<byte>, p: nat, body: seq<byte>, d: nat)
    requires At(nfa, p, OptCode(body, d)) && |body| + 3 <= 0xffff && d <= 0xffff
    ensures Path(nfa, p, p + |body| + 6, 2) && EndsWith(nfa, p + |body| + 6, d)
  {
    var tail := Node(BRANCH, 3) + Node(NOTHING, d);
    LinkedAt(nfa, p, BRANCH, |body| + 3, body + tail);
    AtSplit(nfa, p + 3, body, tail);
    LinkedAt(nfa, p + 3 + |body|, BRANCH, 3, Node(NOTHING, d));
    AtNode(nfa, p + 6 + |body|, NOTHING, d);
    hide View, At;
    TwoSteps(nfa, p, BRANCH, p + |body| + 3, BRANCH, p + |body| + 6);
  }

  lemma StarGenPath(nfa: seq<byte>, p: nat, b: Re, d: nat)
    requires At(nfa, p, Gen(Star(b), d)) && Len(b) + 12 <= 0xffff && d <= 0xffff
    ensures Path(nfa, p, p + Last(Star(b)), Steps(Star(b))) && EndsWith(nfa, p + Last(Star(b)), d)
  {
    hide At, Path, EndsWith, StarCode;
    StarPath(nfa, p, Gen(b, Gap(b)), d);
  }

  lemma OptGenPath(nfa: seq<byte>, p: nat, b: Re, d: nat)
    requires At(nfa, p, Gen(Opt(b), d)) && Len(b) + 9 <= 0xffff && d <= 0xffff
    ensures Path(nfa, p, p + Last(Opt(b)), Steps(Opt(b))) && EndsWith(nfa, p + Last(Opt(b)), d)
  {
    hide At, Path, EndsWith, OptCode;
    OptPath(nfa, p, Gen(b, Gap(b) + 3), d);
  }

  /** A fragment that stands in a program can be walked to its last node. */
  lemma {:induction false} GenPath(nfa: seq<byte>, p: nat, r: Re, d: nat)
    requires At(nfa, p, Gen(r, d)) && Len(r) <= 0xffff && d <= 0xffff
    ensures Path(nfa, p, p + Last(r), Steps(r)) && EndsWith(nfa, p + Last(r), d)
    decreases r, 1
  {
    hide At, EndsWith, Path, Gen;
    match r {
      case Leaf(sym) => LeafPath(nfa, p, sym, d);
      case Star(b) => StarGenPath(nfa, p, b, d);
      case Opt(b) => OptGenPath(nfa, p, b, d);
      case Plus(b) => PlusGenPath(nfa, p, b, d);
      case Group(alts) => GroupGenPath(nfa, p, alts, d);
    }
  }

  lemma PlusGen(b: Re, d: nat)
    ensures Gen(Plus(b), d) == PlusCode(Gen(b, Gap(b)), d)
  {
    hide PlusCode;
  }

  lemma {:induction false} PlusGenPath(nfa: seq<byte>, p: nat, b: Re, d: nat)
    requires At(nfa, p, Gen(Plus(b), d)) && Len(b) + 12 <= 0xffff && d <= 0xffff
    ensures Path(nfa, p, p + Len(b) + 9, Steps(b) + 3) && EndsWith(nfa, p + Len(b) + 9, d)
    decreases b, 2
  {
    hide Path, Gen, View, EndsWith, Node;
    var body := Gen(b, Gap(b));
    assert At(nfa, p, PlusCode(body, d)) by { PlusGen(b, d); }
    PlusPath(nfa, p, body, d);
    AtSplit(nfa, p, body, Node(BRANCH, 6) + LoopTailCode(|body| + 3, d));
    GenPath(nfa, p, b, Gap(b));
    LinkView(nfa, p + Last(b), Gap(b));
    OneStep(nfa, p + Last(b), Op(nfa, p + Last(b)), p + Len(b));
    PathJoin(nfa, p, p + Last(b), Steps(b), p + Len(b), 1);
    PathJoin(nfa, p, p + Len(b), Steps(b) + 1, p + Len(b) + 9, 2);
  }

  lemma BranchCodeView(nfa: seq<byte>, p: nat, body: seq<byte>, rest: seq<byte>)
    requires At(nfa, p, BranchCode(body) + rest) && 3 + |body| <= 0xffff && rest != []
    ensures View(nfa, p) == Linked(BRANCH, p + 3 + |body|) && At(nfa, p + 3 + |body|, rest)
  {
    AtSplit(nfa, p, BranchCode(body), rest);
    LinkedAt(nfa, p, BRANCH, NODE_SIZE + |body|, body);
  }

  lemma OrAltsAt(nfa: seq<byte>, p: nat, bs: Blocks, others: Alts, rest: seq<byte>)
    requires At(nfa, p, GenAlts(Or(bs, others), 0) + rest) && LenAlts(Or(bs, others)) <= 0xffff && rest != []
    ensures View(nfa, p) == Linked(BRANCH, p + 3 + LenSeq(bs))
    ensures At(nfa, p + 3 + LenSeq(bs), GenAlts(others, 0) + rest)
  {
    hide GenSeq, View, GapSeq, At, BranchCode, LenSeq;
    var body := GenSeq(bs, GapSeq(bs) + LenAlts(others));
    assert GenAlts(Or(bs, others), 0) + rest == BranchCode(body) + (GenAlts(others, 0) + rest);
    BranchCodeView(nfa, p, body, GenAlts(others, 0) + rest);
  }

  lemma OnlyAltsAt(nfa: seq<byte>, p: nat, bs: Blocks, rest: seq<byte>)
    requires At(nfa, p, GenAlts(Only(bs), 0) + rest) && LenAlts(Only(bs)) <= 0xffff && rest != []
    ensures View(nfa, p) == Linked(BRANCH, p + 3 + LenSeq(bs)) && At(nfa, p + 3 + LenSeq(bs), rest)
  {
    hide GenSeq, View, GapSeq, At, BranchCode, LenSeq;
    BranchCodeView(nfa, p, GenSeq(bs, GapSeq(bs)), rest);
  }

  /** The chain of branches leads to what follows them. */
  lemma {:induction false} GenAltsPath(nfa: seq<byte>, p: nat, alts: Alts, rest: seq<byte>)
    requires At(nfa, p, GenAlts(alts, 0) + rest) && LenAlts(alts) <= 0xffff && rest != []
    ensures Path(nfa, p, p + LenAlts(alts), StepsAlts(alts)) && At(nfa, p + LenAlts(alts), rest)
    decreases alts, 0
  {
    hide View, At, Path, GenAlts;
    match alts {
      case Only(bs) =>
        OnlyAltsAt(nfa, p, bs, rest);
        OneStep(nfa, p, BRANCH, p + 3 + LenSeq(bs));
      case Or(bs, others) =>
        var p2 := p + 3 + LenSeq(bs);
        OrAltsAt(nfa, p, bs, others, rest);
        GenAltsPath(nfa, p2, others, rest);
        OneStep(nfa, p, BRANCH, p2);
        PathJoin(nfa, p, p2, 1, p + LenAlts(alts), StepsAlts(others));
    }
  }

  lemma {:induction false} GroupGenPath(nfa: seq<byte>, p: nat, alts: Alts, d: nat)
    requires At(nfa, p, Gen(Group(alts), d)) && LenAlts(alts) + 6 <= 0xffff && d <= 0xffff
    ensures Path(nfa, p, p + LenAlts(alts) + 3, StepsAlts(alts) + 1) && EndsWith(nfa, p + LenAlts(alts) + 3, d)
    decreases alts, 3
  {
    hide GenAlts, View;
    LinkedAt(nfa, p, PAREN_START, 3, GenAlts(alts, 0) + Node(PAREN_END, d));
    GenAltsPath(nfa, p + 3, alts, Node(PAREN_END, d));
    AtNode(nfa, p + 3 + LenAlts(alts), PAREN_END, d);
    OneStep(nfa, p, PAREN_START, p + 3);
    PathJoin(nfa, p, p + 3, 1, p + 3 + LenAlts(alts), StepsAlts(alts));
  }

  lemma EmptyPath(nfa: seq<byte>, p: nat, d: nat)
    requires At(nfa, p, Node(NOTHING, d)) && d <= 0xffff
    ensures Path(nfa, p, p, 0) && EndsWith(nfa, p, d)
  {
    AtNode(nfa, p, NOTHING, d);
  }

  lemma {:induction false} GenSeqPath(nfa: seq<byte>, p: nat, bs: Blocks, d: nat)
    requires At(nfa, p, GenSeq(bs, d)) && LenSeq(bs) <= 0xffff && d <= 0xffff
    ensures Path(nfa, p, p + LastSeq(bs), StepsSeq(bs)) && EndsWith(nfa, p + LastSeq(bs), d)
    decreases bs, 1
  {
    hide At, EndsWith, Path;
    match bs {
      case Empty => EmptyPath(nfa, p, d);
      case Then(b, Empty) => GenPath(nfa, p, b, d);
      case Then(b, rest) => ConsPath(nfa, p, b, rest, d);
    }
  }

  lemma {:induction false} ConsPath(nfa: seq<byte>, p: nat, b: Re, rest: Blocks, d: nat)
    requires rest.Then? && At(nfa, p, GenSeq(Then(b, rest), d)) && LenSeq(Then(b, rest)) <= 0xffff && d <= 0xffff
    ensures var bs := Then(b, rest);
      Path(nfa, p, p + LastSeq(bs), StepsSeq(bs)) && EndsWith(nfa, p + LastSeq(bs), d)
    decreases Then(b, rest), 0
  {
    hide Gen, GenSeq, Path, Gap, At, View, EndsWith;
    ConsAt(nfa, p, b, rest, d);
    GenPath(nfa, p, b, Gap(b));
    var t := p + Last(b);
    LinkView(nfa, t, Gap(b));
    OneStep(nfa, t, Op(nfa, t), p + Len(b));
    PathJoin(nfa, p, t, Steps(b), p + Len(b), 1);
    GenSeqPath(nfa, p + Len(b), rest, d);
    PathJoin(nfa, p, p + Len(b), Steps(b) + 1, p + Len(b) + LastSeq(rest), StepsSeq(rest));
  }

  lemma LinkView(nfa: seq<byte>, t: nat, d: nat)
    requires EndsWith(nfa, t, d) && 0 < d && t + d < |nfa|
    ensures View(nfa, t) == Linked(Op(nfa, t), t + d)
  {
  }
}
