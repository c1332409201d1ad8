/** How the code that stands in a program changes when the program is extended,
    a node is inserted or a link is set. */
module RegRelink {
  import opened RegSyntax
  import opened RegProgram
  import opened RegSemantics
  import opened RegLayout
  import opened RegLink

  lemma AtAppend(nfa: seq<byte>, p: nat, code: seq<byte>, x: seq<byte>)
    requires At(nfa, p, code)
    ensures At(nfa + x, p, code) && At(nfa + x, |nfa|, x)
  {
  }

  lemma AtJoin(nfa: seq<byte>, p: nat, a: seq<byte>, b: seq<byte>)
    requires At(nfa, p, a) && At(nfa, p + |a|, b)
    ensures At(nfa, p, a + b)
  {
    forall k | 0 <= k < |a + b| ensures nfa[p + k] == (a + b)[k] {
      if k < |a| {
        assert nfa[p + k] == a[k];
      } else {
        assert nfa[p + |a| + (k - |a|)] == b[k - |a|];
      }
    }
  }

  lemma AtIsSuffix(nfa: seq<byte>, base: seq<byte>, code: seq<byte>)
    requires At(nfa, 0, base) && At(nfa, |base|, code) && |nfa| == |base| + |code|
    ensures nfa == base + code
  {
    AtJoin(nfa, 0, base, code);
    assert forall k :: 0 <= k < |nfa| ==> nfa[0 + k] == (base + code)[k];
  }

  function Insert(nfa: seq<byte>, c: nat, node: seq<byte>): seq<byte>
    requires c <= |nfa|
  {
    nfa[..c] + node + nfa[c..]
  }

  lemma AtInsert(nfa: seq<byte>, c: nat, node: seq<byte>, base: seq<byte>, code: seq<byte>)
    requires At(nfa, 0, base) && |base| == c && At(nfa, c, code)
    ensures var r := Insert(nfa, c, node);
      At(r, 0, base) && At(r, c, node) && At(r, c + |node|, code)
  {
    var r := Insert(nfa, c, node);
    forall k | 0 <= k < |base| ensures r[0 + k] == base[k] { assert nfa[0 + k] == base[k]; }
    forall k | 0 <= k < |node| ensures r[c + k] == node[k] { }
    forall k | 0 <= k < |code| ensures r[c + |node| + k] == code[k] { assert nfa[c + k] == code[k]; }
  }

  // ----- setting a link

  lemma AtFrame(nfa: seq<byte>, t: nat, d: nat, p: nat, code: seq<byte>)
    requires At(nfa, p, code) && t + NODE_SIZE <= |nfa| && (t + NODE_SIZE <= p || p + |code| <= t)
    ensures At(SetNext(nfa, t, d), p, code)
  {
  }

  lemma AtSetNode(nfa: seq<byte>, p: nat, op: byte, x: nat, d: nat)
    requires At(nfa, p, Node(op, x))
    ensures At(SetNext(nfa, p, d), p, Node(op, d))
  {
    assert nfa[p + 0] == Node(op, x)[0] == op;
  }

  /** Setting the link of the last node of a fragment that begins with other code. */
  lemma AtSetLast(nfa: seq<byte>, p: nat, pre: seq<byte>, op: byte, x: nat, d: nat)
    requires At(nfa, p, pre + Node(op, x))
    ensures At(SetNext(nfa, p + |pre|, d), p, pre + Node(op, d))
  {
    AtSplit(nfa, p, pre, Node(op, x));
    AtFrame(nfa, p + |pre|, d, p, pre);
    AtSetNode(nfa, p + |pre|, op, x, d);
    AtJoin(SetNext(nfa, p + |pre|, d), p, pre, Node(op, d));
  }

  lemma StarCodeEnd(body: seq<byte>, d: nat)
    ensures StarCode(body, d) ==
      (Node(BRANCH, |body| + 6) + (body + (Node(BACK, |body| + 3) + Node(BRANCH, 3)))) + Node(NOTHING, d)
  {
  }

  lemma PlusCodeEnd(body: seq<byte>, d: nat)
    ensures PlusCode(body, d) ==
      (body + (Node(BRANCH, 6) + (Node(BACK, |body| + 3) + Node(BRANCH, 3)))) + Node(NOTHING, d)
  {
  }

  lemma OptCodeEnd(body: seq<byte>, d: nat)
    ensures OptCode(body, d) == (Node(BRANCH, |body| + 3) + (body + Node(BRANCH, 3))) + Node(NOTHING, d)
  {
  }

  lemma GroupCodeEnd(body: seq<byte>, d: nat)
    ensures GroupCode(body, d) == (Node(PAREN_START, 3) + body) + Node(PAREN_END, d)
  {
  }

  lemma RelinkLeaf(nfa: seq<byte>, p: nat, sym: Symbol, x: nat, d: nat)
    requires At(nfa, p, LeafCode(sym, x))
    ensures At(SetNext(nfa, p, d), p, LeafCode(sym, d))
  {
    AtSplit(nfa, p, Node(OpOf(sym), x), Operand(sym));
    AtFrame(nfa, p, d, p + 3, Operand(sym));
    AtSetNode(nfa, p, OpOf(sym), x, d);
    AtJoin(SetNext(nfa, p, d), p, Node(OpOf(sym), d), Operand(sym));
  }

  lemma RelinkLoop(nfa: seq<byte>, p: nat, body: seq<byte>, x: nat, d: nat)
    ensures At(nfa, p, StarCode(body, x)) ==> At(SetNext(nfa, p + |body| + 9, d), p, StarCode(body, d))
    ensures At(nfa, p, PlusCode(body, x)) ==> At(SetNext(nfa, p + |body| + 9, d), p, PlusCode(body, d))
  {
    hide At, SetNext, StarCode, PlusCode;
    if At(nfa, p, StarCode(body, x)) {
      StarCodeEnd(body, x);
      StarCodeEnd(body, d);
      AtSetLast(nfa, p, Node(BRANCH, |body| + 6) + (body + (Node(BACK, |body| + 3) + Node(BRANCH, 3))), NOTHING, x, d);
    }
    if At(nfa, p, PlusCode(body, x)) {
      PlusCodeEnd(body, x);
      PlusCodeEnd(body, d);
      AtSetLast(nfa, p, body + (Node(BRANCH, 6) + (Node(BACK, |body| + 3) + Node(BRANCH, 3))), NOTHING, x, d);
    }
  }

  lemma RelinkOpt(nfa: seq<byte>, p: nat, body: seq<byte>, x: nat, d: nat)
    requires At(nfa, p, OptCode(body, x))
    ensures At(SetNext(nfa, p + |body| + 6, d), p, OptCode(body, d))
  {
    hide SetNext, OptCode;
    OptCodeEnd(body, x);
    OptCodeEnd(body, d);
    AtSetLast(nfa, p, Node(BRANCH, |body| + 3) + (body + Node(BRANCH, 3)), NOTHING, x, d);
  }

  lemma RelinkGroup(nfa: seq<byte>, p: nat, body: seq<byte>, x: nat, d: nat)
    requires At(nfa, p, GroupCode(body, x))
    ensures At(SetNext(nfa, p + |body| + 3, d), p, GroupCode(body, d))
  {
    hide SetNext, GroupCode;
    GroupCodeEnd(body, x);
    GroupCodeEnd(body, d);
    AtSetLast(nfa, p, Node(PAREN_START, 3) + body, PAREN_END, x, d);
  }

  /** Setting the last link of a fragment gives the fragment with that link. */
  lemma RelinkStar(nfa: seq<byte>, p: nat, b: Re, x: nat, d: nat)
    requires At(nfa, p, Gen(Star(b), x)) && p + Last(Star(b)) + NODE_SIZE <= |nfa|
    ensures At(SetNext(nfa, p + Last(Star(b)), d), p, Gen(Star(b), d))
  {
    hide At, SetNext, StarCode, PlusCode, Gen, Len;
    GenStar(b, x);
    GenStar(b, d);
    RelinkLoop(nfa, p, Gen(b, Gap(b)), x, d);
  }

  lemma RelinkPlus(nfa: seq<byte>, p: nat, b: Re, x: nat, d: nat)
    requires At(nfa, p, Gen(Plus(b), x)) && p + Last(Plus(b)) + NODE_SIZE <= |nfa|
    ensures At(SetNext(nfa, p + Last(Plus(b)), d), p, Gen(Plus(b), d))
  {
    hide At, SetNext, StarCode, PlusCode, Gen, Len;
    GenPlus(b, x);
    GenPlus(b, d);
    RelinkLoop(nfa, p, Gen(b, Gap(b)), x, d);
  }

  lemma Relink(nfa: seq<byte>, p: nat, r: Re, x: nat, d: nat)
    requires At(nfa, p, Gen(r, x)) && p + Last(r) + NODE_SIZE <= |nfa|
    ensures At(SetNext(nfa, p + Last(r), d), p, Gen(r, d))
  {
    hide At, SetNext, StarCode, PlusCode, OptCode, GroupCode, LeafCode, Gen, Len;
    match r {
      case Leaf(sym) =>
        GenLeaf(sym, x);
        GenLeaf(sym, d);
        RelinkLeaf(nfa, p, sym, x, d);
      case Star(b) => RelinkStar(nfa, p, b, x, d);
      case Plus(b) => RelinkPlus(nfa, p, b, x, d);
      case Opt(b) =>
        GenOpt(b, x);
        GenOpt(b, d);
        RelinkOpt(nfa, p, Gen(b, Gap(b) + 3), x, d);
      case Group(alts) =>
        GenGroup(alts, x);
        GenGroup(alts, d);
        RelinkGroup(nfa, p, GenAlts(alts, 0), x, d);
    }
  }

  lemma {:induction false} RelinkSeq(nfa: seq<byte>, p: nat, bs: Blocks, x: nat, d: nat)
    requires At(nfa, p, GenSeq(bs, x)) && p + LastSeq(bs) + NODE_SIZE <= |nfa|
    ensures At(SetNext(nfa, p + LastSeq(bs), d), p, GenSeq(bs, d))
    decreases bs
  {
    hide SetNext, Gen, At, Gap;
    match bs {
      case Empty => AtSetNode(nfa, p, NOTHING, x, d);
      case Then(b, Empty) =>  Relink(nfa, p, b, x, d);
      case Then(b, rest) =>
        ConsAt(nfa, p, b, rest, x);
        RelinkSeq(nfa, p + Len(b), rest, x, d);
        AtFrame(nfa, p + LastSeq(bs), d, p, Gen(b, Gap(b)));
        AtJoin(SetNext(nfa, p + LastSeq(bs), d), p, Gen(b, Gap(b)), GenSeq(rest, d));
    }
  }

  // ----- blocks are appended to a branch one by one

  function Snoc(bs: Blocks, b: Re): Blocks {
    match bs
    case Empty => Then(b, Empty)
    case Then(x, rest) => Then(x, Snoc(rest, b))
  }

  lemma {:induction false} SnocGen(nfa: seq<byte>, p: nat, bs: Blocks, b: Re, d: nat)
    requires bs.Then? && At(nfa, p, GenSeq(bs, GapSeq(bs))) && At(nfa, p + LenSeq(bs), Gen(b, d))
    ensures At(nfa, p, GenSeq(Snoc(bs, b), d))
    decreases bs
  {
    hide Gen, At, Gap;
    match bs {
      case Then(x, Empty) =>
        AtJoin(nfa, p, Gen(x, Gap(x)), Gen(b, d));
        assert Snoc(bs, b) == Then(x, Then(b, Empty));
        assert GenSeq(Then(b, Empty), d) == Gen(b, d);
      case Then(x, rest) =>
        ConsAt(nfa, p, x, rest, GapSeq(rest));
        SnocGen(nfa, p + Len(x), rest, b, d);
        AtJoin(nfa, p, Gen(x, Gap(x)), GenSeq(Snoc(rest, b), d));
    }
  }

  // ----- branches are appended one by one, and linked at the end

  function SnocAlts(alts: Alts, bs: Blocks): Alts {
    match alts
    case Only(x) => Or(x, Only(bs))
    case Or(x, others) => Or(x, SnocAlts(others, bs))
  }

  /** The branch nodes of alts stand from p on; the last one has link `last`, and
      nothing else leads out of a branch yet. */
  predicate OpenAlts(nfa: seq<byte>, p: nat, alts: Alts, last: nat)
    decreases alts
  {
    match alts
    case Only(bs) =>
      At(nfa, p, Node(BRANCH, last)) && At(nfa, p + 3, GenSeq(bs, 0))
    case Or(bs, others) =>
      At(nfa, p, Node(BRANCH, 3 + LenSeq(bs))) && At(nfa, p + 3, GenSeq(bs, 0)) &&
      OpenAlts(nfa, p + 3 + LenSeq(bs), others, last)
  }

  function LastBranch(p: nat, alts: Alts): nat
    decreases alts
  {
    if alts.Only? then p else LastBranch(p + 3 + LenSeq(alts.branch), alts.others)
  }

  lemma {:induction false} LastBranchEnd(p: nat, alts: Alts)
    ensures p <= LastBranch(p, alts) && LastBranch(p, alts) + 3 + LenSeq(LastBlocks(alts)) == p + LenAlts(alts)
    decreases alts
  {
    hide LenSeq;
    if alts.Or? { LastBranchEnd(p + 3 + LenSeq(alts.branch), alts.others); }
  }

  function LastBlocks(alts: Alts): Blocks { if alts.Only? then alts.branch else LastBlocks(alts.others) }

  lemma {:induction false} OpenAltsAppend(nfa: seq<byte>, p: nat, alts: Alts, last: nat, x: seq<byte>)
    requires OpenAlts(nfa, p, alts, last)
    ensures OpenAlts(nfa + x, p, alts, last)
    decreases alts
  {
    hide At, GenSeq, LenSeq;
    AtAppend(nfa, p + 3, GenSeq(alts.branch, 0), x);
    if alts.Only? {
      AtAppend(nfa, p, Node(BRANCH, last), x);
    } else {
      AtAppend(nfa, p, Node(BRANCH, 3 + LenSeq(alts.branch)), x);
      OpenAltsAppend(nfa, p + 3 + LenSeq(alts.branch), alts.others, last, x);
    }
  }

  function BranchSteps(alts: Alts): nat { if alts.Only? then 0 else 1 + BranchSteps(alts.others) }

  /** The way along the branches to the last one. */
  lemma {:induction false} OpenAltsPath(nfa: seq<byte>, p: nat, alts: Alts, last: nat)
    requires OpenAlts(nfa, p, alts, last) && p + LenAlts(alts) <= 0xffff && last <= 0xffff
    ensures Path(nfa, p, LastBranch(p, alts), BranchSteps(alts))
    ensures EndsWith(nfa, LastBranch(p, alts), last)
    decreases alts
  {
    hide GenSeq, View, LenSeq;
    if alts.Only? {
      AtNode(nfa, p, BRANCH, last);
    } else {
      var p2 := p + 3 + LenSeq(alts.branch);
      OpenAltsPath(nfa, p2, alts.others, last);
      LastBranchEnd(p2, alts.others);
      AtNode(nfa, p, BRANCH, 3 + LenSeq(alts.branch));
      LinkView(nfa, p, 3 + LenSeq(alts.branch));
      OneStep(nfa, p, BRANCH, p2);
      PathJoin(nfa, p, p2, 1, LastBranch(p2, alts.others), BranchSteps(alts.others));
    }
  }

  /** Setting the last branch's link. */
  lemma {:induction false} OpenAltsSetLast(nfa: seq<byte>, p: nat, alts: Alts, last: nat, d: nat)
    requires OpenAlts(nfa, p, alts, last) && LastBranch(p, alts) + NODE_SIZE <= |nfa|
    ensures OpenAlts(SetNext(nfa, LastBranch(p, alts), d), p, alts, d)
    decreases alts
  {
    hide At, GenSeq, SetNext, LenSeq;
    var t := LastBranch(p, alts);
    if alts.Only? {
      AtSetNode(nfa, p, BRANCH, last, d);
      AtFrame(nfa, t, d, p + 3, GenSeq(alts.branch, 0));
    } else {
      var p2 := p + 3 + LenSeq(alts.branch);
      LastBranchEnd(p2, alts.others);
      OpenAltsSetLast(nfa, p2, alts.others, last, d);
      AtFrame(nfa, t, d, p, Node(BRANCH, 3 + LenSeq(alts.branch)));
      AtFrame(nfa, t, d, p + 3, GenSeq(alts.branch, 0));
    }
  }

  /** Adding a branch behind the others, once the last of them is linked to it. */
  lemma {:induction false} OpenAltsSnoc(nfa: seq<byte>, p: nat, alts: Alts, bs: Blocks)
    requires OpenAlts(nfa, p, alts, 3 + LenSeq(LastBlocks(alts)))
    requires At(nfa, p + LenAlts(alts), Node(BRANCH, 0)) && At(nfa, p + LenAlts(alts) + 3, GenSeq(bs, 0))
    ensures OpenAlts(nfa, p, SnocAlts(alts, bs), 0)
    ensures LenAlts(SnocAlts(alts, bs)) == LenAlts(alts) + 3 + LenSeq(bs)
    decreases alts
  {
    hide At, GenSeq, LenSeq;
    if alts.Or? {
      OpenAltsSnoc(nfa, p + 3 + LenSeq(alts.branch), alts.others, bs);
    }
  }

  /** Linking the operand of the first branch to the end. */
  lemma {:induction false} OpenAltsFrame(nfa: seq<byte>, t: nat, d: nat, p: nat, alts: Alts, last: nat)
    requires OpenAlts(nfa, p, alts, last) && t + NODE_SIZE <= p
    ensures p <= |nfa| && OpenAlts(SetNext(nfa, t, d), p, alts, last)
    decreases alts
  {
    hide At, GenSeq, SetNext, LenSeq;
    assert p <= |nfa| by { OpenAltsStart(nfa, p, alts, last); }
    AtFrame(nfa, t, d, p + 3, GenSeq(alts.branch, 0));
    if alts.Only? {
      AtFrame(nfa, t, d, p, Node(BRANCH, last));
    } else {
      AtFrame(nfa, t, d, p, Node(BRANCH, 3 + LenSeq(alts.branch)));
      OpenAltsFrame(nfa, t, d, p + 3 + LenSeq(alts.branch), alts.others, last);
    }
  }

  lemma OpenAltsStart(nfa: seq<byte>, p: nat, alts: Alts, last: nat)
    requires OpenAlts(nfa, p, alts, last)
    ensures p + 3 <= |nfa|
  {
  }
}
