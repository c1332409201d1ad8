/** The steps by which the compiler chains the branches of a group and links
    their operands to the node that ends it. */
module RegGroup {
  import opened RegSyntax
  import opened RegProgram
  import opened RegSemantics
  import opened RegLayout
  import opened RegLink
  import opened RegRelink
  import opened RegRepeat
  import opened RegParse

  /** Where the first branch stands: behind the opening node, if there is one. */
  function FirstBranch(base: seq<byte>, paren: bool): nat { if paren then |base| + NODE_SIZE else |base| }

  predicate GroupOpen(nfa: seq<byte>, base: seq<byte>, paren: bool, alts: Alts, last: nat) {
    && At(nfa, 0, base) && |base| >= START_VALID_POS
    && (paren ==> At(nfa, |base|, Node(PAREN_START, 3)))
    && OpenAlts(nfa, FirstBranch(base, paren), alts, last)
    && FirstBranch(base, paren) + LenAlts(alts) <= |nfa|
  }

  lemma GroupOpenAppend(nfa: seq<byte>, base: seq<byte>, paren: bool, alts: Alts, last: nat, x: seq<byte>)
    requires GroupOpen(nfa, base, paren, alts, last)
    ensures GroupOpen(nfa + x, base, paren, alts, last) && At(nfa + x, |nfa|, x)
  {
    hide At, OpenAlts, LenAlts;
    AtAppend(nfa, 0, base, x);
    if paren { AtAppend(nfa, |base|, Node(PAREN_START, 3), x); }
    OpenAltsAppend(nfa, FirstBranch(base, paren), alts, last, x);
  }

  /** The opening node is linked to the first branch. */
  lemma LinkOpening(nfa: seq<byte>, base: seq<byte>, bs: Blocks)
    requires At(nfa, 0, base) && At(nfa, |base|, Node(PAREN_START, 0)) && |base| >= START_VALID_POS
    requires At(nfa, |base| + 3, Node(BRANCH, 0)) && At(nfa, |base| + 6, GenSeq(bs, 0))
    requires |nfa| == |base| + 6 + LenSeq(bs)
    ensures Links(nfa, |base|, |base| + 3, |base|, 0, 3)
    ensures GroupOpen(SetNext(nfa, |base|, 3), base, true, Only(bs), 0)
  {
    hide At, GenSeq, SetNext, LenSeq, Node, EndsWith;
    var c := |base|;
    NodeEnds(nfa, c, PAREN_START, 0);
    LinksForward(nfa, c, c + 3, c, 0);
    AtSetNode(nfa, c, PAREN_START, 0, 3);
    AtFrame(nfa, c, 3, 0, base);
    AtFrame(nfa, c, 3, c + 3, Node(BRANCH, 0));
    AtFrame(nfa, c, 3, c + 6, GenSeq(bs, 0));
  }

  function GroupSteps(paren: bool, alts: Alts): nat { BranchSteps(alts) + if paren then 1 else 0 }

  /** The last branch is linked to what follows the branches. */
  lemma LinkLastBranch(nfa: seq<byte>, base: seq<byte>, paren: bool, alts: Alts)
    requires GroupOpen(nfa, base, paren, alts, 0)
    requires FirstBranch(base, paren) + LenAlts(alts) < |nfa| && FirstBranch(base, paren) + LenAlts(alts) <= 0xffff
    ensures var p := FirstBranch(base, paren);
      var t, d := LastBranch(p, alts), 3 + LenSeq(LastBlocks(alts));
      && Links(nfa, |base|, p + LenAlts(alts), t, GroupSteps(paren, alts), d)
      && GroupOpen(SetNext(nfa, t, d), base, paren, alts, d)
  {
    hide At, OpenAlts, SetNext, LenAlts, LenSeq, Path, View, LastBranch, LastBlocks, EndsWith;
    var p := FirstBranch(base, paren);
    var t, d := LastBranch(p, alts), 3 + LenSeq(LastBlocks(alts));
    LastBranchEnd(p, alts);
    OpenAltsPath(nfa, p, alts, 0);
    if paren {
      NodeEnds(nfa, |base|, PAREN_START, 3);
      LinkView(nfa, |base|, 3);
      OneStep(nfa, |base|, Op(nfa, |base|), p);
      PathJoin(nfa, |base|, p, 1, t, BranchSteps(alts));
    }
    LinksForward(nfa, |base|, t + d, t, GroupSteps(paren, alts));
    OpenAltsSetLast(nfa, p, alts, 0, d);
    AtFrame(nfa, t, d, 0, base);
    if paren { AtFrame(nfa, t, d, |base|, Node(PAREN_START, 3)); }
  }

  /** How far the last block of the first branch is from the end. */
  function OperandGap(alts: Alts): nat { GapSeq(alts.branch) + if alts.Or? then LenAlts(alts.others) else 0 }

  lemma FirstGen(alts: Alts)
    ensures GenAlts(alts, 0) ==
      BranchCode(GenSeq(alts.branch, OperandGap(alts))) + if alts.Or? then GenAlts(alts.others, 0) else []
  {
    hide GenSeq, GapSeq, LenSeq, LenAlts, BranchCode, Node;
    var bs, d := alts.branch, OperandGap(alts);
    if alts.Only? {
      var code := BranchCode(GenSeq(bs, d));
      assert code + [] == code;
    } else {
      var others := alts.others;
      assert d == GapSeq(bs) + LenAlts(others) + 0;
    }
  }

  /** The operand of the first branch is linked to the end node e. */
  lemma LinkOperand(nfa: seq<byte>, p: nat, alts: Alts, e: nat)
    requires OpenAlts(nfa, p, alts, 3 + LenSeq(LastBlocks(alts))) && p >= START_VALID_POS
    requires e == p + LenAlts(alts) && e + NODE_SIZE <= |nfa| && e <= 0xffff
    ensures var bs := alts.branch;
      var t, d := p + 3 + LastSeq(bs), OperandGap(alts);
      && View(nfa, p) == Linked(BRANCH, p + 3 + LenSeq(bs))
      && Links(nfa, p + 3, e, t, StepsSeq(bs), d)
      && At(SetNext(nfa, t, d), p, BranchCode(GenSeq(bs, d)))
      && (alts.Or? ==> OpenAlts(SetNext(nfa, t, d), p + 3 + LenSeq(bs), alts.others, 3 + LenSeq(LastBlocks(alts))))
  {
    hide At, GenSeq, SetNext, LenSeq, Path, View, EndsWith, GapSeq, Node;
    var bs := alts.branch;
    var t, d := p + 3 + LastSeq(bs), OperandGap(alts);
    NodeEnds(nfa, p, BRANCH, 3 + LenSeq(bs));
    LinkView(nfa, p, 3 + LenSeq(bs));
    NodeIs(nfa, p, BRANCH, 3 + LenSeq(bs));
    GenSeqPath(nfa, p + 3, bs, 0);
    LinksForward(nfa, p + 3, e, t, StepsSeq(bs));
    RelinkSeq(nfa, p + 3, bs, 0, d);
    AtFrame(nfa, t, d, p, Node(BRANCH, 3 + LenSeq(bs)));
    AtJoin(SetNext(nfa, t, d), p, Node(BRANCH, 3 + LenSeq(bs)), GenSeq(bs, d));
    if alts.Or? {
      OpenAltsFrame(nfa, t, d, p + 3 + LenSeq(bs), alts.others, 3 + LenSeq(LastBlocks(alts)));
    }
  }

  lemma NodeIs(nfa: seq<byte>, p: nat, op: byte, d: nat)
    requires At(nfa, p, Node(op, d)) && d <= 0xffff
    ensures p + NODE_SIZE <= |nfa| && Op(nfa, p) == op && Next(nfa, p) == d
  {
    AtNode(nfa, p, op, d);
  }

  lemma GroupBuilt(nfa: seq<byte>, p: nat, alts: Alts)
    requires At(nfa, p, Node(PAREN_START, 3)) && At(nfa, p + 3, GenAlts(alts, 0))
    requires At(nfa, p + 3 + LenAlts(alts), Node(PAREN_END, 0))
    ensures At(nfa, p, Gen(Group(alts), 0))
  {
    hide At, GenAlts;
    AtJoin(nfa, p + 3, GenAlts(alts, 0), Node(PAREN_END, 0));
    AtJoin(nfa, p, Node(PAREN_START, 3), GenAlts(alts, 0) + Node(PAREN_END, 0));
  }

  // ----- a program that has grown still holds what it held

  lemma AtPrefix(nfa: seq<byte>, was: seq<byte>, p: nat, code: seq<byte>)
    requires At(nfa, 0, was) && At(was, p, code)
    ensures At(nfa, p, code)
  {
    forall k | 0 <= k < |code| ensures nfa[p + k] == code[k] {
      assert was[p + k] == code[k];
      assert nfa[0 + (p + k)] == was[p + k];
    }
  }

  lemma {:induction false} OpenAltsPrefix(nfa: seq<byte>, was: seq<byte>, p: nat, alts: Alts, last: nat)
    requires At(nfa, 0, was) && OpenAlts(was, p, alts, last)
    ensures OpenAlts(nfa, p, alts, last)
    decreases alts
  {
    hide At, GenSeq, LenSeq;
    AtPrefix(nfa, was, p + 3, GenSeq(alts.branch, 0));
    if alts.Only? {
      AtPrefix(nfa, was, p, Node(BRANCH, last));
    } else {
      AtPrefix(nfa, was, p, Node(BRANCH, 3 + LenSeq(alts.branch)));
      OpenAltsPrefix(nfa, was, p + 3 + LenSeq(alts.branch), alts.others, last);
    }
  }

  lemma GroupOpenPrefix(nfa: seq<byte>, was: seq<byte>, base: seq<byte>, paren: bool, alts: Alts, last: nat)
    requires At(nfa, 0, was) && GroupOpen(was, base, paren, alts, last)
    ensures GroupOpen(nfa, base, paren, alts, last)
  {
    hide OpenAlts, LenAlts;
    AtPrefix(nfa, was, 0, base);
    if paren { AtPrefix(nfa, was, |base|, Node(PAREN_START, 3)); }
    OpenAltsPrefix(nfa, was, FirstBranch(base, paren), alts, last);
  }

  /** The next branch has been appended and the last one linked to it. */
  lemma GroupOpenSnoc(nfa: seq<byte>, base: seq<byte>, paren: bool, alts: Alts, bs: Blocks)
    requires var e := FirstBranch(base, paren) + LenAlts(alts);
      && GroupOpen(nfa, base, paren, alts, 3 + LenSeq(LastBlocks(alts)))
      && At(nfa, e, Node(BRANCH, 0)) && At(nfa, e + 3, GenSeq(bs, 0)) && |nfa| == e + 3 + LenSeq(bs)
    ensures GroupOpen(nfa, base, paren, SnocAlts(alts, bs), 0)
    ensures |nfa| == FirstBranch(base, paren) + LenAlts(SnocAlts(alts, bs))
  {
    hide At, OpenAlts, GenSeq, LenSeq;
    OpenAltsSnoc(nfa, FirstBranch(base, paren), alts, bs);
  }

  /** LinkLastBranch, keeping what stands behind the branches. */
  lemma LinkNextBranch(nfa: seq<byte>, base: seq<byte>, paren: bool, alts: Alts, bs: Blocks)
    requires var e := FirstBranch(base, paren) + LenAlts(alts);
      && GroupOpen(nfa, base, paren, alts, 0) && e <= 0xffff
      && At(nfa, e, Node(BRANCH, 0)) && At(nfa, e + 3, GenSeq(bs, 0)) && |nfa| == e + 3 + LenSeq(bs)
    ensures var p := FirstBranch(base, paren);
      var t, d := LastBranch(p, alts), 3 + LenSeq(LastBlocks(alts));
      && Links(nfa, |base|, p + LenAlts(alts), t, GroupSteps(paren, alts), d)
      && GroupOpen(SetNext(nfa, t, d), base, paren, SnocAlts(alts, bs), 0)
      && |nfa| == p + LenAlts(SnocAlts(alts, bs))
  {
    hide At, OpenAlts, GenSeq, LenSeq, SetNext, LastBranch, LastBlocks, GroupOpen, Links, Node;
    var p := FirstBranch(base, paren);
    var e, t, d := p + LenAlts(alts), LastBranch(p, alts), 3 + LenSeq(LastBlocks(alts));
    LastBranchEnd(p, alts);
    LinkLastBranch(nfa, base, paren, alts);
    AtFrame(nfa, t, d, e, Node(BRANCH, 0));
    AtFrame(nfa, t, d, e + 3, GenSeq(bs, 0));
    GroupOpenSnoc(SetNext(nfa, t, d), base, paren, alts, bs);
  }

  // ----- a branch while its blocks are added

  /** The branch node and the blocks so far; `pre` is where the last of them starts. */
  predicate BranchState(nfa: seq<byte>, base: seq<byte>, acc: Blocks, pre: nat) {
    var c := |base|;
    && At(nfa, 0, base) && At(nfa, c, Node(BRANCH, 0)) && |nfa| == c + 3 + SizeBlocks(acc)
    && (acc.Empty? ==> pre == 0)
    && (acc.Then? ==>
          && At(nfa, c + 3, GenSeq(acc, 0)) && pre + Len(LastBlock(acc)) == |nfa| && pre >= c + 3
          && At(nfa, pre, Gen(LastBlock(acc), 0)))
  }

  lemma FirstBlockAdded(nfa: seq<byte>, was: seq<byte>, base: seq<byte>, b: Re)
    requires BranchState(was, base, Empty, 0) && At(nfa, 0, was) && At(nfa, |was|, Gen(b, 0)) && |nfa| == |was| + Len(b)
    ensures BranchState(nfa, base, Snoc(Empty, b), |was|)
  {
    hide At, Gen;
    AtPrefix(nfa, was, 0, base);
    AtPrefix(nfa, was, |base|, Node(BRANCH, 0));
  }

  lemma {:induction false} LastGap(acc: Blocks)
    requires acc.Then?
    ensures GapSeq(acc) == Gap(LastBlock(acc)) && LenSeq(acc) == SizeBlocks(acc)
  {
    if acc.rest.Then? { LastGap(acc.rest); }
  }

  lemma NextBlockAdded(nfa: seq<byte>, was: seq<byte>, base: seq<byte>, acc: Blocks, pre: nat, b: Re)
    requires acc.Then? && BranchState(was, base, acc, pre) && |was| <= 0xffff
    requires At(nfa, 0, was) && At(nfa, |was|, Gen(b, 0)) && |nfa| == |was| + Len(b)
    ensures var x := LastBlock(acc);
      var t := pre + Last(x);
      && Links(nfa, pre, |was|, t, Steps(x), Gap(x))
      && BranchState(SetNext(nfa, t, Gap(x)), base, Snoc(acc, b), |was|)
  {
    hide At, Gen, GenSeq, Gap, SetNext, Path, EndsWith, Node, Len;
    var x, c := LastBlock(acc), |base|;
    var t, d := pre + Last(x), Gap(x);
    AtPrefix(nfa, was, 0, base);
    AtPrefix(nfa, was, c, Node(BRANCH, 0));
    AtPrefix(nfa, was, c + 3, GenSeq(acc, 0));
    AtPrefix(nfa, was, pre, Gen(x, 0));
    LastGap(acc);
    GenPath(nfa, pre, x, 0);
    LinksForward(nfa, pre, |was|, t, Steps(x));
    RelinkSeq(nfa, c + 3, acc, 0, d);
    var r := SetNext(nfa, t, d);
    AtFrame(nfa, t, d, 0, base);
    AtFrame(nfa, t, d, c, Node(BRANCH, 0));
    AtFrame(nfa, t, d, |was|, Gen(b, 0));
    SnocGen(r, c + 3, acc, b, 0);
    SizeSnoc(acc, b);
    LastOfSnoc(acc, b);
  }

  // ----- the walk that links the operands to the end node

  /** The walk stands at the opening node, at the first branch of `rest`, or at
      the end node e; `done` is the finished code of the branches before. */
  datatype Walk = Opening | InBranches(rest: Alts) | Finished

  predicate WalkState(nfa: seq<byte>, base: seq<byte>, paren: bool, alts: Alts, op: byte, w: Walk, done: seq<byte>,
      here: nat) {
    var p := FirstBranch(base, paren);
    var e, d := p + LenAlts(alts), 3 + LenSeq(LastBlocks(alts));
    && At(nfa, 0, base) && |base| >= START_VALID_POS
    && (paren ==> At(nfa, |base|, Node(PAREN_START, 3)))
    && At(nfa, e, Node(op, 0)) && op != BRANCH && op != BACK && |nfa| == e + NODE_SIZE <= MAX_NFA_LEN
    && At(nfa, p, done)
    && match w
       case Opening => paren && here == |base| && done == [] && OpenAlts(nfa, p, alts, d)
       case InBranches(rest) =>
         here == p + |done| && done + GenAlts(rest, 0) == GenAlts(alts, 0) &&
         OpenAlts(nfa, here, rest, d) && LastBlocks(rest) == LastBlocks(alts)
       case Finished => here == e && done == GenAlts(alts, 0)
  }

  lemma WalkStarts(nfa: seq<byte>, base: seq<byte>, paren: bool, alts: Alts, op: byte)
    requires GroupOpen(nfa, base, paren, alts, 3 + LenSeq(LastBlocks(alts)))
    requires var e := FirstBranch(base, paren) + LenAlts(alts);
      At(nfa, e, Node(op, 0)) && op != BRANCH && op != BACK && |nfa| == e + NODE_SIZE <= MAX_NFA_LEN
    ensures WalkState(nfa, base, paren, alts, op, if paren then Opening else InBranches(alts), [], |base|)
  {
    hide OpenAlts, GenAlts, LenSeq, LastBlocks, LenAlts;
    assert [] + GenAlts(alts, 0) == GenAlts(alts, 0);
  }

  lemma WalkOpening(nfa: seq<byte>, base: seq<byte>, alts: Alts, op: byte, here: nat)
    requires WalkState(nfa, base, true, alts, op, Opening, [], here)
    ensures START_VALID_POS <= here < |nfa| && Op(nfa, here) == PAREN_START && GetNextNodePos(nfa, here) == To(here + 3)
    ensures WalkState(nfa, base, true, alts, op, InBranches(alts), [], here + 3)
  {
    hide OpenAlts, GenAlts, LenSeq, LastBlocks, LenAlts, At;
    NodeIs(nfa, here, PAREN_START, 3);
    assert [] + GenAlts(alts, 0) == GenAlts(alts, 0);
  }

  lemma WalkFinished(nfa: seq<byte>, base: seq<byte>, paren: bool, alts: Alts, op: byte, done: seq<byte>, here: nat)
    requires WalkState(nfa, base, paren, alts, op, Finished, done, here)
    ensures GetNextNodePos(nfa, here) == Fail(NoNextNode)
  {
    hide OpenAlts, GenAlts, LenSeq, LastBlocks, LenAlts, At;
    NodeIs(nfa, here, op, 0);
  }

  lemma RestFits(alts: Alts, rest: Alts, done: seq<byte>)
    requires done + GenAlts(rest, 0) == GenAlts(alts, 0)
    ensures |done| + LenAlts(rest) == LenAlts(alts)
  {
  }

  lemma WalkBranch(
      nfa: seq<byte>, base: seq<byte>, paren: bool, alts: Alts, op: byte, rest: Alts, done: seq<byte>, here: nat)
    returns (w: Walk, done': seq<byte>)
    requires WalkState(nfa, base, paren, alts, op, InBranches(rest), done, here)
    ensures var bs, e := rest.branch, FirstBranch(base, paren) + LenAlts(alts);
      var t, d := here + 3 + LastSeq(bs), OperandGap(rest);
      && START_VALID_POS <= here < |nfa| && Op(nfa, here) == BRANCH
      && GetNextNodePos(nfa, here) == To(here + 3 + LenSeq(bs))
      && Links(nfa, here + 3, e, t, StepsSeq(bs), d)
      && WalkState(SetNext(nfa, t, d), base, paren, alts, op, w, done', here + 3 + LenSeq(bs))
      && !w.Opening?
  {
    hide OpenAlts, GenAlts, LenSeq, LastBlocks, LenAlts, At, GenSeq, GapSeq, Links, SetNext, Node, BranchCode,
      OperandGap;
    var p, bs := FirstBranch(base, paren), rest.branch;
    var e := p + LenAlts(alts);
    var t, d := here + 3 + LastSeq(bs), OperandGap(rest);
    RestFits(alts, rest, done);
    LinkOperand(nfa, here, rest, e);
    ViewNext(nfa, here, BRANCH, here + 3 + LenSeq(bs));
    BranchEnd(rest);
    AtFrame(nfa, t, d, 0, base);
    if paren { AtFrame(nfa, t, d, |base|, Node(PAREN_START, 3)); }
    AtFrame(nfa, t, d, p, done);
    AtFrame(nfa, t, d, e, Node(op, 0));
    var code := BranchCode(GenSeq(bs, d));
    done' := done + code;
    AtJoin(SetNext(nfa, t, d), p, done, code);
    FirstGen(rest);
    w := if rest.Or? then InBranches(rest.others) else Finished;
    if rest.Or? {
      assert done + (code + GenAlts(rest.others, 0)) == done' + GenAlts(rest.others, 0);
      LastOfOthers(rest);
    } else {
      assert code + [] == code;
    }
  }

  lemma ViewNext(nfa: seq<byte>, p: nat, op: byte, q: nat)
    requires View(nfa, p) == Linked(op, q)
    ensures p < |nfa| && Op(nfa, p) == op && GetNextNodePos(nfa, p) == To(q)
  {
  }

  lemma BranchEnd(rest: Alts)
    ensures 3 + LenSeq(rest.branch) <= LenAlts(rest) && NODE_SIZE <= GapSeq(rest.branch) <= LenSeq(rest.branch)
    ensures |BranchCode(GenSeq(rest.branch, OperandGap(rest)))| == 3 + LenSeq(rest.branch)
  {
    hide GenSeq, LenSeq;
  }

  lemma LastOfOthers(rest: Alts)
    requires rest.Or?
    ensures LastBlocks(rest.others) == LastBlocks(rest)
  {
  }

  // ----- a finished group

  /** The branches of a group with every link set, and the node that ends them. */
  predicate GroupClosed(nfa: seq<byte>, base: seq<byte>, paren: bool, alts: Alts, op: byte) {
    var p := FirstBranch(base, paren);
    && At(nfa, 0, base) && (paren ==> At(nfa, |base|, Node(PAREN_START, 3)))
    && At(nfa, p, GenAlts(alts, 0)) && At(nfa, p + LenAlts(alts), Node(op, 0))
    && |nfa| == p + LenAlts(alts) + NODE_SIZE
  }

  lemma WalkEnd(nfa: seq<byte>, base: seq<byte>, paren: bool, alts: Alts, op: byte, done: seq<byte>, here: nat)
    requires WalkState(nfa, base, paren, alts, op, Finished, done, here)
    ensures GroupClosed(nfa, base, paren, alts, op)
  {
    hide OpenAlts, GenAlts, LenSeq, LastBlocks, LenAlts, At;
  }

  lemma ClosedLen(nfa: seq<byte>, base: seq<byte>, paren: bool, alts: Alts, op: byte)
    requires GroupClosed(nfa, base, paren, alts, op)
    ensures |nfa| == FirstBranch(base, paren) + LenAlts(alts) + NODE_SIZE
  {
  }

  lemma GroupLen(r: Parsed<Alts>)
    ensures r.Parsed? ==> Len(Group(r.val)) == LenAlts(r.val) + 6
  {
  }

  lemma FirstBranchAdded(nfa: seq<byte>, was: seq<byte>, base: seq<byte>, paren: bool, bs: Blocks)
    requires was == base + (if paren then Node(PAREN_START, 0) else []) && |base| >= START_VALID_POS
    requires At(nfa, 0, was) && At(nfa, |was|, Node(BRANCH, 0)) && At(nfa, |was| + 3, GenSeq(bs, 0))
    requires |nfa| == |was| + 3 + LenSeq(bs)
    ensures At(nfa, 0, base) && (paren ==> At(nfa, |base|, Node(PAREN_START, 0)))
    ensures !paren ==> GroupOpen(nfa, base, paren, Only(bs), 0)
    ensures FirstBranch(base, paren) == |was| && LenAlts(Only(bs)) == 3 + LenSeq(bs)
  {
    hide At, GenSeq, LenSeq;
    if paren {
      AtAppend(base, 0, base, Node(PAREN_START, 0));
      AtIsSplit(nfa, base, Node(PAREN_START, 0));
    } else {
      assert was == base;
    }
  }

  lemma AtIsSplit(nfa: seq<byte>, a: seq<byte>, b: seq<byte>)
    requires At(nfa, 0, a + b)
    ensures At(nfa, 0, a) && At(nfa, |a|, b)
  {
    AtSplit(nfa, 0, a, b);
  }

  /** The end node has been appended: the last branch is linked to it. */
  lemma LinkEnd(nfa: seq<byte>, base: seq<byte>, paren: bool, alts: Alts, op: byte)
    requires GroupOpen(nfa, base, paren, alts, 0) && op != BRANCH && op != BACK
    requires var e := FirstBranch(base, paren) + LenAlts(alts);
      At(nfa, e, Node(op, 0)) && |nfa| == e + NODE_SIZE <= MAX_NFA_LEN
    ensures var p := FirstBranch(base, paren);
      var t, d := LastBranch(p, alts), 3 + LenSeq(LastBlocks(alts));
      && Links(nfa, |base|, p + LenAlts(alts), t, GroupSteps(paren, alts), d)
      && WalkState(SetNext(nfa, t, d), base, paren, alts, op, if paren then Opening else InBranches(alts), [], |base|)
  {
    hide At, OpenAlts, SetNext, LenAlts, LenSeq, LastBranch, LastBlocks, Links, GroupOpen, WalkState, Node;
    var p := FirstBranch(base, paren);
    var t, d := LastBranch(p, alts), 3 + LenSeq(LastBlocks(alts));
    LinkLastBranch(nfa, base, paren, alts);
    LastBranchEnd(p, alts);
    AtFrame(nfa, t, d, p + LenAlts(alts), Node(op, 0));
    WalkStarts(SetNext(nfa, t, d), base, paren, alts, op);
  }

  // ----- the whole program

  /** The patterns that can be compiled. */
  predicate Accepted(pattern: seq<byte>) {
    var r := ParsePattern(pattern);
    r.Parsed? && |Program(r.val)| < MAX_NFA_LEN
  }

  /** The pattern is a single branch whose code begins with the node of `^`. */
  predicate Anchored(alts: Alts) {
    alts.Only? && alts.branch.Then? && StartsAtBol(alts.branch.first)
  }

  predicate StartsAtBol(r: Re) {
    match r
    case Leaf(sym) => sym.Bol?
    case Plus(b) => StartsAtBol(b)
    case _ => false
  }

  lemma {:induction false} FirstOpcode(r: Re, d: nat)
    ensures Gen(r, d)[0] == BOL <==> StartsAtBol(r)
    decreases r
  {
    if r.Plus? { FirstOpcode(r.body, Gap(r.body)); }
  }

  lemma FirstOpcodeSeq(bs: Blocks, d: nat)
    ensures GenSeq(bs, d)[0] == BOL <==> bs.Then? && StartsAtBol(bs.first)
  {
    hide Gen, StartsAtBol;
    if bs.Then? {
      FirstOpcode(bs.first, d);
      FirstOpcode(bs.first, Gap(bs.first));
    }
  }

  /** The nodes of a program that tell whether the pattern is anchored. */
  lemma FirstNodes(alts: Alts)
    requires |Program(alts)| <= MAX_NFA_LEN
    ensures var nfa, d := Program(alts), 3 + LenSeq(alts.branch);
      && |nfa| >= 12 && Op(nfa, 3) == BRANCH && Next(nfa, 3) == d && 3 + d < |nfa|
      && (Op(nfa, 3 + d) == END <==> alts.Only?)
      && (Op(nfa, 6) == BOL <==> alts.branch.Then? && StartsAtBol(alts.branch.first))
  {
    hide GenSeq, LenSeq, GapSeq, StartsAtBol, GenAlts, OperandGap;
    var nfa, bs, g := Program(alts), alts.branch, OperandGap(alts);
    FirstGen(alts);
    BranchEnd(alts);
    FirstOpcodeSeq(bs, g);
    var more := if alts.Or? then GenAlts(alts.others, 0) else [];
    var code := Node(BRANCH, 3 + LenSeq(bs)) + GenSeq(bs, g) + more;
    assert GenAlts(alts, 0) == code;
    assert nfa[6] == code[3] == GenSeq(bs, g)[0];
    if alts.Or? {
      FirstGen(alts.others);
      assert more[0] == BRANCH;
    }
  }

  lemma ProgramBuilt(nfa: seq<byte>, alts: Alts)
    requires GroupClosed(nfa, Node(INVALID, 0), false, alts, END)
    ensures nfa == Program(alts)
  {
    hide GenAlts, At, LenAlts;
    AtJoin(nfa, 3, GenAlts(alts, 0), Node(END, 0));
    AtIsSuffix(nfa, Node(INVALID, 0), GenAlts(alts, 0) + Node(END, 0));
  }
}
