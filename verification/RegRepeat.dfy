/** The steps by which the compiler wraps the code of an atom into that of a
    repetition: every link it sets, where it sets it and what stands there then. */
module RegRepeat {
  import opened RegSyntax
  import opened RegProgram
  import opened RegSemantics
  import opened RegLayout
  import opened RegLink
  import opened RegRelink

  /** The distance that links node t to node `to`; backward for a BACK node. */
  function LinkDistance(nfa: seq<byte>, t: nat, to: nat): int
    requires t < |nfa|
  {
    if Op(nfa, t) == BACK then t - to else to - t
  }

  function LinkCode(nfa: seq<byte>, t: nat, to: nat): Code
    requires t < |nfa|
  {
    if to >= |nfa| || LinkDistance(nfa, t, to) < 0 then InvalidRange
    else if LinkDistance(nfa, t, to) > 0xffff then InvalidLength
    else Ok
  }

  /** From p, the link to node `to` goes into node t, at distance d. */
  predicate Links(nfa: seq<byte>, p: nat, to: nat, t: nat, n: nat, d: nat) {
    && FirstEmpty(nfa, p, t, n)
    && LinkCode(nfa, t, to) == Ok
    && LinkDistance(nfa, t, to) == d
  }

  lemma LinksForward(nfa: seq<byte>, p: nat, to: nat, t: nat, n: nat)
    requires Path(nfa, p, t, n) && EndsWith(nfa, t, 0) && t <= to < |nfa| && to - t <= 0xffff
    ensures Links(nfa, p, to, t, n, to - t)
  {
    hide Path;
  }

  lemma NodeEnds(nfa: seq<byte>, p: nat, op: byte, d: nat)
    requires At(nfa, p, Node(op, d)) && op != BACK && d <= 0xffff
    ensures EndsWith(nfa, p, d)
  {
    AtNode(nfa, p, op, d);
  }

  // ----- `*`

  /** After the insertion: a branch node, the atom with link g, a jump with link y. */
  predicate StarA(nfa: seq<byte>, base: seq<byte>, b: Re, g: nat, y: nat) {
    var c := |base|;
    && At(nfa, 0, base) && At(nfa, c, Node(BRANCH, 0)) && At(nfa, c + 3, Gen(b, g))
    && At(nfa, c + 3 + Len(b), Node(BACK, y)) && |nfa| == c + Len(b) + 6 <= MAX_NFA_LEN && c >= START_VALID_POS
  }

  /** With the second branch node, whose link is z; x is the link of the first. */
  predicate StarB(nfa: seq<byte>, base: seq<byte>, b: Re, x: nat, z: nat, len: nat) {
    var c := |base|;
    && At(nfa, 0, base) && At(nfa, c, Node(BRANCH, x)) && At(nfa, c + 3, Gen(b, Gap(b)))
    && At(nfa, c + 3 + Len(b), Node(BACK, Len(b) + 3)) && At(nfa, c + 6 + Len(b), Node(BRANCH, z))
    && |nfa| == c + Len(b) + 9 + len <= MAX_NFA_LEN
  }

  lemma StarInsert(nfa: seq<byte>, base: seq<byte>, b: Re)
    requires At(nfa, 0, base) && At(nfa, |base|, Gen(b, 0)) && |nfa| == |base| + Len(b) && |base| >= START_VALID_POS
    ensures var r := Insert(nfa, |base|, Node(BRANCH, 0)) + Node(BACK, 0);
      |r| == |base| + Len(b) + 6 && (|r| <= MAX_NFA_LEN ==> StarA(r, base, b, 0, 0))
  {
    hide Gen, At;
    var r := Insert(nfa, |base|, Node(BRANCH, 0));
    AtInsert(nfa, |base|, Node(BRANCH, 0), base, Gen(b, 0));
    AtAppend(r, 0, base, Node(BACK, 0));
    AtAppend(r, |base|, Node(BRANCH, 0), Node(BACK, 0));
    AtAppend(r, |base| + 3, Gen(b, 0), Node(BACK, 0));
  }

  lemma StarLinkBody(nfa: seq<byte>, base: seq<byte>, b: Re)
    requires StarA(nfa, base, b, 0, 0)
    ensures var t := |base| + 3 + Last(b);
      && Links(nfa, |base| + 3, |base| + 3 + Len(b), t, Steps(b), Gap(b))
      && StarA(SetNext(nfa, t, Gap(b)), base, b, Gap(b), 0)
  {
    hide Gen, At, SetNext, Path, Len, Gap, Node, EndsWith;
    var c := |base|;
    var t := c + 3 + Last(b);
    GenPath(nfa, c + 3, b, 0);
    LinksForward(nfa, c + 3, c + 3 + Len(b), t, Steps(b));
    Relink(nfa, c + 3, b, 0, Gap(b));
    AtFrame(nfa, t, Gap(b), 0, base);
    AtFrame(nfa, t, Gap(b), c, Node(BRANCH, 0));
    AtFrame(nfa, t, Gap(b), c + 3 + Len(b), Node(BACK, 0));
  }

  lemma StarLinkBack(nfa: seq<byte>, base: seq<byte>, b: Re)
    requires StarA(nfa, base, b, Gap(b), 0)
    ensures var back := |base| + 3 + Len(b);
      && Links(nfa, |base| + 3, |base|, back, Steps(b) + 1, Len(b) + 3)
      && StarA(SetNext(nfa, back, Len(b) + 3), base, b, Gap(b), Len(b) + 3)
  {
    hide Gen, At, SetNext, Path, View, Gap, Len, Node;
    var c := |base|;
    var t, back := c + 3 + Last(b), c + 3 + Len(b);
    GenPath(nfa, c + 3, b, Gap(b));
    LinkView(nfa, t, Gap(b));
    OneStep(nfa, t, Op(nfa, t), back);
    PathJoin(nfa, c + 3, t, Steps(b), back, 1);
    AtNode(nfa, back, BACK, 0);
    AtFrame(nfa, back, Len(b) + 3, 0, base);
    AtFrame(nfa, back, Len(b) + 3, c, Node(BRANCH, 0));
    AtFrame(nfa, back, Len(b) + 3, c + 3, Gen(b, Gap(b)));
    AtSetNode(nfa, back, BACK, 0, Len(b) + 3);
  }

  lemma StarAppendBranch(nfa: seq<byte>, base: seq<byte>, b: Re)
    requires StarA(nfa, base, b, Gap(b), Len(b) + 3)
    ensures var r := nfa + Node(BRANCH, 0);
      |r| == |base| + Len(b) + 9 && (|r| <= MAX_NFA_LEN ==> StarB(r, base, b, 0, 0, 0))
  {
    hide Gen, At, Gap, Len, Node;
    var c := |base|;
    AtAppend(nfa, 0, base, Node(BRANCH, 0));
    AtAppend(nfa, c, Node(BRANCH, 0), Node(BRANCH, 0));
    AtAppend(nfa, c + 3, Gen(b, Gap(b)), Node(BRANCH, 0));
    AtAppend(nfa, c + 3 + Len(b), Node(BACK, Len(b) + 3), Node(BRANCH, 0));
  }

  lemma StarLinkBranch(nfa: seq<byte>, base: seq<byte>, b: Re)
    requires StarB(nfa, base, b, 0, 0, 0)
    ensures var c := |base|;
      && Links(nfa, c, c + 6 + Len(b), c, 0, Len(b) + 6)
      && StarB(SetNext(nfa, c, Len(b) + 6), base, b, Len(b) + 6, 0, 0)
  {
    hide Gen, At, SetNext, Gap, Len, Node, EndsWith;
    var c, d := |base|, Len(b) + 6;
    NodeEnds(nfa, c, BRANCH, 0);
    LinksForward(nfa, c, c + d, c, 0);
    AtSetNode(nfa, c, BRANCH, 0, d);
    AtFrame(nfa, c, d, 0, base);
    AtFrame(nfa, c, d, c + 3, Gen(b, Gap(b)));
    AtFrame(nfa, c, d, c + 3 + Len(b), Node(BACK, Len(b) + 3));
    AtFrame(nfa, c, d, c + 6 + Len(b), Node(BRANCH, 0));
  }

  lemma StarAppendNothing(nfa: seq<byte>, base: seq<byte>, b: Re)
    requires StarB(nfa, base, b, Len(b) + 6, 0, 0)
    ensures var r := nfa + Node(NOTHING, 0);
      |r| == |base| + Len(b) + 12 &&
      (|r| <= MAX_NFA_LEN ==> StarB(r, base, b, Len(b) + 6, 0, 3) && At(r, |base| + 9 + Len(b), Node(NOTHING, 0)))
  {
    hide Gen, At, Gap, Len, Node;
    var c, x := |base|, Node(NOTHING, 0);
    AtAppend(nfa, 0, base, x);
    AtAppend(nfa, c, Node(BRANCH, Len(b) + 6), x);
    AtAppend(nfa, c + 3, Gen(b, Gap(b)), x);
    AtAppend(nfa, c + 3 + Len(b), Node(BACK, Len(b) + 3), x);
    AtAppend(nfa, c + 6 + Len(b), Node(BRANCH, 0), x);
  }

  lemma StarLinkNothing(nfa: seq<byte>, base: seq<byte>, b: Re)
    requires StarB(nfa, base, b, Len(b) + 6, 0, 3) && At(nfa, |base| + 9 + Len(b), Node(NOTHING, 0))
    ensures var b2 := |base| + 6 + Len(b);
      && Links(nfa, |base|, b2 + 3, b2, 1, 3)
      && StarB(SetNext(nfa, b2, 3), base, b, Len(b) + 6, 3, 3)
      && At(SetNext(nfa, b2, 3), b2 + 3, Node(NOTHING, 0))
  {
    hide Gen, At, SetNext, Path, View, Gap, Len, Node, EndsWith;
    var c, x := |base|, Node(NOTHING, 0);
    var b2 := c + 6 + Len(b);
    NodeEnds(nfa, c, BRANCH, Len(b) + 6);
    LinkView(nfa, c, Len(b) + 6);
    OneStep(nfa, c, Op(nfa, c), b2);
    NodeEnds(nfa, b2, BRANCH, 0);
    LinksForward(nfa, c, b2 + 3, b2, 1);
    AtSetNode(nfa, b2, BRANCH, 0, 3);
    AtFrame(nfa, b2, 3, 0, base);
    AtFrame(nfa, b2, 3, c, Node(BRANCH, Len(b) + 6));
    AtFrame(nfa, b2, 3, c + 3, Gen(b, Gap(b)));
    AtFrame(nfa, b2, 3, c + 3 + Len(b), Node(BACK, Len(b) + 3));
    AtFrame(nfa, b2, 3, b2 + 3, x);
  }

  lemma StarBuilt(nfa: seq<byte>, base: seq<byte>, b: Re)
    requires StarB(nfa, base, b, Len(b) + 6, 3, 3) && At(nfa, |base| + 9 + Len(b), Node(NOTHING, 0))
    ensures At(nfa, 0, base) && At(nfa, |base|, Gen(Star(b), 0)) && |nfa| == |base| + Len(Star(b))
  {
    hide At, Node, Gap, Gen, Len;
    GenStar(b, 0);
    var c, body := |base|, Gen(b, Gap(b));
    assert |body| == Len(b);
    AtJoin(nfa, c + 6 + Len(b), Node(BRANCH, 3), Node(NOTHING, 0));
    AtJoin(nfa, c + 3 + Len(b), Node(BACK, Len(b) + 3), Node(BRANCH, 3) + Node(NOTHING, 0));
    AtJoin(nfa, c + 3, body, LoopTailCode(Len(b) + 3, 0));
    AtJoin(nfa, c, Node(BRANCH, Len(b) + 6), body + LoopTailCode(Len(b) + 3, 0));
  }

  // ----- `+`: k nodes have been appended; g, x, y, z are the links of the atom,
  // the first branch, the jump and the second branch

  predicate PlusState(nfa: seq<byte>, base: seq<byte>, b: Re, g: nat, x: nat, y: nat, z: nat, k: nat) {
    var c, b1 := |base|, |base| + Len(b);
    && At(nfa, 0, base) && At(nfa, c, Gen(b, g)) && c >= START_VALID_POS
    && (k >= 1 ==> At(nfa, b1, Node(BRANCH, x)))
    && (k >= 2 ==> At(nfa, b1 + 3, Node(BACK, y)))
    && (k >= 3 ==> At(nfa, b1 + 6, Node(BRANCH, z)))
    && (k >= 4 ==> At(nfa, b1 + 9, Node(NOTHING, 0)))
    && |nfa| == b1 + 3 * k
  }

  function PlusOp(k: nat): byte { if k == 1 then BACK else if k == 3 then NOTHING else BRANCH }

  lemma PlusAppend(nfa: seq<byte>, base: seq<byte>, b: Re, g: nat, x: nat, y: nat, z: nat, k: nat)
    requires PlusState(nfa, base, b, g, x, y, z, k) && k < 4
    ensures PlusState(nfa + Node(PlusOp(k), 0), base, b, g,
                      if k == 0 then 0 else x, if k == 1 then 0 else y, if k == 2 then 0 else z, k + 1)
  {
    hide Gen, At, Len, Node;
    var c, b1, n := |base|, |base| + Len(b), Node(PlusOp(k), 0);
    AtAppend(nfa, 0, base, n);
    AtAppend(nfa, c, Gen(b, g), n);
    if k >= 1 { AtAppend(nfa, b1, Node(BRANCH, x), n); }
    if k >= 2 { AtAppend(nfa, b1 + 3, Node(BACK, y), n); }
    if k >= 3 { AtAppend(nfa, b1 + 6, Node(BRANCH, z), n); }
  }

  lemma PlusLinkBody(nfa: seq<byte>, base: seq<byte>, b: Re)
    requires PlusState(nfa, base, b, 0, 0, 0, 0, 1) && |nfa| <= MAX_NFA_LEN
    ensures var t := |base| + Last(b);
      && Links(nfa, |base|, |base| + Len(b), t, Steps(b), Gap(b))
      && PlusState(SetNext(nfa, t, Gap(b)), base, b, Gap(b), 0, 0, 0, 1)
  {
    hide Gen, At, SetNext, Path, Len, Gap, Node, EndsWith;
    var c := |base|;
    var t := c + Last(b);
    GenPath(nfa, c, b, 0);
    LinksForward(nfa, c, c + Len(b), t, Steps(b));
    Relink(nfa, c, b, 0, Gap(b));
    AtFrame(nfa, t, Gap(b), 0, base);
    AtFrame(nfa, t, Gap(b), c + Len(b), Node(BRANCH, 0));
  }

  lemma PlusLinkBack(nfa: seq<byte>, base: seq<byte>, b: Re)
    requires PlusState(nfa, base, b, Gap(b), 0, 0, 0, 2) && |nfa| <= MAX_NFA_LEN
    ensures var c, back := |base|, |base| + Len(b) + 3;
      && Links(nfa, back, c, back, 0, Len(b) + 3)
      && PlusState(SetNext(nfa, back, Len(b) + 3), base, b, Gap(b), 0, Len(b) + 3, 0, 2)
  {
    hide Gen, At, SetNext, Len, Gap, Node;
    var c, back, d := |base|, |base| + Len(b) + 3, Len(b) + 3;
    AtNode(nfa, back, BACK, 0);
    AtSetNode(nfa, back, BACK, 0, d);
    AtFrame(nfa, back, d, 0, base);
    AtFrame(nfa, back, d, c, Gen(b, Gap(b)));
    AtFrame(nfa, back, d, c + Len(b), Node(BRANCH, 0));
  }

  lemma PlusLinkBranch(nfa: seq<byte>, base: seq<byte>, b: Re, y: nat)
    requires PlusState(nfa, base, b, Gap(b), 0, y, 0, 3) && |nfa| <= MAX_NFA_LEN
    ensures var c, b1 := |base|, |base| + Len(b);
      && Links(nfa, b1, b1 + 6, b1, 0, 6)
      && PlusState(SetNext(nfa, b1, 6), base, b, Gap(b), 6, y, 0, 3)
  {
    hide Gen, At, SetNext, Len, Gap, Node, EndsWith;
    var c, b1 := |base|, |base| + Len(b);
    NodeEnds(nfa, b1, BRANCH, 0);
    LinksForward(nfa, b1, b1 + 6, b1, 0);
    AtSetNode(nfa, b1, BRANCH, 0, 6);
    AtFrame(nfa, b1, 6, 0, base);
    AtFrame(nfa, b1, 6, c, Gen(b, Gap(b)));
    AtFrame(nfa, b1, 6, b1 + 3, Node(BACK, y));
    AtFrame(nfa, b1, 6, b1 + 6, Node(BRANCH, 0));
  }

  lemma PlusLinkNothing(nfa: seq<byte>, base: seq<byte>, b: Re, x: nat, y: nat)
    requires PlusState(nfa, base, b, Gap(b), x, y, 0, 4) && |nfa| <= MAX_NFA_LEN
    ensures var c, b2 := |base|, |base| + Len(b) + 6;
      && Links(nfa, b2, b2 + 3, b2, 0, 3)
      && PlusState(SetNext(nfa, b2, 3), base, b, Gap(b), x, y, 3, 4)
  {
    hide Gen, At, SetNext, Len, Gap, Node, EndsWith;
    var c, b1, b2 := |base|, |base| + Len(b), |base| + Len(b) + 6;
    NodeEnds(nfa, b2, BRANCH, 0);
    LinksForward(nfa, b2, b2 + 3, b2, 0);
    AtSetNode(nfa, b2, BRANCH, 0, 3);
    AtFrame(nfa, b2, 3, 0, base);
    AtFrame(nfa, b2, 3, c, Gen(b, Gap(b)));
    AtFrame(nfa, b2, 3, b1, Node(BRANCH, x));
    AtFrame(nfa, b2, 3, b1 + 3, Node(BACK, y));
    AtFrame(nfa, b2, 3, b2 + 3, Node(NOTHING, 0));
  }

  lemma PlusBuilt(nfa: seq<byte>, base: seq<byte>, b: Re)
    requires PlusState(nfa, base, b, Gap(b), 6, Len(b) + 3, 3, 4)
    ensures At(nfa, 0, base) && At(nfa, |base|, Gen(Plus(b), 0)) && |nfa| == |base| + Len(Plus(b))
  {
    hide At, Node, Gap, Gen, Len;
    GenPlus(b, 0);
    var c, body := |base|, Gen(b, Gap(b));
    var b1 := c + Len(b);
    assert |body| == Len(b);
    AtJoin(nfa, b1 + 6, Node(BRANCH, 3), Node(NOTHING, 0));
    AtJoin(nfa, b1 + 3, Node(BACK, Len(b) + 3), Node(BRANCH, 3) + Node(NOTHING, 0));
    AtJoin(nfa, b1, Node(BRANCH, 6), LoopTailCode(Len(b) + 3, 0));
    AtJoin(nfa, c, body, Node(BRANCH, 6) + LoopTailCode(Len(b) + 3, 0));
  }

  // ----- `?`: k nodes have been appended after the insertion; x, g, z are the
  // links of the inserted branch, the atom and the second branch

  predicate OptState(nfa: seq<byte>, base: seq<byte>, b: Re, x: nat, g: nat, z: nat, k: nat) {
    var c, b2 := |base|, |base| + 3 + Len(b);
    && At(nfa, 0, base) && At(nfa, c, Node(BRANCH, x)) && At(nfa, c + 3, Gen(b, g)) && c >= START_VALID_POS
    && (k >= 1 ==> At(nfa, b2, Node(BRANCH, z)))
    && (k >= 2 ==> At(nfa, b2 + 3, Node(NOTHING, 0)))
    && |nfa| == b2 + 3 * k
  }

  lemma OptInsert(nfa: seq<byte>, base: seq<byte>, b: Re)
    requires At(nfa, 0, base) && At(nfa, |base|, Gen(b, 0)) && |nfa| == |base| + Len(b) && |base| >= START_VALID_POS
    ensures OptState(Insert(nfa, |base|, Node(BRANCH, 0)), base, b, 0, 0, 0, 0)
  {
    hide Gen, At;
    AtInsert(nfa, |base|, Node(BRANCH, 0), base, Gen(b, 0));
  }

  function OptOp(k: nat): byte { if k == 0 then BRANCH else NOTHING }

  lemma OptAppend(nfa: seq<byte>, base: seq<byte>, b: Re, x: nat, g: nat, z: nat, k: nat)
    requires OptState(nfa, base, b, x, g, z, k) && k < 2
    ensures OptState(nfa + Node(OptOp(k), 0), base, b, x, g, if k == 0 then 0 else z, k + 1)
  {
    hide Gen, At, Len, Node;
    var c, b2, n := |base|, |base| + 3 + Len(b), Node(OptOp(k), 0);
    AtAppend(nfa, 0, base, n);
    AtAppend(nfa, c, Node(BRANCH, x), n);
    AtAppend(nfa, c + 3, Gen(b, g), n);
    if k >= 1 { AtAppend(nfa, b2, Node(BRANCH, z), n); }
  }

  lemma OptLinkBranch(nfa: seq<byte>, base: seq<byte>, b: Re)
    requires OptState(nfa, base, b, 0, 0, 0, 1) && |nfa| <= MAX_NFA_LEN
    ensures var c, d := |base|, Len(b) + 3;
      && Links(nfa, c, c + d, c, 0, d)
      && OptState(SetNext(nfa, c, d), base, b, d, 0, 0, 1)
  {
    hide Gen, At, SetNext, Len, Gap, Node, EndsWith;
    var c, d := |base|, Len(b) + 3;
    NodeEnds(nfa, c, BRANCH, 0);
    LinksForward(nfa, c, c + d, c, 0);
    AtSetNode(nfa, c, BRANCH, 0, d);
    AtFrame(nfa, c, d, 0, base);
    AtFrame(nfa, c, d, c + 3, Gen(b, 0));
    AtFrame(nfa, c, d, c + d, Node(BRANCH, 0));
  }

  lemma OptLinkNothing(nfa: seq<byte>, base: seq<byte>, b: Re)
    requires OptState(nfa, base, b, Len(b) + 3, 0, 0, 2) && |nfa| <= MAX_NFA_LEN
    ensures var c, b2 := |base|, |base| + 3 + Len(b);
      && Links(nfa, c, b2 + 3, b2, 1, 3)
      && OptState(SetNext(nfa, b2, 3), base, b, Len(b) + 3, 0, 3, 2)
  {
    hide Gen, At, SetNext, Path, View, Len, Gap, Node, EndsWith;
    var c, b2 := |base|, |base| + 3 + Len(b);
    NodeEnds(nfa, c, BRANCH, Len(b) + 3);
    LinkView(nfa, c, Len(b) + 3);
    OneStep(nfa, c, Op(nfa, c), b2);
    NodeEnds(nfa, b2, BRANCH, 0);
    LinksForward(nfa, c, b2 + 3, b2, 1);
    AtSetNode(nfa, b2, BRANCH, 0, 3);
    AtFrame(nfa, b2, 3, 0, base);
    AtFrame(nfa, b2, 3, c, Node(BRANCH, Len(b) + 3));
    AtFrame(nfa, b2, 3, c + 3, Gen(b, 0));
    AtFrame(nfa, b2, 3, b2 + 3, Node(NOTHING, 0));
  }

  lemma OptLinkBody(nfa: seq<byte>, base: seq<byte>, b: Re)
    requires OptState(nfa, base, b, Len(b) + 3, 0, 3, 2) && |nfa| <= MAX_NFA_LEN
    ensures var c, t := |base|, |base| + 3 + Last(b);
      && Links(nfa, c + 3, c + 6 + Len(b), t, Steps(b), Gap(b) + 3)
      && OptState(SetNext(nfa, t, Gap(b) + 3), base, b, Len(b) + 3, Gap(b) + 3, 3, 2)
  {
    hide Gen, At, SetNext, Path, Len, Gap, Node, EndsWith;
    var c, t, d := |base|, |base| + 3 + Last(b), Gap(b) + 3;
    GenPath(nfa, c + 3, b, 0);
    LinksForward(nfa, c + 3, c + 6 + Len(b), t, Steps(b));
    Relink(nfa, c + 3, b, 0, d);
    AtFrame(nfa, t, d, 0, base);
    AtFrame(nfa, t, d, c, Node(BRANCH, Len(b) + 3));
    AtFrame(nfa, t, d, c + 3 + Len(b), Node(BRANCH, 3));
    AtFrame(nfa, t, d, c + 6 + Len(b), Node(NOTHING, 0));
  }

  lemma OptBuilt(nfa: seq<byte>, base: seq<byte>, b: Re)
    requires OptState(nfa, base, b, Len(b) + 3, Gap(b) + 3, 3, 2)
    ensures At(nfa, 0, base) && At(nfa, |base|, Gen(Opt(b), 0)) && |nfa| == |base| + Len(Opt(b))
  {
    hide At, Node, Gap, Gen, Len;
    GenOpt(b, 0);
    var c, body := |base|, Gen(b, Gap(b) + 3);
    assert |body| == Len(b);
    AtJoin(nfa, c + 3 + Len(b), Node(BRANCH, 3), Node(NOTHING, 0));
    AtJoin(nfa, c + 3, body, Node(BRANCH, 3) + Node(NOTHING, 0));
    AtJoin(nfa, c, Node(BRANCH, Len(b) + 3), body + (Node(BRANCH, 3) + Node(NOTHING, 0)));
  }
}
