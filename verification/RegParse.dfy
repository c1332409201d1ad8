/** How the parser's results are assembled from left to right, and how long the
    code of the parts is. */
module RegParse {
  import opened RegSyntax
  import opened RegProgram
  import opened RegLayout
  import opened RegRelink

  function AppendBlocks(acc: Blocks, bs: Blocks): Blocks {
    match acc
    case Empty => bs
    case Then(b, rest) => Then(b, AppendBlocks(rest, bs))
  }

  function AppendAlts(acc: Alts, alts: Alts): Alts {
    match acc
    case Only(bs) => Or(bs, alts)
    case Or(bs, others) => Or(bs, AppendAlts(others, alts))
  }

  function AfterBlocks(acc: Blocks, r: Parsed<Blocks>): Parsed<Blocks> {
    if r.Parsed? then Parsed(AppendBlocks(acc, r.val), r.idx, r.parens) else r
  }

  function AfterBranches(acc: Alts, r: Parsed<Alts>): Parsed<Alts> {
    if r.Parsed? then Parsed(AppendAlts(acc, r.val), r.idx, r.parens) else r
  }

  lemma {:induction false} SnocAppend(acc: Blocks, b: Re, bs: Blocks)
    ensures AppendBlocks(acc, Then(b, bs)) == AppendBlocks(Snoc(acc, b), bs)
    ensures AppendBlocks(acc, Empty) == acc
  {
    if acc.Then? { SnocAppend(acc.rest, b, bs); }
  }

  lemma {:induction false} SnocAltsAppend(acc: Alts, bs: Blocks, alts: Alts)
    ensures AppendAlts(acc, Or(bs, alts)) == AppendAlts(SnocAlts(acc, bs), alts)
    ensures AppendAlts(acc, Only(bs)) == SnocAlts(acc, bs)
  {
    if acc.Or? { SnocAltsAppend(acc.others, bs, alts); }
  }

  function SizeBlocks(bs: Blocks): nat { if bs.Empty? then 0 else Len(bs.first) + SizeBlocks(bs.rest) }

  lemma {:induction false} SizeIsLen(bs: Blocks)
    ensures LenSeq(bs) == if bs.Empty? then NODE_SIZE else SizeBlocks(bs)
  {
    if bs.Then? { SizeIsLen(bs.rest); }
  }

  lemma {:induction false} SizeAppend(acc: Blocks, bs: Blocks)
    ensures SizeBlocks(AppendBlocks(acc, bs)) == SizeBlocks(acc) + SizeBlocks(bs)
  {
    if acc.Then? { SizeAppend(acc.rest, bs); }
  }

  lemma {:induction false} SizeSnoc(acc: Blocks, b: Re)
    ensures SizeBlocks(Snoc(acc, b)) == SizeBlocks(acc) + Len(b)
  {
    if acc.Then? { SizeSnoc(acc.rest, b); }
  }

  lemma {:induction false} LenAppendAlts(acc: Alts, alts: Alts)
    ensures LenAlts(AppendAlts(acc, alts)) == LenAlts(acc) + LenAlts(alts)
  {
    hide LenSeq;
    if acc.Or? { LenAppendAlts(acc.others, alts); }
  }

  function LastBlock(bs: Blocks): Re
    requires bs.Then?
  {
    if bs.rest.Empty? then bs.first else LastBlock(bs.rest)
  }

  lemma {:induction false} LastOfSnoc(bs: Blocks, b: Re)
    ensures LastBlock(Snoc(bs, b)) == b && Snoc(bs, b).Then?
    ensures LenSeq(Snoc(bs, b)) == SizeBlocks(bs) + Len(b) && GapSeq(Snoc(bs, b)) == Gap(b)
  {
    if bs.Then? {
      LastOfSnoc(bs.rest, b);
    }
  }

  /** The compiler gave up: the pattern is not in the grammar, or it is and its
      code is too long. */
  predicate Refused<T>(ret: Code, r: Parsed<T>, size: nat) {
    r == Error(ret) || (ret == InvalidLength && (r.Parsed? ==> size >= MAX_NFA_LEN))
  }

  /** The branches after those already read. */
  function RestOfBranches(acc: Alts, s: seq<byte>, i: nat, parens: nat): Parsed<Alts>
    requires i <= |s|
  {
    if CharAt(s, i) == BAR then AfterBranches(acc, ParseBranches(s, i + 1, parens)) else Parsed(acc, i, parens)
  }

  lemma StartBranches(s: seq<byte>, i: nat, parens: nat, size: nat)
    requires i <= |s|
    ensures var r, whole := ParseBranch(s, i, parens), ParseBranches(s, i, parens);
      && (r.Parsed? ==> whole == RestOfBranches(Only(r.val), s, r.idx, r.parens))
      && (whole.Parsed? ==> r.Parsed? && size + LenAlts(whole.val) >= size + 3 + LenSeq(r.val))
      && (r.Error? ==> whole == Error(r.code))
      && (r.Hangs? ==> whole == Hangs)
  {
  }

  lemma NextBranch(acc: Alts, s: seq<byte>, i: nat, parens: nat)
    requires i <= |s| && CharAt(s, i) == BAR
    ensures var r, whole := ParseBranch(s, i + 1, parens), RestOfBranches(acc, s, i, parens);
      && (r.Parsed? ==> whole == RestOfBranches(SnocAlts(acc, r.val), s, r.idx, r.parens))
      && (whole.Parsed? ==> r.Parsed? && LenAlts(whole.val) >= LenAlts(acc) + 3 + LenSeq(r.val))
      && (r.Error? ==> whole == Error(r.code))
      && (r.Hangs? ==> whole == Hangs)
  {
    var r := ParseBranch(s, i + 1, parens);
    if r.Parsed? {
      var rest := ParseBranches(s, i + 1, parens);
      if rest.Parsed? { LenAppendAlts(acc, rest.val); }
      if CharAt(s, r.idx) == BAR {
        var more := ParseBranches(s, r.idx + 1, r.parens);
        if more.Parsed? { SnocAltsAppend(acc, r.val, more.val); }
      } else {
        SnocAltsAppend(acc, r.val, Only(r.val));
      }
    }
  }

  lemma NoMoreBranches(acc: Alts, s: seq<byte>, i: nat, parens: nat)
    requires i <= |s| && CharAt(s, i) != BAR
    ensures RestOfBranches(acc, s, i, parens) == Parsed(acc, i, parens)
  {
  }
}
