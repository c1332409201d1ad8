/** The class of base/simple_reg.cc. */
module SimpleReg {
  import opened RegSyntax
  import opened RegProgram
  import opened RegSemantics
  import opened RegLayout
  import opened RegLink
  import opened RegRelink
  import opened RegRepeat
  import opened RegGroup
  import opened RegParse
  import opened RegTheorems

  class RegExp {
    const pattern: seq<byte>
    var nfa: seq<byte>
    var parseIndex: nat
    var parenNum: nat
    var justCheckBol: bool

    constructor (pattern: seq<byte>)
      ensures this.pattern == pattern && nfa == [] && parseIndex == 0 && parenNum == 0 && !justCheckBol
    {
      this.pattern := pattern;
      nfa, parseIndex, parenNum, justCheckBol := [], 0, 0, false;
    }

    // ----- emitting nodes and characters

    method AppendNode(op: byte) returns (ret: Code, pos: nat)
      modifies this`nfa
      ensures nfa == old(nfa) + Node(op, 0) && pos == |old(nfa)|
      ensures ret == if |nfa| >= MAX_NFA_LEN then InvalidLength else Ok
    {
      pos := |nfa|;
      nfa := nfa + Node(op, 0);
      ret := if |nfa| >= MAX_NFA_LEN then InvalidLength else Ok;
    }

    method AppendChar(c: byte)
      modifies this`nfa
      ensures nfa == old(nfa) + [c]
    {
      nfa := nfa + [c];
    }

    method InsertNode(pos: nat, op: byte) returns (ret: Code)
      requires pos <= |nfa|
      modifies this`nfa
      ensures pos >= START_VALID_POS ==> ret == Ok && nfa == Insert(old(nfa), pos, Node(op, 0))
      ensures pos < START_VALID_POS ==> ret == InvalidParam && nfa == old(nfa)
    {
      if pos < START_VALID_POS { return InvalidParam; }
      nfa := nfa[..pos] + Node(op, 0) + nfa[pos..];
      return Ok;
    }

    // ----- links

    /** Follows the links from p until a node without one; t is that node. */
    method GetFirstEmptyNextNodePos(p: nat, ghost t: nat, ghost n: nat) returns (pos: nat)
      requires FirstEmpty(nfa, p, t, n)
      ensures pos == t
    {
      pos := p;
      ghost var k := n;
      if n > 0 { assert p + NODE_SIZE <= |nfa|; }
      while Next(nfa, pos) != 0
        invariant pos + NODE_SIZE <= |nfa| && FirstEmpty(nfa, pos, t, k)
        decreases k
      {
        assert k > 0 && View(nfa, pos).Linked? && Path(nfa, View(nfa, pos).next, t, k - 1);
        var d := Next(nfa, pos);
        pos := if Op(nfa, pos) == BACK then pos - d else pos + d;
        k := k - 1;
        if k > 0 { assert View(nfa, pos).Linked?; }
      }
    }

    method LinkNode(first: nat, second: nat, ghost t: nat, ghost n: nat) returns (ret: Code)
      requires FirstEmpty(nfa, first, t, n)
      modifies this`nfa
      ensures ret == LinkCode(old(nfa), t, second)
      ensures nfa == if ret == Ok then SetNext(old(nfa), t, LinkDistance(old(nfa), t, second)) else old(nfa)
    {
      var e := GetFirstEmptyNextNodePos(first, t, n);
      if second >= |nfa| { return InvalidRange; }
      var distance: nat;
      if Op(nfa, e) == BACK {
        if e < second { return InvalidRange; }
        distance := e - second;
      } else {
        if second < e { return InvalidRange; }
        distance := second - e;
      }
      if distance > 0xffff { return InvalidLength; }
      nfa := SetNext(nfa, e, distance);
      return Ok;
    }

    /** Links the operand of a branch; any other node is left alone. */
    method LinkOperandNode(first: nat, second: nat, ghost t: nat, ghost n: nat) returns (ret: Code)
      requires first < |nfa| && first >= START_VALID_POS
      requires Op(nfa, first) == BRANCH ==> FirstEmpty(nfa, first + NODE_SIZE, t, n)
      modifies this`nfa
      ensures Op(old(nfa), first) != BRANCH ==> ret == Ok && nfa == old(nfa)
      ensures Op(old(nfa), first) == BRANCH ==>
        ret == LinkCode(old(nfa), t, second) &&
        nfa == (if ret == Ok then SetNext(old(nfa), t, LinkDistance(old(nfa), t, second)) else old(nfa))
    {
      if Op(nfa, first) != BRANCH { return Ok; }
      ret := LinkNode(first + NODE_SIZE, second, t, n);
    }

    // ----- repetitions

    ghost predicate Atom(base: seq<byte>, b: Re)
      reads this`nfa
    {
      At(nfa, 0, base) && At(nfa, |base|, Gen(b, 0)) && |nfa| == |base| + Len(b) && |base| >= START_VALID_POS
    }

    method RepeatStar(c: nat, ghost base: seq<byte>, ghost b: Re) returns (ret: Code)
      requires Atom(base, b) && c == |base|
      modifies this`nfa
      ensures ret == Ok ==> Atom(base, Star(b))
      ensures ret != Ok ==> ret == InvalidLength && |base| + Len(Star(b)) >= MAX_NFA_LEN
    {
      hide At, Gen, SetNext, Path, StarA, StarB, Node, Gap, FirstEmpty, LinkCode, LinkDistance, Insert, View, Steps;
      StarInsert(nfa, base, b);
      ret := InsertNode(c, BRANCH);
      var back, branch, nothing;
      ret, back := AppendNode(BACK);
      if ret != Ok { return; }
      StarLinkBody(nfa, base, b);
      OperandOf(nfa, base, b, 0, 0);
      ret := LinkOperandNode(c, back, c + 3 + Last(b), Steps(b));
      StarLinkBack(nfa, base, b);
      OperandOf(nfa, base, b, Gap(b), 0);
      ret := LinkOperandNode(c, c, back, Steps(b) + 1);
      StarAppendBranch(nfa, base, b);
      ret, branch := AppendNode(BRANCH);
      if ret != Ok { return; }
      StarLinkBranch(nfa, base, b);
      ret := LinkNode(c, branch, c, 0);
      StarAppendNothing(nfa, base, b);
      ret, nothing := AppendNode(NOTHING);
      if ret != Ok { return; }
      StarLinkNothing(nfa, base, b);
      ret := LinkNode(c, nothing, branch, 1);
      StarBuilt(nfa, base, b);
    }

    method RepeatPlus(c: nat, ghost base: seq<byte>, ghost b: Re) returns (ret: Code)
      requires Atom(base, b) && c == |base|
      modifies this`nfa
      ensures ret == Ok ==> Atom(base, Plus(b))
      ensures ret != Ok ==> ret == InvalidLength && |base| + Len(Plus(b)) >= MAX_NFA_LEN
    {
      hide At, Gen, SetNext, Path, Node, Gap, FirstEmpty, LinkCode, LinkDistance, View, Steps;
      var branch, back, branch2, nothing;
      PlusAppend(nfa, base, b, 0, 0, 0, 0, 0);
      ret, branch := AppendNode(BRANCH);
      if ret != Ok { return; }
      PlusLinkBody(nfa, base, b);
      ret := LinkNode(c, branch, c + Last(b), Steps(b));
      PlusAppend(nfa, base, b, Gap(b), 0, 0, 0, 1);
      ret, back := AppendNode(BACK);
      if ret != Ok { return; }
      PlusLinkBack(nfa, base, b);
      ret := LinkNode(back, c, back, 0);
      PlusAppend(nfa, base, b, Gap(b), 0, Len(b) + 3, 0, 2);
      ret, branch2 := AppendNode(BRANCH);
      if ret != Ok { return; }
      PlusLinkBranch(nfa, base, b, Len(b) + 3);
      ret := LinkNode(branch, branch2, branch, 0);
      PlusAppend(nfa, base, b, Gap(b), 6, Len(b) + 3, 0, 3);
      ret, nothing := AppendNode(NOTHING);
      if ret != Ok { return; }
      PlusLinkNothing(nfa, base, b, 6, Len(b) + 3);
      ret := LinkNode(branch2, nothing, branch2, 0);
      PlusBuilt(nfa, base, b);
    }

    method RepeatOpt(c: nat, ghost base: seq<byte>, ghost b: Re) returns (ret: Code)
      requires Atom(base, b) && c == |base|
      modifies this`nfa
      ensures ret == Ok ==> Atom(base, Opt(b))
      ensures ret != Ok ==> ret == InvalidLength && |base| + Len(Opt(b)) >= MAX_NFA_LEN
    {
      hide At, Gen, SetNext, Path, Node, Gap, FirstEmpty, LinkCode, LinkDistance, Insert, View, Steps;
      var branch, nothing;
      OptInsert(nfa, base, b);
      ret := InsertNode(c, BRANCH);
      OptAppend(nfa, base, b, 0, 0, 0, 0);
      ret, branch := AppendNode(BRANCH);
      if ret != Ok { return; }
      OptLinkBranch(nfa, base, b);
      ret := LinkNode(c, branch, c, 0);
      OptAppend(nfa, base, b, Len(b) + 3, 0, 0, 1);
      ret, nothing := AppendNode(NOTHING);
      if ret != Ok { return; }
      OptLinkNothing(nfa, base, b);
      ret := LinkNode(c, nothing, branch, 1);
      OptLinkBody(nfa, base, b);
      OptBranch(nfa, base, b);
      ret := LinkOperandNode(c, nothing, c + 3 + Last(b), Steps(b));
      OptBuilt(nfa, base, b);
    }

    // ----- atoms

    predicate Ready()
      reads this`parseIndex, this`nfa
    {
      parseIndex <= |pattern| && |nfa| >= START_VALID_POS
    }

    /** What every method that compiles one block or atom achieves: the code of
        the tree that the parser finds is appended to `base`, or the pattern is refused. */
    ghost predicate Compiled(base: seq<byte>, r: Parsed<Re>, ret: Code, pos: nat)
      reads this`parseIndex, this`nfa, this`parenNum
    {
      if ret == Ok then
        r.Parsed? && r.idx == parseIndex && r.parens == parenNum && pos == |base| < MAX_NFA_LEN && Atom(base, r.val)
      else Refused(ret, r, if r.Parsed? then |base| + Len(r.val) else 0)
    }

    method ProcessSymbol(op: byte, ghost sym: Symbol) returns (ret: Code, pos: nat)
      requires |nfa| >= START_VALID_POS && op == OpOf(sym) && Operand(sym) == []
      modifies this`nfa
      ensures pos == |old(nfa)|
      ensures ret == Ok ==> Atom(old(nfa), Leaf(sym)) && pos < MAX_NFA_LEN
      ensures ret != Ok ==> ret == InvalidLength && |old(nfa)| + Len(Leaf(sym)) >= MAX_NFA_LEN
    {
      hide At;
      ret, pos := AppendNode(op);
      LeafBuilt(old(nfa), sym, nfa);
    }

    /** Adds the characters above `lo` up to `hi`, compared as `char` values. */
    method AppendInterval(lo: byte, hi: byte)
      requires Signed(lo) <= Signed(hi) < 127
      modifies this`nfa
      ensures nfa == old(nfa) + ItemChars(Upto(lo, hi))
    {
      var c := Signed(lo) + 1;
      while c <= Signed(hi)
        invariant -128 <= c <= Signed(hi) + 1
        invariant nfa + Interval(c, Signed(hi)) == old(nfa) + Interval(Signed(lo) + 1, Signed(hi))
      {
        AppendChar(FromSigned(c));
        c := c + 1;
      }
      assert Interval(c, Signed(hi)) == [];
    }

    /** One item of a bracket expression; ch is its first character, already consumed. */
    method ProcessItem(ch: byte) returns (ret: Code, ghost item: ClassItem)
      requires 2 <= parseIndex <= |pattern| && ch == pattern[parseIndex - 1] && ch != NUL && ch != RBRACKET
      requires !ParseItems(pattern, parseIndex - 1, parenNum).Hangs?
      modifies this`nfa, this`parseIndex
      ensures var r := ParseItems(pattern, old(parseIndex) - 1, parenNum);
        if ret == Ok then
          old(parseIndex) <= parseIndex <= |pattern| && nfa == old(nfa) + ItemChars(item)
          && r == Prepend([item], ParseItems(pattern, parseIndex, parenNum))
        else r == Error(ret)
    {
      hide Interval;
      if ch != DASH {
        AppendChar(ch);
        return Ok, Single(ch);
      }
      var hi := CharAt(pattern, parseIndex);
      if hi == RBRACKET || hi == NUL {
        AppendChar(DASH);
        return Ok, Single(DASH);
      }
      var lo := pattern[parseIndex - 2];
      if Signed(lo) > Signed(hi) { return InvalidRange, Single(ch); }
      AppendInterval(lo, hi);
      parseIndex := parseIndex + 1;
      return Ok, Upto(lo, hi);
    }

    /** The items of a bracket expression, up to the closing bracket. */
    method ProcessItems() returns (ret: Code)
      requires 1 <= parseIndex <= |pattern| && !ParseItems(pattern, parseIndex, parenNum).Hangs?
      modifies this`nfa, this`parseIndex
      ensures var r := ParseItems(pattern, old(parseIndex), parenNum);
        if ret == Ok then r.Parsed? && parseIndex == r.idx && nfa == old(nfa) + ItemsChars(r.val)
        else r == Error(ret)
    {
      hide ItemChars;
      ghost var whole := ParseItems(pattern, parseIndex, parenNum);
      ghost var done: seq<ClassItem> := [];
      PrependNone(whole);
      var ch := CharAt(pattern, parseIndex);
      parseIndex := parseIndex + 1;
      while ch != NUL && ch != RBRACKET
        invariant 1 <= parseIndex - 1 <= |pattern| && ch == CharAt(pattern, parseIndex - 1)
        invariant !ParseItems(pattern, parseIndex - 1, parenNum).Hangs?
        invariant whole == Prepend(done, ParseItems(pattern, parseIndex - 1, parenNum))
        invariant nfa == old(nfa) + ItemsChars(done)
        decreases |pattern| + 1 - parseIndex
      {
        ghost var item;
        ret, item := ProcessItem(ch);
        if ret != Ok { return; }
        ItemsCharsSnoc(done, item);
        PrependTwice(done, item, ParseItems(pattern, parseIndex, parenNum));
        done := done + [item];
        ch := CharAt(pattern, parseIndex);
        parseIndex := parseIndex + 1;
      }
      PrependNothing(done);
      if ch != RBRACKET { return InvalidInBracket; }
      return Ok;
    }

    /** A bracket expression, after its opening bracket. */
    method ProcessClass() returns (ret: Code, pos: nat)
      requires Ready() && parseIndex >= 1
      requires !ParseClass(pattern, parseIndex, parenNum).Hangs?
      modifies this`nfa, this`parseIndex
      ensures Compiled(old(nfa), LeafOf(ParseClass(pattern, old(parseIndex), parenNum)), ret, pos)
    {
      hide At, Gen, Node, ParseItems, ItemsChars;
      var ch := CharAt(pattern, parseIndex);
      var op := if ch == CARET then ANY_EXCEPT else ANY_OF;
      ret, pos := AppendNode(op);
      if ret != Ok { return; }
      if ch == CARET { parseIndex := parseIndex + 1; }
      ch := CharAt(pattern, parseIndex);
      ghost var first: seq<ClassItem> := [];
      if ch == RBRACKET || ch == DASH {
        AppendChar(ch);
        parseIndex := parseIndex + 1;
        first := [Single(ch)];
      }
      ghost var r := ParseItems(pattern, parseIndex, parenNum);
      ret := ProcessItems();
      if ret != Ok { return; }
      AppendChar(NUL);
      assert [] + r.val == r.val;
      ClassBuilt(old(nfa), op == ANY_EXCEPT, first, r.val, nfa);
    }

    /** A character after a backslash. */
    method ProcessEscape() returns (ret: Code, pos: nat)
      requires Ready() && parseIndex < |pattern| && pattern[parseIndex] == BACKSLASH
      modifies this`nfa, this`parseIndex
      ensures Compiled(old(nfa), ParseAtom(pattern, old(parseIndex), parenNum), ret, pos)
    {
      hide At, Gen, Node;
      parseIndex := parseIndex + 1;
      pos := 0;
      var ch := CharAt(pattern, parseIndex);
      if ch == NUL { return InvalidRegEnd, pos; }
      ret, pos := AppendNode(PRECISE);
      if ret != Ok { return; }
      AppendChar(ch);
      AppendChar(NUL);
      parseIndex := parseIndex + 1;
      assert (old(nfa) + Node(PRECISE, 0)) + [ch] + [NUL] == old(nfa) + (Node(PRECISE, 0) + [ch, NUL]);
      LeafBuilt(old(nfa), Escaped(ch), nfa);
    }

    /** Copies the next n characters of the pattern. */
    method AppendRun(n: nat)
      requires parseIndex + n <= |pattern|
      modifies this`nfa, this`parseIndex
      ensures parseIndex == old(parseIndex) + n
      ensures nfa == old(nfa) + pattern[old(parseIndex)..parseIndex]
    {
      var left := n;
      while left > 0
        invariant old(parseIndex) <= parseIndex && parseIndex + left == old(parseIndex) + n
        invariant nfa == old(nfa) + pattern[old(parseIndex)..parseIndex]
      {
        AppendChar(pattern[parseIndex]);
        parseIndex := parseIndex + 1;
        left := left - 1;
      }
    }

    /** A run of ordinary characters; its last one is left for a repetition that follows. */
    method ProcessLiteral() returns (ret: Code, pos: nat)
      requires Ready() && parseIndex < |pattern|
      requires pattern[parseIndex] != NUL && !IsMeta(pattern[parseIndex])
      modifies this`nfa, this`parseIndex
      ensures Compiled(old(nfa), ParseAtom(pattern, old(parseIndex), parenNum), ret, pos)
    {
      hide At, Gen, Node;
      var n := Span(pattern, parseIndex);
      if n > 1 && parseIndex + n < |pattern| && IsRep(pattern[parseIndex + n]) {
        n := n - 1;
      }
      ghost var text := pattern[parseIndex..parseIndex + n];
      ret, pos := AppendNode(PRECISE);
      if ret != Ok { return; }
      AppendRun(n);
      AppendChar(NUL);
      LiteralBuilt(old(nfa), text, nfa);
    }

    method ProcessChar() returns (ret: Code, pos: nat)
      requires Ready() && !ParseAtom(pattern, parseIndex, parenNum).Hangs?
      modifies this`nfa, this`parseIndex, this`parenNum
      ensures Compiled(old(nfa), ParseAtom(pattern, old(parseIndex), old(parenNum)), ret, pos)
      decreases |pattern| - parseIndex, 0
    {
      hide At, Gen, Node;
      var ch := CharAt(pattern, parseIndex);
      pos := 0;
      if ch == CARET {
        parseIndex := parseIndex + 1;
        ret, pos := ProcessSymbol(BOL, Bol);
      } else if ch == DOLLAR {
        parseIndex := parseIndex + 1;
        ret, pos := ProcessSymbol(EOL, Eol);
      } else if ch == DOT {
        parseIndex := parseIndex + 1;
        ret, pos := ProcessSymbol(ANY, Any);
      } else if ch == LBRACKET {
        parseIndex := parseIndex + 1;
        ret, pos := ProcessClass();
      } else if ch == LPAREN {
        parseIndex := parseIndex + 1;
        ghost var alts := ParseAlts(pattern, true, parseIndex, parenNum);
        ret, pos := Compile(true);
        if ret == Ok { GroupBuilt(nfa, pos, alts.val); }
        GroupLen(alts);
      } else if ch == RPAREN || ch == BAR || IsRep(ch) {
        ret := InvalidMetaOperator;
      } else if ch == NUL {
        ret := InvalidRegEnd;
      } else if ch == BACKSLASH {
        ret, pos := ProcessEscape();
      } else {
        ret, pos := ProcessLiteral();
      }
    }

    method ProcessBlock() returns (ret: Code, pos: nat)
      requires Ready() && !ParseBlock(pattern, parseIndex, parenNum).Hangs?
      modifies this`nfa, this`parseIndex, this`parenNum
      ensures Compiled(old(nfa), ParseBlock(pattern, old(parseIndex), old(parenNum)), ret, pos)
      decreases |pattern| - parseIndex, 1
    {
      hide At, Gen;
      ghost var base, r := nfa, ParseAtom(pattern, parseIndex, parenNum);
      ret, pos := ProcessChar();
      if ret != Ok { return; }
      var ch := CharAt(pattern, parseIndex);
      if !IsRep(ch) { return; }
      if ch == STAR {
        ret := RepeatStar(pos, base, r.val);
      } else if ch == PLUS {
        ret := RepeatPlus(pos, base, r.val);
      } else {
        ret := RepeatOpt(pos, base, r.val);
      }
      if ret != Ok { return; }
      parseIndex := parseIndex + 1;
      ch := CharAt(pattern, parseIndex);
      if IsRep(ch) { return InvalidRegExp, pos; }
    }

    /** What compiling a branch achieves. */
    ghost predicate CompiledBranch(base: seq<byte>, r: Parsed<Blocks>, ret: Code, pos: nat)
      reads this`parseIndex, this`nfa, this`parenNum
    {
      if ret == Ok then
        && r.Parsed? && r.idx == parseIndex && r.parens == parenNum && pos == |base| < MAX_NFA_LEN
        && At(nfa, 0, base) && At(nfa, pos, Node(BRANCH, 0)) && At(nfa, pos + 3, GenSeq(r.val, 0))
        && |nfa| == pos + 3 + LenSeq(r.val)
      else Refused(ret, r, if r.Parsed? then |base| + 3 + LenSeq(r.val) else 0)
    }

    method ProcessBranch() returns (ret: Code, pos: nat)
      requires Ready() && !ParseBranch(pattern, parseIndex, parenNum).Hangs?
      modifies this`nfa, this`parseIndex, this`parenNum
      ensures CompiledBranch(old(nfa), ParseBranch(pattern, old(parseIndex), old(parenNum)), ret, pos)
      decreases |pattern| - parseIndex, 2
    {
      hide At, Gen, GenSeq, Node, SetNext, Len, LenSeq, SizeBlocks, FirstEmpty, LinkCode, LinkDistance;
      ghost var base, i0 := nfa, parseIndex;
      ghost var whole := ParseBranch(pattern, parseIndex, parenNum);
      ret, pos := AppendNode(BRANCH);
      SizeOfParsed(whole);
      if ret != Ok { return; }
      var pre: nat := 0;
      ghost var acc := Empty;
      StartBranch(base);
      StartBlocks(whole);
      var ch := CharAt(pattern, parseIndex);
      while !EndsBranch(ch)
        invariant ret == Ok && i0 <= parseIndex <= |pattern| && ch == CharAt(pattern, parseIndex)
        invariant BranchState(nfa, base, acc, pre) && |base| >= START_VALID_POS
        invariant whole == AfterBlocks(acc, ParseBranch(pattern, parseIndex, parenNum)) && !whole.Hangs?
        decreases |pattern| - parseIndex
      {
        ghost var was, b := nfa, ParseBlock(pattern, parseIndex, parenNum);
        NextBlock(acc, pattern, parseIndex, parenNum, |base| + 3);
        BranchSize(nfa, base, acc, pre);
        var cur;
        ret, cur := ProcessBlock();
        if ret != Ok { return; }
        if pre != 0 {
          NextBlockAdded(nfa, was, base, acc, pre, b.val);
          ret := LinkNode(pre, cur, pre + Last(LastBlock(acc)), Steps(LastBlock(acc)));
        } else {
          FirstBlockAdded(nfa, was, base, b.val);
        }
        acc := Snoc(acc, b.val);
        pre := cur;
        ch := CharAt(pattern, parseIndex);
      }
      EndBlocks(acc, pattern, parseIndex, parenNum);
      if pre == 0 {
        var nothing;
        BranchSize(nfa, base, acc, pre);
        EmptyBranch(nfa, base);
        ret, nothing := AppendNode(NOTHING);
        assert LenSeq(Empty) == NODE_SIZE by { EmptyLen(); }
      } else {
        FullBranch(nfa, base, acc, pre);
      }
    }

    // ----- groups and the whole pattern

    /** What compiling the branches of a group achieves: each branch is linked to the next. */
    ghost predicate CompiledBranches(base: seq<byte>, paren: bool, r: Parsed<Alts>, ret: Code, pos: nat)
      reads this`parseIndex, this`nfa, this`parenNum
    {
      if ret == Ok then
        && r.Parsed? && r.idx == parseIndex && r.parens == parenNum && pos == |base|
        && GroupOpen(nfa, base, paren, r.val, 0) && |nfa| == FirstBranch(base, paren) + LenAlts(r.val)
      else Refused(ret, r, if r.Parsed? then FirstBranch(base, paren) + LenAlts(r.val) else 0)
    }

    /** Compiles the branch after a bar and links it to the branches before it. */
    method AddBranch(pos: nat, ghost base: seq<byte>, ghost paren: bool, ghost acc: Alts) returns (ret: Code)
      requires parseIndex <= |pattern| && CharAt(pattern, parseIndex) == BAR
      requires pos == |base| >= START_VALID_POS && GroupOpen(nfa, base, paren, acc, 0)
      requires |nfa| == FirstBranch(base, paren) + LenAlts(acc)
      requires !RestOfBranches(acc, pattern, parseIndex, parenNum).Hangs?
      modifies this`nfa, this`parseIndex, this`parenNum
      ensures var whole := RestOfBranches(acc, pattern, old(parseIndex), old(parenNum));
        var r := ParseBranch(pattern, old(parseIndex) + 1, old(parenNum));
        if ret == Ok then
          && r.Parsed? && r.idx == parseIndex && r.parens == parenNum
          && GroupOpen(nfa, base, paren, SnocAlts(acc, r.val), 0)
          && |nfa| == FirstBranch(base, paren) + LenAlts(SnocAlts(acc, r.val))
          && whole == RestOfBranches(SnocAlts(acc, r.val), pattern, parseIndex, parenNum)
        else Refused(ret, whole, if whole.Parsed? then FirstBranch(base, paren) + LenAlts(whole.val) else 0)
      decreases |pattern| - parseIndex, 3
    {
      hide At, GenSeq, Node, SetNext, LenSeq, LenAlts, FirstEmpty, LinkCode, LinkDistance, GroupOpen, ParseBranch,
        RestOfBranches, IsMeta, Span;
      NextBranch(acc, pattern, parseIndex, parenNum);
      parseIndex := parseIndex + 1;
      ghost var was, r := nfa, ParseBranch(pattern, parseIndex, parenNum);
      var next;
      ret, next := ProcessBranch();
      if ret != Ok { return; }
      GroupOpenPrefix(nfa, was, base, paren, acc, 0);
      LinkNextBranch(nfa, base, paren, acc, r.val);
      ret := LinkNode(pos, next, LastBranch(FirstBranch(base, paren), acc), GroupSteps(paren, acc));
    }

    /** The branches of a group, behind its opening node if there is one. */
    method CompileBranches(paren: bool, start: nat, ghost base: seq<byte>) returns (ret: Code, pos: nat)
      requires parseIndex <= |pattern| && |base| >= START_VALID_POS
      requires nfa == base + (if paren then Node(PAREN_START, 0) else []) && (paren ==> start == |base|)
      requires !ParseBranches(pattern, parseIndex, parenNum).Hangs?
      modifies this`nfa, this`parseIndex, this`parenNum
      ensures CompiledBranches(base, paren, ParseBranches(pattern, old(parseIndex), old(parenNum)), ret, pos)
      decreases |pattern| - parseIndex, 4
    {
      hide At, GenSeq, Node, SetNext, LenSeq, LenAlts, FirstEmpty, LinkCode, LinkDistance, GroupOpen, ParseBranch,
        ParseBranches, AfterBranches, IsMeta, Span, RestOfBranches;
      ghost var was, i0 := nfa, parseIndex;
      ghost var whole := ParseBranches(pattern, parseIndex, parenNum);
      ghost var r := ParseBranch(pattern, parseIndex, parenNum);
      StartBranches(pattern, parseIndex, parenNum, |was|);
      ret, pos := ProcessBranch();
      if ret != Ok { return; }
      ghost var acc := Only(r.val);
      FirstBranchAdded(nfa, was, base, paren, r.val);
      if paren {
        LinkOpening(nfa, base, r.val);
        ret := LinkNode(start, pos, start, 0);
        pos := start;
      }
      var ch := CharAt(pattern, parseIndex);
      while ch == BAR
        invariant ret == Ok && i0 <= parseIndex <= |pattern| && ch == CharAt(pattern, parseIndex)
        invariant pos == |base| && GroupOpen(nfa, base, paren, acc, 0)
        invariant |nfa| == FirstBranch(base, paren) + LenAlts(acc)
        invariant whole == RestOfBranches(acc, pattern, parseIndex, parenNum) && !whole.Hangs?
        decreases |pattern| - parseIndex
      {
        r := ParseBranch(pattern, parseIndex + 1, parenNum);
        ret := AddBranch(pos, base, paren, acc);
        if ret != Ok { return; }
        acc := SnocAlts(acc, r.val);
        ch := CharAt(pattern, parseIndex);
      }
      NoMoreBranches(acc, pattern, parseIndex, parenNum);
    }

    /** Links the operand of every branch from `start` on to the end node. */
    method LinkOperands(start: nat, end: nat, ghost base: seq<byte>, ghost paren: bool, ghost alts: Alts,
        ghost op: byte)
      requires WalkState(nfa, base, paren, alts, op, if paren then Opening else InBranches(alts), [], start)
      requires end == FirstBranch(base, paren) + LenAlts(alts)
      modifies this`nfa
      ensures GroupClosed(nfa, base, paren, alts, op)
    {
      hide At, OpenAlts, GenAlts, LenAlts, LenSeq, SetNext, FirstEmpty, LinkCode, LinkDistance, WalkState,
        GetNextNodePos, OperandGap;
      var here: nat := start;
      ghost var w, done: seq<byte> := if paren then Opening else InBranches(alts), [];
      var next := GetNextNodePos(nfa, here);
      while next.To?
        invariant WalkState(nfa, base, paren, alts, op, w, done, here) && (w.Opening? ==> paren && done == [])
        invariant next == GetNextNodePos(nfa, here)
        invariant |nfa| == old(|nfa|)
        decreases |nfa| - here
      {
        ghost var t, n, w', done' := 0, 0, w, done;
        if w.Opening? {
          WalkOpening(nfa, base, alts, op, here);
          w' := InBranches(alts);
        } else if w.InBranches? {
          t, n := here + 3 + LastSeq(w.rest.branch), StepsSeq(w.rest.branch);
          w', done' := WalkBranch(nfa, base, paren, alts, op, w.rest, done, here);
        } else {
          WalkFinished(nfa, base, paren, alts, op, done, here);
        }
        var ret := LinkOperandNode(here, end, t, n);
        here := next.pos;
        w, done := w', done';
        next := GetNextNodePos(nfa, here);
      }
      if w.Opening? {
        WalkOpening(nfa, base, alts, op, here);
      } else if w.InBranches? {
        ghost var w', done' := WalkBranch(nfa, base, paren, alts, op, w.rest, done, here);
      }
      WalkEnd(nfa, base, paren, alts, op, done, here);
    }

    /** What compiling a group or the whole pattern achieves. */
    ghost predicate CompiledAlts(base: seq<byte>, paren: bool, r: Parsed<Alts>, ret: Code, pos: nat)
      reads this`parseIndex, this`nfa, this`parenNum
    {
      if ret == Ok then
        && r.Parsed? && r.idx == parseIndex && r.parens == parenNum && pos == |base| < MAX_NFA_LEN
        && GroupClosed(nfa, base, paren, r.val, if paren then PAREN_END else END) && |nfa| < MAX_NFA_LEN
      else Refused(ret, r, if r.Parsed? then FirstBranch(base, paren) + LenAlts(r.val) + 3 else 0)
    }

    method Compile(paren: bool) returns (ret: Code, pos: nat)
      requires Ready() && !ParseAlts(pattern, paren, parseIndex, parenNum).Hangs?
      modifies this`nfa, this`parseIndex, this`parenNum
      ensures CompiledAlts(old(nfa), paren, ParseAlts(pattern, paren, old(parseIndex), old(parenNum)), ret, pos)
      decreases |pattern| - parseIndex, 5
    {
      hide At, GenAlts, LenAlts, SetNext, Node, GroupOpen, GroupClosed, ParseBranches, FirstEmpty, LinkCode,
        LinkDistance;
      ghost var base := nfa;
      var start := 0;
      pos := 0;
      if paren {
        parenNum := parenNum + 1;
        if parenNum >= MAX_PAREN_NUM { return ParenNumExceed, pos; }
        ret, start := AppendNode(PAREN_START);
        if ret != Ok { return; }
      }
      assert !paren ==> nfa == base + [];
      ghost var r := ParseBranches(pattern, parseIndex, parenNum);
      ret, pos := CompileBranches(paren, start, base);
      if ret != Ok { return; }
      ghost var alts := r.val;
      var op := if paren then PAREN_END else END;
      var end;
      GroupOpenAppend(nfa, base, paren, alts, 0, Node(op, 0));
      ret, end := AppendNode(op);
      if ret != Ok { return; }
      LinkEnd(nfa, base, paren, alts, op);
      ret := LinkNode(pos, end, LastBranch(FirstBranch(base, paren), alts), GroupSteps(paren, alts));
      LinkOperands(pos, end, base, paren, alts, op);
      ClosedLen(nfa, base, paren, alts, op);
      var ch := CharAt(pattern, parseIndex);
      if paren {
        if ch != RPAREN { return InvalidMetaOperator, pos; }
        parseIndex := parseIndex + 1;
      } else {
        if ch != NUL { return InvalidRegEnd, pos; }
      }
    }

    /** Can a match of the pattern only start at the subject's first character? */
    method CheckIfBOL(ghost alts: Alts) returns (ret: Code)
      requires nfa == Program(alts) && |nfa| <= MAX_NFA_LEN
      modifies this`justCheckBol
      ensures ret == Ok && justCheckBol == (old(justCheckBol) || Anchored(alts))
    {
      hide Program, StartsAtBol, LenSeq;
      FirstNodes(alts);
      if Op(nfa, START_VALID_POS) == BRANCH && Next(nfa, START_VALID_POS) != 0 {
        var next := START_VALID_POS + Next(nfa, START_VALID_POS);
        if next >= |nfa| { return InvalidRange; }
        if Op(nfa, next) == END {
          var operand := START_VALID_POS + NODE_SIZE;
          if operand >= |nfa| { return InvalidRange; }
          if Op(nfa, operand) == BOL {
            justCheckBol := true;
          }
        }
      }
      return Ok;
    }

    /** Compiles the pattern: it is accepted exactly when the grammar accepts it and
        its program fits, and then the program is the one of its syntax tree. */
    method Init() returns (ret: Code)
      requires nfa == [] && parseIndex == 0 && parenNum == 0 && !justCheckBol
      requires !ParsePattern(pattern).Hangs?
      modifies this
      ensures ret == Ok <==> Accepted(pattern)
      ensures ret == Ok ==>
        var alts := ParsePattern(pattern).val;
        Compilable(alts) && nfa == Program(alts) && justCheckBol == Anchored(alts)
      ensures ret != Ok ==> ret == InvalidLength || ParsePattern(pattern) == Error(ret)
    {
      hide At, GenAlts, LenAlts, Node, ParseBranches, Program, Anchored;
      var start;
      ret, start := AppendNode(INVALID);
      assert [] + Node(INVALID, 0) == Node(INVALID, 0);
      ret, start := Compile(false);
      if ret != Ok { return; }
      ghost var alts := ParsePattern(pattern).val;
      ProgramBuilt(nfa, alts);
      ret := CheckIfBOL(alts);
    }

    // ----- matching

    /** The opcodes that test or consume characters; `idx` is the index after them. */
    method MatchSymbol(op: byte, s: seq<byte>, p: nat, i: nat) returns (ret: Code, idx: nat)
      requires p + NODE_SIZE <= |nfa| && op == Op(nfa, p) && IsSymbolOp(op)
      ensures SymbolMatch(nfa, s, p, i) == if ret == Ok then Moved(idx) else Stuck(ret)
    {
      idx := i;
      if op == BOL {
        if i != 0 { return RegNotMatch, i; }
      } else if op == EOL {
        if i != |s| { return RegNotMatch, i; }
      } else if op == ANY {
        if i > |s| { return RegNotMatch, i; }
        idx := i + 1;
      } else {
        if i == |s| { return RegNotMatch, i; }
        if p < START_VALID_POS { return InvalidParam, i; }
        var operand := p + NODE_SIZE;
        if i > |s| { return InvalidRange, i; }
        if op == PRECISE {
          var text := CStr(nfa, operand);
          if |s| - i < |text| { return RegNotMatch, i; }
          if s[i..i + |text|] != text { return RegNotMatch, i; }
          idx := i + |text|;
        } else if op == ANY_OF {
          if !StrChr(CStr(nfa, operand), s[i]) { return RegNotMatch, i; }
          idx := i + 1;
        } else {
          if StrChr(CStr(nfa, operand), s[i]) { return RegNotMatch, i; }
          idx := i + 1;
        }
      }
      return Ok, idx;
    }

    /** The loop over a chain of branches: every branch but the last is tried by a
        recursive call; for the last, `pos` is where to go on. */
    method MatchBranches(s: seq<byte>, first: nat, second: nat, i: nat, ghost n: nat)
      returns (done: bool, ret: Code, pos: nat, ghost k: nat)
      requires second < |nfa| && START_VALID_POS <= first
      requires Try(n, nfa, s, first, second, i) != Pending
      ensures done ==> Try(n, nfa, s, first, second, i) == Returns(ret)
      ensures !done ==> k < n && Try(n, nfa, s, first, second, i) == Run(k, nfa, s, pos, i)
      decreases n
    {
      hide Run, GetNextNodePos;
      var cur: nat, next: nat := first, second;
      pos, k := 0, n;
      while true
        invariant k <= n && next < |nfa| && Try(n, nfa, s, first, second, i) == Try(k, nfa, s, cur, next, i) != Pending
        decreases k
      {
        if cur < START_VALID_POS { return true, InvalidParam, 0, 0; }
        ret := Match(s, i, cur + NODE_SIZE, k - 1);
        if ret != RegNotMatch { return true, ret, 0, 0; }
        cur := next;
        var after := GetNextNodePos(nfa, cur);
        if after.Fail? { return true, after.code, 0, 0; }
        next := after.pos;
        k := k - 1;
        if Op(nfa, next) != BRANCH {
          if cur < START_VALID_POS { return true, InvalidParam, 0, 0; }
          return false, Ok, cur + NODE_SIZE, k;
        }
      }
    }

    /** Interprets the program from node p at subject index i.  It is called only
        where the interpretation ends; n bounds its steps. */
    method Match(s: seq<byte>, index: nat, node: nat, ghost n: nat) returns (ret: Code)
      requires Enter(n, nfa, s, node, index) != Pending
      ensures Enter(n, nfa, s, node, index) == Returns(ret)
      decreases n
    {
      hide SymbolMatch;
      if node < START_VALID_POS { return InvalidParam; }
      var p: nat, i: nat := node, index;
      ghost var k: nat := n;
      while true
        invariant k <= n && Run(n, nfa, s, node, index) == Run(k, nfa, s, p, i) != Pending
        decreases k
      {
        var next := GetNextNodePos(nfa, p);
        if next.Fail? && next.code != NoNextNode { return next.code; }
        var noNext := next.Fail?;
        var after: nat := if noNext then 0 else next.pos;
        var op := Op(nfa, p);
        if op == NOTHING || op == BACK {
        } else if op == PAREN_START || op == PAREN_END {
          if noNext { return InvalidRegNfa; }
          ret := Match(s, i, after, k - 1);
          return;
        } else if op == BRANCH {
          if noNext { return InvalidRegNfa; }
          if Op(nfa, after) != BRANCH {
            if p < START_VALID_POS { return InvalidParam; }
            after := p + NODE_SIZE;
          } else {
            if p < START_VALID_POS { return InvalidParam; }
            var done;
            ghost var m;
            done, ret, after, m := MatchBranches(s, p, after, i, k - 1);
            if done { return; }
            k := m + 1;
          }
        } else if op == END {
          return Ok;
        } else if IsSymbolOp(op) {
          ret, i := MatchSymbol(op, s, p, i);
          if ret != Ok { return; }
        } else {
          return RegNotMatch;
        }
        if noNext { return RegNotMatch; }
        p := after;
        k := k - 1;
      }
    }

    /** Looks for a match that starts at any character of the subject, or only at
        the first one.  Each search must end within n steps. */
    method Check(s: seq<byte>, ghost alts: Alts, ghost n: nat) returns (ret: Code)
      requires Compilable(alts) && nfa == Program(alts) && justCheckBol == Anchored(alts)
      requires CheckVerdict(n, nfa, justCheckBol, s) != Pending
      ensures CheckVerdict(n, nfa, justCheckBol, s) == Returns(ret)
      ensures ret == Ok ==> Occurs(alts, s) || (s == [] && !Anchored(alts))
      ensures ret == RegNotMatch ==> !Occurs(alts, s)
    {
      hide Run, Program, Anchored, Occurs, Compilable;
      CheckMeans(n, alts, s);
      ret := Ok;
      if justCheckBol {
        ret := Match(s, 0, START_VALID_POS, n);
        return;
      }
      var i := 0;
      while i < |s|
        invariant i <= |s| && (i == 0 ==> ret == Ok) && (i > 0 ==> ret == RegNotMatch)
        invariant CheckFrom(n, nfa, s, 0) == CheckFrom(n, nfa, s, i)
        invariant |s| > 0 ==> CheckFrom(n, nfa, s, i) != Pending
      {
        ret := Match(s, i, START_VALID_POS, n);
        if ret != RegNotMatch { return; }
        i := i + 1;
      }
    }
  }

  lemma EmptyLen()
    ensures LenSeq(Empty) == NODE_SIZE
  {
  }

  lemma SizeOfParsed(r: Parsed<Blocks>)
    ensures r.Parsed? ==> LenSeq(r.val) >= NODE_SIZE
  {
  }

  lemma StartBlocks(r: Parsed<Blocks>)
    ensures AfterBlocks(Empty, r) == r
  {
  }

  lemma StartBranch(base: seq<byte>)
    ensures BranchState(base + Node(BRANCH, 0), base, Empty, 0)
  {
    AtAppend(base, 0, base, Node(BRANCH, 0));
  }

  lemma BranchSize(nfa: seq<byte>, base: seq<byte>, acc: Blocks, pre: nat)
    requires BranchState(nfa, base, acc, pre)
    ensures |nfa| == |base| + 3 + SizeBlocks(acc) && (pre == 0 <==> acc.Empty?)
  {
  }

  /** The block that the parser reads next, and what it means for the whole branch. */
  lemma NextBlock(acc: Blocks, s: seq<byte>, i: nat, parens: nat, size: nat)
    requires i <= |s| && !EndsBranch(CharAt(s, i))
    ensures var r, whole := ParseBlock(s, i, parens), AfterBlocks(acc, ParseBranch(s, i, parens));
      && (r.Parsed? ==> whole == AfterBlocks(Snoc(acc, r.val), ParseBranch(s, r.idx, r.parens)))
      && (whole.Parsed? ==> r.Parsed? && size + LenSeq(whole.val) >= size + SizeBlocks(acc) + Len(r.val))
      && (r.Error? ==> whole == Error(r.code))
      && (r.Hangs? ==> whole == Hangs)
  {
    var r := ParseBlock(s, i, parens);
    if r.Parsed? {
      var rest := ParseBranch(s, r.idx, r.parens);
      if rest.Parsed? {
        SnocAppend(acc, r.val, rest.val);
        SizeAppend(acc, Then(r.val, rest.val));
        SizeIsLen(AppendBlocks(acc, Then(r.val, rest.val)));
      }
    }
  }

  lemma EndBlocks(acc: Blocks, s: seq<byte>, i: nat, parens: nat)
    requires i <= |s| && EndsBranch(CharAt(s, i))
    ensures AfterBlocks(acc, ParseBranch(s, i, parens)) == Parsed(acc, i, parens)
  {
    SnocAppend(acc, Leaf(Bol), Empty);
  }

  lemma EmptyBranch(nfa: seq<byte>, base: seq<byte>)
    requires BranchState(nfa, base, Empty, 0)
    ensures var r := nfa + Node(NOTHING, 0);
      && At(r, 0, base) && At(r, |base|, Node(BRANCH, 0)) && At(r, |base| + 3, GenSeq(Empty, 0))
      && |r| == |base| + 3 + LenSeq(Empty)
  {
    hide At;
    AtAppend(nfa, 0, base, Node(NOTHING, 0));
    AtAppend(nfa, |base|, Node(BRANCH, 0), Node(NOTHING, 0));
  }

  lemma FullBranch(nfa: seq<byte>, base: seq<byte>, acc: Blocks, pre: nat)
    requires BranchState(nfa, base, acc, pre) && acc.Then?
    ensures At(nfa, 0, base) && At(nfa, |base|, Node(BRANCH, 0)) && At(nfa, |base| + 3, GenSeq(acc, 0))
    ensures |nfa| == |base| + 3 + LenSeq(acc)
  {
    hide At;
    LastGap(acc);
  }

  function LeafOf(r: Parsed<Symbol>): Parsed<Re> {
    match r
    case Parsed(sym, idx, p) => Parsed(Leaf(sym), idx, p)
    case Error(c) => Error(c)
    case Hangs => Hangs
  }

  lemma PrependNone<T>(r: Parsed<seq<T>>)
    ensures Prepend([], r) == r
  {
    if r.Parsed? { assert [] + r.val == r.val; }
  }

  lemma PrependNothing<T>(xs: seq<T>)
    ensures xs + [] == xs
  {
  }

  lemma PrependTwice<T>(xs: seq<T>, x: T, r: Parsed<seq<T>>)
    ensures Prepend(xs, Prepend([x], r)) == Prepend(xs + [x], r)
  {
    if r.Parsed? { assert xs + ([x] + r.val) == (xs + [x]) + r.val; }
  }

  lemma ClassBuilt(base: seq<byte>, negated: bool, first: seq<ClassItem>, rest: seq<ClassItem>, nfa: seq<byte>)
    requires |first| <= 1 && (first != [] ==> first[0].Single?)
    requires nfa == base + Node(if negated then ANY_EXCEPT else ANY_OF, 0)
      + (if first == [] then [] else [first[0].c]) + ItemsChars(rest) + [NUL]
    ensures var sym := Class(negated, first + rest);
      At(nfa, 0, base) && At(nfa, |base|, Gen(Leaf(sym), 0)) && |nfa| == |base| + Len(Leaf(sym))
  {
    hide At, Gen, Len, Node;
    var sym := Class(negated, first + rest);
    FirstItem(first, rest);
    Regroup(base, Node(OpOf(sym), 0), if first == [] then [] else [first[0].c], ItemsChars(rest), [NUL]);
    LeafBuilt(base, sym, nfa);
  }

  lemma FirstItem(first: seq<ClassItem>, rest: seq<ClassItem>)
    requires |first| <= 1 && (first != [] ==> first[0].Single?)
    ensures ItemsChars(first + rest) == (if first == [] then [] else [first[0].c]) + ItemsChars(rest)
  {
    if first != [] {
      assert (first + rest)[0] == first[0] && (first + rest)[1..] == rest;
    } else {
      assert first + rest == rest;
    }
  }

  lemma Regroup(a: seq<byte>, b: seq<byte>, c: seq<byte>, d: seq<byte>, e: seq<byte>)
    ensures a + b + c + d + e == a + (b + ((c + d) + e))
  {
  }

  lemma LiteralBuilt(base: seq<byte>, text: seq<byte>, nfa: seq<byte>)
    requires nfa == base + Node(PRECISE, 0) + text + [NUL]
    ensures var sym := Literal(text);
      At(nfa, 0, base) && At(nfa, |base|, Gen(Leaf(sym), 0)) && |nfa| == |base| + Len(Leaf(sym))
  {
    assert nfa == base + (Node(PRECISE, 0) + (text + [NUL]));
    LeafBuilt(base, Literal(text), nfa);
  }

  lemma LeafBuilt(base: seq<byte>, sym: Symbol, nfa: seq<byte>)
    requires nfa == base + (Node(OpOf(sym), 0) + Operand(sym))
    ensures At(nfa, 0, base) && At(nfa, |base|, Gen(Leaf(sym), 0)) && |nfa| == |base| + Len(Leaf(sym))
  {
    AtAppend(base, 0, base, LeafCode(sym, 0));
  }

  lemma OptBranch(nfa: seq<byte>, base: seq<byte>, b: Re)
    requires OptState(nfa, base, b, Len(b) + 3, 0, 3, 2)
    ensures |base| < |nfa| && Op(nfa, |base|) == BRANCH
  {
    hide Gen, Len;
    assert nfa[|base| + 0] == Node(BRANCH, Len(b) + 3)[0];
  }

  lemma OperandOf(nfa: seq<byte>, base: seq<byte>, b: Re, g: nat, y: nat)
    requires StarA(nfa, base, b, g, y)
    ensures |base| < |nfa| && Op(nfa, |base|) == BRANCH
  {
    AtNode(nfa, |base|, BRANCH, 0);
  }
}
