/** The node programs of base/simple_reg.cc as byte strings, and the program
    each syntax tree stands for. */
module RegProgram {
  import opened RegSyntax

  const INVALID: byte := 0
  const END: byte := 1
  const BOL: byte := 2
  const EOL: byte := 3
  const ANY: byte := 4
  const ANY_OF: byte := 5
  const ANY_EXCEPT: byte := 6
  const BRANCH: byte := 7
  const BACK: byte := 8
  const NOTHING: byte := 9
  const PRECISE: byte := 10
  const PAREN_START: byte := 11
  const PAREN_END: byte := 12

  const NODE_SIZE := 3
  const START_VALID_POS := NODE_SIZE
  const MAX_NFA_LEN := 0xffff

  // ----- nodes in a byte string: an opcode and a 16-bit little-endian distance

  function Node(op: byte, next: nat): (r: seq<byte>)
    ensures |r| == NODE_SIZE
  {
    [op, next % 256, next / 256 % 256]
  }

  function Op(nfa: seq<byte>, p: nat): byte
    requires p < |nfa|
  {
    nfa[p]
  }

  function Next(nfa: seq<byte>, p: nat): (n: nat)
    requires p + NODE_SIZE <= |nfa|
    ensures n <= 0xffff
  {
    var lo: int := nfa[p + 1];
    var hi: int := nfa[p + 2];
    lo + 256 * hi
  }

  function SetNext(nfa: seq<byte>, p: nat, d: nat): (r: seq<byte>)
    requires p + NODE_SIZE <= |nfa|
    ensures |r| == |nfa|
  {
    nfa[p + 1 := d % 256][p + 2 := d / 256 % 256]
  }

  /** `code` stands in `nfa` at position p. */
  predicate At(nfa: seq<byte>, p: nat, code: seq<byte>) {
    p + |code| <= |nfa| && forall k {:trigger code[k]} :: 0 <= k < |code| ==> nfa[p + k] == code[k]
  }

  lemma AtSplit(nfa: seq<byte>, p: nat, a: seq<byte>, b: seq<byte>)
    requires At(nfa, p, a + b)
    ensures At(nfa, p, a) && At(nfa, p + |a|, b)
  {
    forall k | 0 <= k < |a| ensures nfa[p + k] == a[k] {
      assert (a + b)[k] == a[k];
    }
    forall k | 0 <= k < |b| ensures nfa[p + |a| + k] == b[k] {
      assert (a + b)[|a| + k] == b[k];
    }
  }

  lemma AtNode(nfa: seq<byte>, p: nat, op: byte, next: nat)
    requires At(nfa, p, Node(op, next)) && next <= 0xffff
    ensures p + NODE_SIZE <= |nfa| && Op(nfa, p) == op && Next(nfa, p) == next
  {
    var node := Node(op, next);
    assert nfa[p + 0] == node[0] && nfa[p + 1] == node[1] && nfa[p + 2] == node[2];
  }

  /** A node anywhere in the string, and the rest. */
  lemma AtNodeThen(nfa: seq<byte>, p: nat, op: byte, next: nat, rest: seq<byte>)
    requires At(nfa, p, Node(op, next) + rest) && next <= 0xffff
    ensures p + NODE_SIZE <= |nfa| && Op(nfa, p) == op && Next(nfa, p) == next
    ensures At(nfa, p + NODE_SIZE, rest)
  {
    AtSplit(nfa, p, Node(op, next), rest);
    AtNode(nfa, p, op, next);
  }

  // ----- the program of a tree

  function OpOf(sym: Symbol): byte {
    match sym
    case Bol => BOL
    case Eol => EOL
    case Any => ANY
    case Class(negated, _) => if negated then ANY_EXCEPT else ANY_OF
    case Escaped(_) => PRECISE
    case Literal(_) => PRECISE
  }

  /** The NUL-terminated operand after a node. */
  function Operand(sym: Symbol): seq<byte> {
    match sym
    case Class(_, items) => ItemsChars(items) + [NUL]
    case Escaped(c) => [c, NUL]
    case Literal(text) => text + [NUL]
    case _ => []
  }

  function Len(r: Re): (n: nat)
    ensures n >= NODE_SIZE
  {
    match r
    case Leaf(sym) => NODE_SIZE + |Operand(sym)|
    case Star(b) => Len(b) + 12
    case Plus(b) => Len(b) + 12
    case Opt(b) => Len(b) + 9
    case Group(alts) => LenAlts(alts) + 6
  }

  /** A branch without blocks is a single `NOTHING` node. */
  function LenSeq(bs: Blocks): nat {
    match bs
    case Empty => NODE_SIZE
    case Then(b, Empty) => Len(b)
    case Then(b, rest) => Len(b) + LenSeq(rest)
  }

  function LenAlts(alts: Alts): nat {
    match alts
    case Only(bs) => NODE_SIZE + LenSeq(bs)
    case Or(bs, others) => NODE_SIZE + LenSeq(bs) + LenAlts(others)
  }

  /** The distance from the node of a fragment that is left unlinked to the
      fragment's end. */
  function Gap(r: Re): (n: nat)
    ensures NODE_SIZE <= n <= Len(r)
  {
    if r.Leaf? then Len(r) else NODE_SIZE
  }

  function GapSeq(bs: Blocks): (n: nat)
    ensures NODE_SIZE <= n <= LenSeq(bs)
  {
    match bs
    case Empty => NODE_SIZE
    case Then(b, Empty) => Gap(b)
    case Then(_, rest) => GapSeq(rest)
  }

  // The nodes around the code of an operand.

  function LoopTailCode(dist: nat, d: nat): (code: seq<byte>)
    ensures |code| == 9
  {
    Node(BACK, dist) + (Node(BRANCH, 3) + Node(NOTHING, d))
  }

  function StarCode(body: seq<byte>, d: nat): (code: seq<byte>)
    ensures |code| == |body| + 12
  {
    Node(BRANCH, |body| + 6) + (body + LoopTailCode(|body| + 3, d))
  }

  function PlusCode(body: seq<byte>, d: nat): (code: seq<byte>)
    ensures |code| == |body| + 12
  {
    body + (Node(BRANCH, 6) + LoopTailCode(|body| + 3, d))
  }

  function OptCode(body: seq<byte>, d: nat): (code: seq<byte>)
    ensures |code| == |body| + 9
  {
    Node(BRANCH, |body| + 3) + (body + (Node(BRANCH, 3) + Node(NOTHING, d)))
  }

  function GroupCode(body: seq<byte>, d: nat): (code: seq<byte>)
    ensures |code| == |body| + 6
  {
    Node(PAREN_START, 3) + (body + Node(PAREN_END, d))
  }

  /** A branch node linked to the end of the branch. */
  function BranchCode(body: seq<byte>): (code: seq<byte>)
    ensures |code| == NODE_SIZE + |body|
  {
    Node(BRANCH, NODE_SIZE + |body|) + body
  }

  function LeafCode(sym: Symbol, d: nat): (code: seq<byte>)
    ensures |code| == NODE_SIZE + |Operand(sym)|
  {
    Node(OpOf(sym), d) + Operand(sym)
  }

  /** The code of a tree whose last node is linked d bytes ahead (0: not linked). */
  function Gen(r: Re, d: nat): (code: seq<byte>)
    ensures |code| == Len(r)
    decreases r
  {
    match r
    case Leaf(sym) => LeafCode(sym, d)
    case Star(b) => StarCode(Gen(b, Gap(b)), d)
    case Plus(b) => PlusCode(Gen(b, Gap(b)), d)
    case Opt(b) => OptCode(Gen(b, Gap(b) + 3), d)
    case Group(alts) => GroupCode(GenAlts(alts, 0), d)
  }

  /** Blocks one after another, each linked to the next and the last linked d bytes ahead. */
  function GenSeq(bs: Blocks, d: nat): (code: seq<byte>)
    ensures |code| == LenSeq(bs)
    decreases bs
  {
    match bs
    case Empty => Node(NOTHING, d)
    case Then(b, Empty) => Gen(b, d)
    case Then(b, rest) => Gen(b, Gap(b)) + GenSeq(rest, d)
  }

  /** Branches with every branch's last block linked to the node `after` bytes
      behind them; each branch node is linked to the end of its own code. */
  function GenAlts(alts: Alts, after: nat): (code: seq<byte>)
    ensures |code| == LenAlts(alts)
    decreases alts
  {
    match alts
    case Only(bs) => BranchCode(GenSeq(bs, GapSeq(bs) + after))
    case Or(bs, others) =>
      BranchCode(GenSeq(bs, GapSeq(bs) + LenAlts(others) + after)) + GenAlts(others, after)
  }

  // The code of each kind of tree, in terms of the code of its body.

  lemma GenLeaf(sym: Symbol, d: nat)
    ensures Gen(Leaf(sym), d) == LeafCode(sym, d) && Gap(Leaf(sym)) == Len(Leaf(sym))
  {
    hide LeafCode, LenAlts, GenAlts;
  }

  lemma GenStar(b: Re, d: nat)
    ensures Gen(Star(b), d) == StarCode(Gen(b, Gap(b)), d) && Len(Star(b)) == Len(b) + 12
  {
    hide StarCode, LenAlts, GenAlts;
  }

  lemma GenPlus(b: Re, d: nat)
    ensures Gen(Plus(b), d) == PlusCode(Gen(b, Gap(b)), d) && Len(Plus(b)) == Len(b) + 12
  {
    hide PlusCode, LenAlts, GenAlts;
  }

  lemma GenOpt(b: Re, d: nat)
    ensures Gen(Opt(b), d) == OptCode(Gen(b, Gap(b) + 3), d) && Len(Opt(b)) == Len(b) + 9
  {
    hide OptCode, LenAlts, GenAlts;
  }

  lemma GenGroup(alts: Alts, d: nat)
    ensures Gen(Group(alts), d) == GroupCode(GenAlts(alts, 0), d) && Len(Group(alts)) == LenAlts(alts) + 6
  {
    hide GroupCode, LenAlts, GenAlts;
  }

  /** The whole program: an invalid node, the branches and the end node. */
  function Program(alts: Alts): (code: seq<byte>)
    ensures |code| == LenAlts(alts) + 6
  {
    Node(INVALID, 0) + (GenAlts(alts, 0) + Node(END, 0))
  }
}
