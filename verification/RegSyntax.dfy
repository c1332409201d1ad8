/** The pattern language of base/simple_reg.cc: syntax trees, their concrete
    syntax, and a parser written as a function of the pattern text. */
module RegSyntax {
  type byte = x: int | 0 <= x < 256

  /** The return codes the regular-expression code can produce. */
  datatype Code =
    | Ok | RegNotMatch | InvalidParam | InvalidRange | InvalidRegNfa | NoNextNode
    | InvalidLength | InvalidRegExp | InvalidInBracket | InvalidMetaOperator
    | InvalidRegEnd | ParenNumExceed

  const NUL: byte := 0
  const DOLLAR: byte := 36
  const LPAREN: byte := 40
  const RPAREN: byte := 41
  const STAR: byte := 42
  const PLUS: byte := 43
  const DASH: byte := 45
  const DOT: byte := 46
  const QUESTION: byte := 63
  const LBRACKET: byte := 91
  const BACKSLASH: byte := 92
  const RBRACKET: byte := 93
  const CARET: byte := 94
  const BAR: byte := 124

  const MAX_PAREN_NUM := 20

  /** One item between brackets.  `Upto(hi)` is the text "-hi": it adds every
      character after the one written before the dash, up to `hi`. */
  datatype ClassItem = Single(c: byte) | Upto(lo: byte, hi: byte)

  /** What one node of the program can stand for. */
  datatype Symbol =
    | Bol
    | Eol
    | Any
    | Class(negated: bool, items: seq<ClassItem>)
    | Escaped(c: byte)
    | Literal(text: seq<byte>)

  /** The blocks of a branch. */
  datatype Blocks = Empty | Then(first: Re, rest: Blocks)

  /** The branches of a group or of the whole pattern: at least one. */
  datatype Alts = Only(branch: Blocks) | Or(branch: Blocks, others: Alts)

  /** A block is an atom with at most one repetition operator; a branch is a
      sequence of blocks; a group is a list of branches. */
  datatype Re =
    | Leaf(sym: Symbol)
    | Group(alts: Alts)
    | Star(body: Re)
    | Plus(body: Re)
    | Opt(body: Re)

  predicate WellFormedSymbol(sym: Symbol) {
    match sym
    case Escaped(c) => c != NUL
    case Literal(text) => text != [] && NUL !in text
    case _ => true
  }

  /** What the parser guarantees of every tree. */
  predicate WellFormed(r: Re) {
    match r
    case Leaf(sym) => WellFormedSymbol(sym)
    case Group(alts) => WellFormedAlts(alts)
    case Star(b) => WellFormed(b)
    case Plus(b) => WellFormed(b)
    case Opt(b) => WellFormed(b)
  }

  predicate WellFormedBlocks(bs: Blocks) {
    match bs
    case Empty => true
    case Then(b, rest) => WellFormed(b) && WellFormedBlocks(rest)
  }

  predicate WellFormedAlts(alts: Alts) {
    match alts
    case Only(bs) => WellFormedBlocks(bs)
    case Or(bs, others) => WellFormedBlocks(bs) && WellFormedAlts(others)
  }

  /** The value of a `char` on the platforms the code targets. */
  function Signed(c: byte): int { if c < 128 then c else c - 256 }

  function FromSigned(v: int): byte
    requires -128 <= v < 128
  {
    if v >= 0 then v else v + 256
  }

  /** The characters with signed value in lo..hi, in increasing order. */
  function Interval(lo: int, hi: int): seq<byte>
    requires -128 <= lo && hi < 128
    decreases hi - lo
  {
    if lo > hi then [] else [FromSigned(lo)] + Interval(lo + 1, hi)
  }

  function ItemChars(item: ClassItem): seq<byte> {
    match item
    case Single(c) => [c]
    case Upto(lo, hi) => Interval(Signed(lo) + 1, Signed(hi))
  }

  function ItemsChars(items: seq<ClassItem>): seq<byte> {
    if items == [] then [] else ItemChars(items[0]) + ItemsChars(items[1..])
  }

  lemma ItemsCharsFirst(items: seq<ClassItem>)
    requires items != []
    ensures ItemsChars(items) == ItemChars(items[0]) + ItemsChars(items[1..])
  {
    hide ItemChars;
  }

  lemma ItemsCharsOne(item: ClassItem)
    ensures ItemsChars([item]) == ItemChars(item)
  {
    hide ItemChars;
    assert [item][1..] == [];
  }

  lemma {:induction false} ItemsCharsSnoc(items: seq<ClassItem>, item: ClassItem)
    ensures ItemsChars(items + [item]) == ItemsChars(items) + ItemChars(item)
    decreases |items|
  {
    hide ItemChars, ItemsChars;
    if items == [] {
      assert items + [item] == [item];
      ItemsCharsOne(item);
      assert ItemsChars([]) + ItemChars(item) == ItemChars(item) by { ItemsCharsNone(); }
    } else {
      ItemsCharsFirst(items);
      ItemsCharsFirst(items + [item]);
      ItemsCharsSnoc(items[1..], item);
      assert (items + [item])[1..] == items[1..] + [item];
    }
  }

  lemma ItemsCharsNone()
    ensures ItemsChars([]) == []
  {
  }

  predicate IsRep(c: byte) { c == STAR || c == PLUS || c == QUESTION }

  predicate IsMeta(c: byte) {
    c == CARET || c == DOLLAR || c == LPAREN || c == RPAREN || c == LBRACKET || IsRep(c) ||
    c == BAR || c == DOT || c == BACKSLASH
  }

  /** `reg_str_[i]`: the string's own terminator is readable. */
  function CharAt(s: seq<byte>, i: nat): byte
    requires i <= |s|
  {
    if i < |s| then s[i] else NUL
  }

  // ----- the parser

  /** The result of parsing from some index: a value, the index after it and the
      number of opening parentheses seen so far; an error; or `Hangs`, for a
      bracket range whose upper end is the largest `char`, where the loop that
      expands the range never ends. */
  datatype Parsed<T> =
    | Parsed(val: T, idx: nat, parens: nat)
    | Error(code: Code)
    | Hangs

  function Prepend<T>(xs: seq<T>, r: Parsed<seq<T>>): Parsed<seq<T>> {
    if r.Parsed? then Parsed(xs + r.val, r.idx, r.parens) else r
  }

  /** The length of the longest run without meta characters from index i. */
  function Span(s: seq<byte>, i: nat): (n: nat)
    requires i <= |s|
    ensures i + n <= |s|
    ensures forall k :: i <= k < i + n ==> s[k] != NUL && !IsMeta(s[k])
    ensures CharAt(s, i + n) == NUL || IsMeta(CharAt(s, i + n))
    decreases |s| - i
  {
    if i == |s| || s[i] == NUL || IsMeta(s[i]) then 0 else 1 + Span(s, i + 1)
  }

  function LiteralLen(s: seq<byte>, i: nat): (n: nat)
    requires i < |s| && s[i] != NUL && !IsMeta(s[i])
    ensures 0 < n && i + n <= |s|
    ensures forall k :: i <= k < i + n ==> s[k] != NUL
  {
    var n := Span(s, i);
    if n > 1 && i + n < |s| && IsRep(s[i + n]) then n - 1 else n
  }

  /** The items from index i to the closing bracket. */
  function ParseItems(s: seq<byte>, i: nat, parens: nat): (r: Parsed<seq<ClassItem>>)
    requires 1 <= i <= |s|
    ensures r.Parsed? ==> i < r.idx <= |s| && r.parens == parens
    decreases |s| - i
  {
    var ch := CharAt(s, i);
    if ch == NUL then Error(InvalidInBracket)
    else if ch == RBRACKET then Parsed([], i + 1, parens)
    else if ch != DASH then Prepend([Single(ch)], ParseItems(s, i + 1, parens))
    else
      var hi := CharAt(s, i + 1);
      if hi == NUL || hi == RBRACKET then Prepend([Single(DASH)], ParseItems(s, i + 1, parens))
      else if Signed(s[i - 1]) > Signed(hi) then Error(InvalidRange)
      else if Signed(hi) == 127 then Hangs
      else Prepend([Upto(s[i - 1], hi)], ParseItems(s, i + 2, parens))
  }

  /** The inside of a bracket expression; a bracket or dash written first stands for itself. */
  function ParseClassItems(s: seq<byte>, i: nat, parens: nat): (r: Parsed<seq<ClassItem>>)
    requires 1 <= i <= |s|
    ensures r.Parsed? ==> i < r.idx <= |s| && r.parens == parens
  {
    var ch := CharAt(s, i);
    if ch == RBRACKET || ch == DASH then Prepend([Single(ch)], ParseItems(s, i + 1, parens))
    else ParseItems(s, i, parens)
  }

  /** A bracket expression; i is the index after the opening bracket. */
  function ParseClass(s: seq<byte>, i: nat, parens: nat): (r: Parsed<Symbol>)
    requires 1 <= i <= |s|
    ensures r.Parsed? ==> i < r.idx <= |s| && r.parens == parens && WellFormedSymbol(r.val)
  {
    var negated := CharAt(s, i) == CARET;
    match ParseClassItems(s, if negated then i + 1 else i, parens)
    case Parsed(items, idx, p) => Parsed(Class(negated, items), idx, p)
    case Error(c) => Error(c)
    case Hangs => Hangs
  }

  /** An atom: an anchor, a class, a group, an escaped character or a literal run. */
  function ParseAtom(s: seq<byte>, i: nat, parens: nat): (r: Parsed<Re>)
    requires i <= |s|
    ensures r.Parsed? ==> i < r.idx <= |s|
    ensures r.Parsed? ==> WellFormed(r.val)
    decreases |s| - i, 0
  {
    var ch := CharAt(s, i);
    if ch == CARET then Parsed(Leaf(Bol), i + 1, parens)
    else if ch == DOLLAR then Parsed(Leaf(Eol), i + 1, parens)
    else if ch == DOT then Parsed(Leaf(Any), i + 1, parens)
    else if ch == LBRACKET then
      match ParseClass(s, i + 1, parens)
      case Parsed(sym, idx, p) => Parsed(Leaf(sym), idx, p)
      case Error(c) => Error(c)
      case Hangs => Hangs
    else if ch == LPAREN then
      match ParseAlts(s, true, i + 1, parens)
      case Parsed(alts, idx, p) => Parsed(Group(alts), idx, p)
      case Error(c) => Error(c)
      case Hangs => Hangs
    else if ch == RPAREN || ch == BAR || IsRep(ch) then Error(InvalidMetaOperator)
    else if ch == NUL then Error(InvalidRegEnd)
    else if ch == BACKSLASH then
      if CharAt(s, i + 1) == NUL then Error(InvalidRegEnd)
      else Parsed(Leaf(Escaped(s[i + 1])), i + 2, parens)
    else
      var n := LiteralLen(s, i);
      Parsed(Leaf(Literal(s[i..i + n])), i + n, parens)
  }

  function Repeat(op: byte, r: Re): Re
    requires IsRep(op)
  {
    if op == STAR then Star(r) else if op == PLUS then Plus(r) else Opt(r)
  }

  /** An atom and the repetition operator after it, if there is one. */
  function ParseBlock(s: seq<byte>, i: nat, parens: nat): (r: Parsed<Re>)
    requires i <= |s|
    ensures r.Parsed? ==> i < r.idx <= |s|
    ensures r.Parsed? ==> WellFormed(r.val)
    decreases |s| - i, 1
  {
    match ParseAtom(s, i, parens)
    case Parsed(atom, idx, p) =>
      var ch := CharAt(s, idx);
      if !IsRep(ch) then Parsed(atom, idx, p)
      else if IsRep(CharAt(s, idx + 1)) then Error(InvalidRegExp)
      else Parsed(Repeat(ch, atom), idx + 1, p)
    case r => r
  }

  predicate EndsBranch(ch: byte) { ch == NUL || ch == BAR || ch == RPAREN }

  function ParseBranch(s: seq<byte>, i: nat, parens: nat): (r: Parsed<Blocks>)
    requires i <= |s|
    ensures r.Parsed? ==> i <= r.idx <= |s| && EndsBranch(CharAt(s, r.idx)) && WellFormedBlocks(r.val)
    decreases |s| - i, 2
  {
    if EndsBranch(CharAt(s, i)) then Parsed(Empty, i, parens)
    else
      match ParseBlock(s, i, parens)
      case Parsed(b, idx, p) => AfterBlock(b, ParseBranch(s, idx, p))
      case Error(c) => Error(c)
      case Hangs => Hangs
  }

  function AfterBlock(b: Re, r: Parsed<Blocks>): Parsed<Blocks> {
    if r.Parsed? then Parsed(Then(b, r.val), r.idx, r.parens) else r
  }

  function ParseBranches(s: seq<byte>, i: nat, parens: nat): (r: Parsed<Alts>)
    requires i <= |s|
    ensures r.Parsed? ==> i <= r.idx <= |s| && WellFormedAlts(r.val)
    decreases |s| - i, 3
  {
    match ParseBranch(s, i, parens)
    case Parsed(bs, idx, p) =>
      if CharAt(s, idx) == BAR then AfterBranch(bs, ParseBranches(s, idx + 1, p))
      else Parsed(Only(bs), idx, p)
    case Error(c) => Error(c)
    case Hangs => Hangs
  }

  function AfterBranch(bs: Blocks, r: Parsed<Alts>): Parsed<Alts> {
    if r.Parsed? then Parsed(Or(bs, r.val), r.idx, r.parens) else r
  }

  /** A list of branches and what ends it: a closing parenthesis inside a group,
      the end of the pattern outside. */
  function ParseAlts(s: seq<byte>, paren: bool, i: nat, parens: nat): (r: Parsed<Alts>)
    requires i <= |s|
    ensures r.Parsed? ==> i <= r.idx <= |s| && WellFormedAlts(r.val)
    decreases |s| - i, 4
  {
    var p0 := if paren then parens + 1 else parens;
    if paren && p0 >= MAX_PAREN_NUM then Error(ParenNumExceed)
    else
      match ParseBranches(s, i, p0)
      case Parsed(alts, idx, p) =>
        if paren then
          if CharAt(s, idx) != RPAREN then Error(InvalidMetaOperator) else Parsed(alts, idx + 1, p)
        else
          if CharAt(s, idx) != NUL then Error(InvalidRegEnd) else Parsed(alts, idx, p)
      case r => r
  }

  /** The syntax tree of a whole pattern. */
  function ParsePattern(s: seq<byte>): Parsed<Alts> { ParseAlts(s, false, 0, 0) }

  // ----- concrete syntax

  function ItemText(item: ClassItem): seq<byte> {
    match item
    case Single(c) => [c]
    case Upto(_, hi) => [DASH, hi]
  }

  function ItemsText(items: seq<ClassItem>): seq<byte> {
    if items == [] then [] else ItemText(items[0]) + ItemsText(items[1..])
  }

  function SymbolText(sym: Symbol): seq<byte> {
    match sym
    case Bol => [CARET]
    case Eol => [DOLLAR]
    case Any => [DOT]
    case Class(negated, items) =>
      [LBRACKET] + (if negated then [CARET] else []) + ItemsText(items) + [RBRACKET]
    case Escaped(c) => [BACKSLASH, c]
    case Literal(text) => text
  }

  /** How a tree is written as pattern text. */
  function Text(r: Re): seq<byte> {
    match r
    case Leaf(sym) => SymbolText(sym)
    case Group(alts) => [LPAREN] + TextAlts(alts) + [RPAREN]
    case Star(body) => Text(body) + [STAR]
    case Plus(body) => Text(body) + [PLUS]
    case Opt(body) => Text(body) + [QUESTION]
  }

  function TextBlocks(bs: Blocks): seq<byte> {
    match bs
    case Empty => []
    case Then(b, rest) => Text(b) + TextBlocks(rest)
  }

  function TextAlts(alts: Alts): seq<byte> {
    match alts
    case Only(bs) => TextBlocks(bs)
    case Or(bs, others) => TextBlocks(bs) + [BAR] + TextAlts(others)
  }

  lemma {:induction false} ParseItemsText(s: seq<byte>, i: nat, parens: nat)
    requires 1 <= i <= |s|
    ensures var r := ParseItems(s, i, parens);
      r.Parsed? ==> ItemsText(r.val) + [RBRACKET] == s[i..r.idx]
    decreases |s| - i
  {
    hide ItemsText;
    var r := ParseItems(s, i, parens);
    if r.Parsed? && s[i] == RBRACKET {
      ItemsTextNone();
    } else if r.Parsed? {
      if s[i] == DASH && s[i + 1] != RBRACKET {
        ParseItemsText(s, i + 2, parens);
        ItemsTextFirst(Upto(s[i - 1], s[i + 1]), ParseItems(s, i + 2, parens).val);
        assert s[i..r.idx] == [DASH, s[i + 1]] + s[i + 2..r.idx];
      } else {
        ParseItemsText(s, i + 1, parens);
        ItemsTextFirst(Single(s[i]), ParseItems(s, i + 1, parens).val);
        assert s[i..r.idx] == [s[i]] + s[i + 1..r.idx];
      }
    }
  }

  lemma ItemsTextNone()
    ensures ItemsText([]) == []
  {
  }

  lemma ItemsTextFirst(item: ClassItem, rest: seq<ClassItem>)
    ensures ItemsText([item] + rest) == ItemText(item) + ItemsText(rest)
  {
    assert ([item] + rest)[1..] == rest;
  }

  lemma {:induction false} ParseClassItemsText(s: seq<byte>, i: nat, parens: nat)
    requires 1 <= i <= |s|
    ensures var r := ParseClassItems(s, i, parens);
      r.Parsed? ==> ItemsText(r.val) + [RBRACKET] == s[i..r.idx]
  {
    var ch := CharAt(s, i);
    if ch == RBRACKET || ch == DASH {
      var r := ParseItems(s, i + 1, parens);
      ParseItemsText(s, i + 1, parens);
      if r.Parsed? {
        assert ([Single(ch)] + r.val)[1..] == r.val;
        assert s[i..r.idx] == [ch] + s[i + 1..r.idx];
      }
    } else {
      ParseItemsText(s, i, parens);
    }
  }

  lemma {:induction false} ParseClassText(s: seq<byte>, i: nat, parens: nat)
    requires 1 <= i <= |s| && s[i - 1] == LBRACKET
    ensures var r := ParseClass(s, i, parens); r.Parsed? ==> SymbolText(r.val) == s[i - 1..r.idx]
  {
    var i1 := if CharAt(s, i) == CARET then i + 1 else i;
    ParseClassItemsText(s, i1, parens);
    var r := ParseClass(s, i, parens);
    if r.Parsed? {
      assert s[i - 1..r.idx] == s[i - 1..i1] + s[i1..r.idx];
      assert s[i - 1..i1] == [LBRACKET] + if CharAt(s, i) == CARET then [CARET] else [];
    }
  }

  lemma {:induction false} ParseAtomText(s: seq<byte>, i: nat, parens: nat)
    requires i <= |s|
    ensures var r := ParseAtom(s, i, parens); r.Parsed? ==> Text(r.val) == s[i..r.idx]
    decreases |s| - i, 0
  {
    var ch := CharAt(s, i);
    if ch == LBRACKET {
      ParseClassText(s, i + 1, parens);
    } else if ch == LPAREN {
      ParseAltsText(s, true, i + 1, parens);
    }
  }

  lemma {:induction false} ParseBlockText(s: seq<byte>, i: nat, parens: nat)
    requires i <= |s|
    ensures var r := ParseBlock(s, i, parens); r.Parsed? ==> Text(r.val) == s[i..r.idx]
    decreases |s| - i, 1
  {
    hide ParseAtom, SymbolText, TextAlts, IsMeta, ParseItems;
    ParseAtomText(s, i, parens);
  }

  lemma {:induction false} ParseBranchText(s: seq<byte>, i: nat, parens: nat)
    requires i <= |s|
    ensures var r := ParseBranch(s, i, parens); r.Parsed? ==> TextBlocks(r.val) == s[i..r.idx]
    decreases |s| - i, 2
  {
    hide ParseBlock, Text, IsMeta, TextAlts;
    var r := ParseBranch(s, i, parens);
    if r.Parsed? && !EndsBranch(CharAt(s, i)) {
      var b := ParseBlock(s, i, parens);
      ParseBlockText(s, i, parens);
      ParseBranchText(s, b.idx, b.parens);
      assert s[i..r.idx] == s[i..b.idx] + s[b.idx..r.idx];
    }
  }

  lemma {:induction false} ParseBranchesText(s: seq<byte>, i: nat, parens: nat)
    requires i <= |s|
    ensures var r := ParseBranches(s, i, parens); r.Parsed? ==> TextAlts(r.val) == s[i..r.idx]
    decreases |s| - i, 3
  {
    hide ParseBranch, TextBlocks, IsMeta;
    var r := ParseBranches(s, i, parens);
    if r.Parsed? {
      var b := ParseBranch(s, i, parens);
      ParseBranchText(s, i, parens);
      if CharAt(s, b.idx) == BAR {
        ParseBranchesText(s, b.idx + 1, b.parens);
        assert s[i..r.idx] == s[i..b.idx] + [BAR] + s[b.idx + 1..r.idx];
      }
    }
  }

  lemma {:induction false} ParseAltsText(s: seq<byte>, paren: bool, i: nat, parens: nat)
    requires i <= |s|
    ensures var r := ParseAlts(s, paren, i, parens);
      r.Parsed? ==> TextAlts(r.val) + (if paren then [RPAREN] else []) == s[i..r.idx]
    decreases |s| - i, 4
  {
    hide ParseBranches, TextAlts;
    ParseBranchesText(s, i, if paren then parens + 1 else parens);
  }

  /** The tree of an accepted pattern, written out, is the pattern itself up to
      its first NUL. */
  lemma ParsePatternText(s: seq<byte>)
    ensures var r := ParsePattern(s);
      r.Parsed? ==>
        WellFormedAlts(r.val) && r.idx <= |s| && TextAlts(r.val) == s[..r.idx] && CharAt(s, r.idx) == NUL
  {
    ParseAltsText(s, false, 0, 0);
  }
}
