/** The grammar of patterns as a condition on syntax trees, without the parser: which trees it finds, and
    that it finds them in their text. */
module RegGrammar {
  import opened RegSyntax
  import opened RegProgram

  // ----- the trees of the grammar

  /** A character that stands for itself: not NUL and none of ^ $ ( ) [ * + ? | . \ */
  predicate Plain(c: byte) { c !in {0, 94, 36, 40, 41, 91, 42, 43, 63, 124, 46, 92} }

  /** The value of a `char` of eight bits with a sign. */
  predicate NotAbove(lo: byte, hi: byte) { (if lo < 128 then lo else lo - 256) <= (if hi < 128 then hi else hi - 256) }

  /** The items of a bracket expression behind the character `prev`.  A dash stands for itself only at
      the end; a range begins with the character before its dash and does not end at 127. */
  predicate RestOk(prev: byte, items: seq<ClassItem>)
    decreases |items|
  {
    items != [] ==>
      match items[0]
      case Single(c) => c != 0 && c != 93 && (c == 45 ==> |items| == 1) && RestOk(c, items[1..])
      case Upto(lo, hi) => lo == prev && hi !in {0, 93, 127} && NotAbove(lo, hi) && RestOk(hi, items[1..])
  }

  /** The first item is any character, but not the one that negates. */
  predicate ClassOk(negated: bool, items: seq<ClassItem>) {
    && items != [] && items[0].Single? && items[0].c != 0 && (items[0].c == 94 ==> negated)
    && RestOk(items[0].c, items[1..])
  }

  predicate SymbolOk(sym: Symbol) {
    match sym
    case Class(negated, items) => ClassOk(negated, items)
    case Escaped(c) => c != 0
    case Literal(text) => text != [] && forall k :: 0 <= k < |text| ==> Plain(text[k])
    case _ => true
  }

  /** What may be repeated: one character, a group, or anything else that is one node. */
  predicate Repeatable(r: Re) {
    r.Group? || (r.Leaf? && (r.sym.Literal? ==> |r.sym.text| == 1))
  }

  predicate IsLiteral(r: Re) { r.Leaf? && r.sym.Literal? }

  predicate Regular(r: Re) {
    match r
    case Leaf(sym) => SymbolOk(sym)
    case Group(alts) => RegularAlts(alts)
    case Star(b) => Repeatable(b) && Regular(b)
    case Plus(b) => Repeatable(b) && Regular(b)
    case Opt(b) => Repeatable(b) && Regular(b)
  }

  /** A literal goes on as far as it can: none follows it directly. */
  predicate RegularBlocks(bs: Blocks) {
    bs.Then? ==>
      Regular(bs.first) && RegularBlocks(bs.rest) && !(IsLiteral(bs.first) && bs.rest.Then? && IsLiteral(bs.rest.first))
  }

  predicate RegularAlts(alts: Alts) { RegularBlocks(alts.branch) && (alts.Or? ==> RegularAlts(alts.others)) }

  function Groups(r: Re): nat {
    match r
    case Leaf(_) => 0
    case Group(alts) => 1 + GroupsAlts(alts)
    case Star(b) => Groups(b)
    case Plus(b) => Groups(b)
    case Opt(b) => Groups(b)
  }

  function GroupsBlocks(bs: Blocks): nat { if bs.Empty? then 0 else Groups(bs.first) + GroupsBlocks(bs.rest) }

  function GroupsAlts(alts: Alts): nat { GroupsBlocks(alts.branch) + if alts.Or? then GroupsAlts(alts.others) else 0 }

  /** The characters of the notation, and the value of a `char`. */
  lemma Notation()
    ensures [NUL, DOLLAR, LPAREN, RPAREN, STAR, PLUS, DASH] == [0, 36, 40, 41, 42, 43, 45]
    ensures [DOT, QUESTION, LBRACKET, BACKSLASH, RBRACKET, CARET, BAR] == [46, 63, 91, 92, 93, 94, 124]
    ensures forall c: byte :: Plain(c) <==> c != NUL && !IsMeta(c)
    ensures forall a: byte, b: byte :: NotAbove(a, b) <==> Signed(a) <= Signed(b)
    ensures forall c: byte :: Signed(c) == 127 <==> c == 127
  {
  }

  // ----- the parser finds such a tree in its text: bracket expressions

  lemma {:induction false} RestParsed(s: seq<byte>, i: nat, items: seq<ClassItem>, parens: nat)
    requires 1 <= i <= |s| && At(s, i, ItemsText(items) + [RBRACKET]) && RestOk(s[i - 1], items)
    ensures ParseItems(s, i, parens) == Parsed(items, i + |ItemsText(items)| + 1, parens)
    decreases |items|
  {
    hide Signed;
    Notation();
    if items == [] {
      assert s[i] == (ItemsText(items) + [RBRACKET])[0];
    } else {
      var more := items[1..];
      TextOfItems(s, i, items);
      RestParsed(s, i + |ItemText(items[0])|, more, parens);
      assert items == [items[0]] + more;
      if items[0] == Single(DASH) { assert more == [] && s[i + 1] == ([] + [RBRACKET])[0]; }
    }
  }

  lemma TextOfItems(s: seq<byte>, i: nat, items: seq<ClassItem>)
    requires items != [] && At(s, i, ItemsText(items) + [RBRACKET])
    ensures var n := |ItemText(items[0])|;
      && |ItemsText(items)| == n + |ItemsText(items[1..])|
      && At(s, i + n, ItemsText(items[1..]) + [RBRACKET])
      && i + n <= |s| && s[i..i + n] == ItemText(items[0]) && s[i] == ItemText(items[0])[0]
      && s[i + n - 1] == ItemText(items[0])[n - 1]
  {
    var first, more := ItemText(items[0]), ItemsText(items[1..]) + [RBRACKET];
    assert ItemsText(items) + [RBRACKET] == first + more;
    AtSplit(s, i, first, more);
    assert forall k :: 0 <= k < |first| ==> s[i + k] == first[k];
  }

  lemma ClassItemsParsed(s: seq<byte>, i: nat, items: seq<ClassItem>, parens: nat)
    requires 1 <= i <= |s| && At(s, i, ItemsText(items) + [RBRACKET]) && ClassOk(true, items)
    ensures i < |s| && s[i] == items[0].c
    ensures ParseClassItems(s, i, parens) == Parsed(items, i + |ItemsText(items)| + 1, parens)
  {
    hide RestOk, ParseItems, ItemsText, Signed;
    TextOfItems(s, i, items);
    RestParsed(s, i + 1, items[1..], parens);
    assert items == [items[0]] + items[1..];
    if s[i] !in {NUL, RBRACKET, DASH} { PlainItem(s, i, parens); }
  }

  lemma ClassParsed(s: seq<byte>, i: nat, negated: bool, items: seq<ClassItem>, parens: nat)
    requires 1 <= i <= |s| && At(s, i, (if negated then [CARET] else []) + (ItemsText(items) + [RBRACKET]))
    requires ClassOk(negated, items)
    ensures ParseClass(s, i, parens) ==
      Parsed(Class(negated, items), i + (if negated then 1 else 0) + |ItemsText(items)| + 1, parens)
  {
    hide RestOk, ParseClassItems, ItemsText;
    var head: seq<byte> := if negated then [CARET] else [];
    AtSplit(s, i, head, ItemsText(items) + [RBRACKET]);
    if negated { FirstAt(s, i, head); }
    ClassItemsParsed(s, i + |head|, items, parens);
  }

  lemma PlainItem(s: seq<byte>, i: nat, parens: nat)
    requires 1 <= i < |s| && s[i] !in {NUL, RBRACKET, DASH}
    ensures ParseItems(s, i, parens) == Prepend([Single(s[i])], ParseItems(s, i + 1, parens))
  {
  }

  // ----- literals

  /** Another plain character follows that is not repeated itself. */
  predicate GoesOn(s: seq<byte>, e: nat)
    requires e <= |s|
  {
    e < |s| && Plain(s[e]) && !IsRep(CharAt(s, e + 1))
  }

  lemma {:induction false} SpanIs(s: seq<byte>, i: nat, n: nat)
    requires i + n <= |s| && forall k :: i <= k < i + n ==> Plain(s[k])
    ensures Span(s, i) == n + Span(s, i + n)
    decreases n
  {
    Notation();
    if n > 0 { SpanIs(s, i + 1, n - 1); }
  }

  /** The literal that ends at i + n is read as that, when it does not go on and only a single character
      is repeated. */
  lemma LiteralIs(s: seq<byte>, i: nat, n: nat)
    requires 0 < n && i + n <= |s| && forall k :: i <= k < i + n ==> Plain(s[k])
    requires !GoesOn(s, i + n) && (IsRep(CharAt(s, i + n)) ==> n == 1)
    ensures s[i] != NUL && !IsMeta(s[i]) && LiteralLen(s, i) == n
  {
    Notation();
    SpanIs(s, i, n);
    if i + n < |s| && Plain(s[i + n]) {
      SpanIs(s, i + n, 1);
      assert Span(s, i + n + 1) == 0;
    }
  }

  // ----- the parser finds such a tree in its text: trees

  /** How a tree's text begins. */
  lemma {:induction false} FirstChar(r: Re)
    requires Regular(r)
    ensures Text(r) != [] && !EndsBranch(Text(r)[0]) && !IsRep(Text(r)[0])
    ensures Plain(Text(r)[0]) ==> IsLiteral(r) || (!r.Leaf? && !r.Group? && IsLiteral(r.body))
    decreases r
  {
    Notation();
    match r {
      case Star(b) => FirstChar(b);
      case Plus(b) => FirstChar(b);
      case Opt(b) => FirstChar(b);
      case _ =>
    }
  }

  lemma FirstAt(s: seq<byte>, i: nat, text: seq<byte>)
    requires At(s, i, text) && text != []
    ensures i < |s| && CharAt(s, i) == s[i] == text[0]
  {
  }

  lemma LiteralParsed(s: seq<byte>, i: nat, text: seq<byte>, parens: nat)
    requires SymbolOk(Literal(text)) && At(s, i, text)
    requires var e := i + |text|; !GoesOn(s, e) && (IsRep(CharAt(s, e)) ==> |text| == 1)
    ensures ParseAtom(s, i, parens) == Parsed(Leaf(Literal(text)), i + |text|, parens)
  {
    hide LiteralLen, ParseAlts, ParseClass, GoesOn;
    forall k | i <= k < i + |text| ensures Plain(s[k]) { assert s[k] == text[k - i]; }
    LiteralIs(s, i, |text|);
    assert s[i..i + |text|] == text;
  }

  lemma LeafParsed(s: seq<byte>, i: nat, sym: Symbol, parens: nat)
    requires SymbolOk(sym) && At(s, i, SymbolText(sym))
    requires var e := i + |SymbolText(sym)|;
      sym.Literal? ==> !GoesOn(s, e) && (IsRep(CharAt(s, e)) ==> |sym.text| == 1)
    ensures ParseAtom(s, i, parens) == Parsed(Leaf(sym), i + |SymbolText(sym)|, parens)
  {
    hide ParseClass, ClassOk, LiteralLen, ParseAlts, GoesOn;
    Notation();
    FirstAt(s, i, SymbolText(sym));
    match sym {
      case Class(negated, items) =>
        var head: seq<byte> := if negated then [CARET] else [];
        var more := head + (ItemsText(items) + [RBRACKET]);
        assert SymbolText(sym) == [LBRACKET] + more;
        AtSplit(s, i, [LBRACKET], more);
        ClassParsed(s, i + 1, negated, items, parens);
      case Escaped(c) => assert s[i + 1] == SymbolText(sym)[1];
      case Literal(text) =>
        LiteralParsed(s, i, text, parens);
      case _ =>
    }
  }

  lemma {:induction false} AtomParsed(s: seq<byte>, i: nat, r: Re, parens: nat)
    requires (r.Leaf? || r.Group?) && Regular(r) && At(s, i, Text(r)) && parens + Groups(r) < 20
    requires var e := i + |Text(r)|; IsLiteral(r) ==> !GoesOn(s, e) && (IsRep(CharAt(s, e)) ==> |r.sym.text| == 1)
    ensures ParseAtom(s, i, parens) == Parsed(r, i + |Text(r)|, parens + Groups(r))
    decreases r, 0
  {
    match r {
      case Leaf(sym) => LeafParsed(s, i, sym, parens);
      case Group(alts) => GroupParsed(s, i, alts, parens);
    }
  }

  lemma {:induction false} GroupParsed(s: seq<byte>, i: nat, alts: Alts, parens: nat)
    requires RegularAlts(alts) && At(s, i, [LPAREN] + TextAlts(alts) + [RPAREN]) && parens + 1 + GroupsAlts(alts) < 20
    ensures ParseAtom(s, i, parens) == Parsed(Group(alts), i + |TextAlts(alts)| + 2, parens + 1 + GroupsAlts(alts))
    decreases alts, 5
  {
    hide ParseBranches, TextAlts, RegularAlts, GroupsAlts, GoesOn, ParseClass;
    var text := TextAlts(alts);
    assert [LPAREN] + text + [RPAREN] == [LPAREN] + (text + [RPAREN]);
    AtSplit(s, i, [LPAREN], text + [RPAREN]);
    AtSplit(s, i + 1, text, [RPAREN]);
    FirstAt(s, i, [LPAREN] + (text + [RPAREN]));
    FirstAt(s, i + 1 + |text|, [RPAREN]);
    BranchesParsed(s, i + 1, alts, parens + 1);
  }

  /** A block is read whole when no repetition follows it and, being a literal, it does not go on. */
  lemma {:induction false} BlockParsed(s: seq<byte>, i: nat, r: Re, parens: nat)
    requires Regular(r) && At(s, i, Text(r)) && parens + Groups(r) < 20
    requires var e := i + |Text(r)|; !IsRep(CharAt(s, e)) && (IsLiteral(r) ==> !GoesOn(s, e))
    ensures ParseBlock(s, i, parens) == Parsed(r, i + |Text(r)|, parens + Groups(r))
    decreases r, 1
  {
    hide ParseAtom, GoesOn;
    if r.Leaf? || r.Group? {
      AtomParsed(s, i, r, parens);
    } else {
      var op := if r.Star? then STAR else if r.Plus? then PLUS else QUESTION;
      RepeatedParsed(s, i, r, op, parens);
    }
  }

  lemma {:induction false} RepeatedParsed(s: seq<byte>, i: nat, r: Re, op: byte, parens: nat)
    requires !r.Leaf? && !r.Group? && Regular(r) && At(s, i, Text(r)) && parens + Groups(r) < 20
    requires IsRep(op) && r == Repeat(op, r.body) && !IsRep(CharAt(s, i + |Text(r)|))
    ensures ParseBlock(s, i, parens) == Parsed(r, i + |Text(r)|, parens + Groups(r))
    decreases r, 0
  {
    hide ParseAtom, Regular;
    var b := r.body;
    RepeatedIs(r);
    assert Text(r) == Text(b) + [op];
    AtSplit(s, i, Text(b), [op]);
    FirstAt(s, i + |Text(b)|, [op]);
    RepNotPlain(op);
    AtomParsed(s, i, b, parens);
  }

  lemma RepeatedIs(r: Re)
    requires !r.Leaf? && !r.Group? && Regular(r)
    ensures Regular(r.body) && Repeatable(r.body)
  {
  }

  lemma RepNotPlain(op: byte)
    ensures IsRep(op) ==> !Plain(op)
  {
    Notation();
  }

  lemma {:induction false} BranchParsed(s: seq<byte>, i: nat, bs: Blocks, parens: nat)
    requires RegularBlocks(bs) && At(s, i, TextBlocks(bs)) && parens + GroupsBlocks(bs) < 20
    requires EndsBranch(CharAt(s, i + |TextBlocks(bs)|))
    ensures ParseBranch(s, i, parens) == Parsed(bs, i + |TextBlocks(bs)|, parens + GroupsBlocks(bs))
    decreases bs, 2
  {
    hide ParseBlock, Text, Regular, GoesOn, Groups;
    if bs.Then? {
      AtSplit(s, i, Text(bs.first), TextBlocks(bs.rest));
      FirstChar(bs.first);
      FirstAt(s, i, TextBlocks(bs));
      BlockEnds(s, i + |Text(bs.first)|, bs);
      BlockParsed(s, i, bs.first, parens);
      BranchParsed(s, i + |Text(bs.first)|, bs.rest, parens + Groups(bs.first));
    }
  }

  /** What stands behind the first block. */
  lemma BlockEnds(s: seq<byte>, e: nat, bs: Blocks)
    requires bs.Then? && RegularBlocks(bs) && At(s, e, TextBlocks(bs.rest))
    requires EndsBranch(CharAt(s, e + |TextBlocks(bs.rest)|))
    ensures !IsRep(CharAt(s, e)) && (IsLiteral(bs.first) ==> !GoesOn(s, e))
  {
    hide Text, Regular;
    Notation();
    if bs.rest.Then? {
      var next := bs.rest.first;
      FirstChar(next);
      FirstAt(s, e, TextBlocks(bs.rest));
      if !next.Leaf? && !next.Group? && IsLiteral(next.body) { RepeatedChar(s, e, next, TextBlocks(bs.rest.rest)); }
    }
  }

  lemma RepeatedChar(s: seq<byte>, e: nat, r: Re, more: seq<byte>)
    requires !r.Leaf? && !r.Group? && Regular(r) && IsLiteral(r.body) && At(s, e, Text(r) + more)
    ensures e + 1 < |s| && IsRep(CharAt(s, e + 1))
  {
    assert |Text(r.body)| == 1 && |Text(r)| == 2 && IsRep(Text(r)[1]);
    assert s[e + 1] == (Text(r) + more)[1];
  }

  lemma {:induction false} BranchesParsed(s: seq<byte>, i: nat, alts: Alts, parens: nat)
    requires RegularAlts(alts) && At(s, i, TextAlts(alts)) && parens + GroupsAlts(alts) < 20
    requires CharAt(s, i + |TextAlts(alts)|) in {NUL, RPAREN}
    ensures ParseBranches(s, i, parens) == Parsed(alts, i + |TextAlts(alts)|, parens + GroupsAlts(alts))
    decreases alts, 3
  {
    hide ParseBranch, TextBlocks, RegularBlocks, GroupsBlocks;
    match alts {
      case Only(bs) => BranchParsed(s, i, bs, parens);
      case Or(bs, others) =>
        var more := [BAR] + TextAlts(others);
        assert TextAlts(alts) == TextBlocks(bs) + more;
        AtSplit(s, i, TextBlocks(bs), more);
        FirstAt(s, i + |TextBlocks(bs)|, more);
        AtSplit(s, i + |TextBlocks(bs)|, [BAR], TextAlts(others));
        BranchParsed(s, i, bs, parens);
        BranchesParsed(s, i + |TextBlocks(bs)| + 1, others, parens + GroupsBlocks(bs));
    }
  }

  // ----- every tree that the parser finds is one of the grammar

  lemma {:induction false} RestFound(s: seq<byte>, i: nat, parens: nat)
    requires 1 <= i <= |s|
    ensures var r := ParseItems(s, i, parens); r.Parsed? ==> i < |s| && RestOk(s[i - 1], r.val)
    decreases |s| - i
  {
    hide Signed;
    Notation();
    var r, hi := ParseItems(s, i, parens), if i < |s| then CharAt(s, i + 1) else NUL;
    if r.Parsed? && s[i] != RBRACKET {
      if s[i] == DASH && hi != RBRACKET && hi != NUL {
        RestFound(s, i + 2, parens);
        RangeRead(s, i, parens);
        OneMore(Upto(s[i - 1], s[i + 1]), ParseItems(s, i + 2, parens).val, s[i - 1]);
      } else {
        RestFound(s, i + 1, parens);
        if s[i] == DASH { assert ParseItems(s, i + 1, parens).val == []; }
        OneMore(Single(s[i]), ParseItems(s, i + 1, parens).val, s[i - 1]);
      }
    }
  }

  lemma RangeRead(s: seq<byte>, i: nat, parens: nat)
    requires 1 <= i && i + 1 < |s| && s[i] == DASH && s[i + 1] !in {NUL, RBRACKET}
    requires ParseItems(s, i, parens).Parsed?
    ensures var rest := ParseItems(s, i + 2, parens);
      rest.Parsed? && ParseItems(s, i, parens).val == [Upto(s[i - 1], s[i + 1])] + rest.val
    ensures s[i + 1] != 127 && NotAbove(s[i - 1], s[i + 1])
  {
    Notation();
  }

  lemma OneMore(item: ClassItem, rest: seq<ClassItem>, prev: byte)
    requires match item
      case Single(c) => c != 0 && c != 93 && (c == 45 ==> rest == []) && RestOk(c, rest)
      case Upto(lo, hi) => lo == prev && hi !in {0, 93, 127} && NotAbove(lo, hi) && RestOk(hi, rest)
    ensures RestOk(prev, [item] + rest)
  {
    assert ([item] + rest)[1..] == rest;
  }

  lemma ClassFound(s: seq<byte>, i: nat, parens: nat)
    requires 1 <= i <= |s|
    ensures var r := ParseClass(s, i, parens); r.Parsed? ==> r.val.Class? && ClassOk(r.val.negated, r.val.items)
  {
    hide RestOk, Signed;
    Notation();
    var i1 := if CharAt(s, i) == CARET then i + 1 else i;
    var r := ParseClass(s, i, parens);
    if r.Parsed? {
      var rest := ParseItems(s, i1 + 1, parens);
      RestFound(s, i1 + 1, parens);
      if s[i1] !in {NUL, RBRACKET, DASH} { PlainItem(s, i1, parens); }
      assert rest.Parsed? && r.val.items == [Single(s[i1])] + rest.val;
      assert r.val.items[1..] == rest.val;
    }
  }

  /** A literal does not go on, and a longer one has no repetition behind it. */
  lemma LiteralEnds(s: seq<byte>, i: nat)
    requires i < |s| && s[i] != NUL && !IsMeta(s[i])
    ensures var n := LiteralLen(s, i);
      && (forall k :: i <= k < i + n ==> Plain(s[k])) && !GoesOn(s, i + n) && (IsRep(CharAt(s, i + n)) ==> n == 1)
  {
    Notation();
    var n := Span(s, i);
    assert forall k :: i <= k < i + n ==> Plain(s[k]);
    if i + n < |s| { assert !Plain(s[i + n]); }
  }

  lemma {:induction false} AtomFound(s: seq<byte>, i: nat, parens: nat)
    requires i <= |s| && parens < 20
    ensures var r := ParseAtom(s, i, parens);
      r.Parsed? ==>
        && (r.val.Leaf? || r.val.Group?) && Regular(r.val) && r.parens == parens + Groups(r.val) < 20
        && (IsLiteral(r.val) ==> !GoesOn(s, r.idx) && (IsRep(CharAt(s, r.idx)) ==> |r.val.sym.text| == 1))
    decreases |s| - i, 0
  {
    hide LiteralLen, ParseClass, ParseAlts, ClassOk, RegularAlts, GoesOn;
    Notation();
    var ch := CharAt(s, i);
    if ch == LBRACKET {
      ClassFound(s, i + 1, parens);
    } else if ch == LPAREN {
      AltsFound(s, true, i + 1, parens);
    } else if ch != NUL && !IsMeta(ch) {
      LiteralEnds(s, i);
      var n := LiteralLen(s, i);
      var text := s[i..i + n];
      forall k | 0 <= k < n ensures Plain(text[k]) { assert text[k] == s[i + k]; }
    }
  }

  lemma {:induction false} BlockFound(s: seq<byte>, i: nat, parens: nat)
    requires i <= |s| && parens < 20
    ensures var r := ParseBlock(s, i, parens);
      r.Parsed? ==>
        Regular(r.val) && r.parens == parens + Groups(r.val) < 20 && (IsLiteral(r.val) ==> !GoesOn(s, r.idx))
    decreases |s| - i, 1
  {
    hide ParseAtom, GoesOn;
    AtomFound(s, i, parens);
  }

  /** Behind a literal that does not go on there is no other. */
  lemma NoSecond(s: seq<byte>, e: nat, parens: nat)
    requires e <= |s| && !GoesOn(s, e)
    ensures var r := ParseBlock(s, e, parens); r.Parsed? ==> !IsLiteral(r.val)
  {
    hide ParseClass, ParseAlts;
    Notation();
    if CharAt(s, e) == LBRACKET {
      ClassFound(s, e + 1, parens);
    } else if e < |s| && Plain(s[e]) {
      SpanIs(s, e, 1);
      assert Span(s, e + 1) == 0;
    }
  }

  lemma {:induction false} BranchFound(s: seq<byte>, i: nat, parens: nat)
    requires i <= |s| && parens < 20
    ensures var r := ParseBranch(s, i, parens);
      r.Parsed? ==> RegularBlocks(r.val) && r.parens == parens + GroupsBlocks(r.val) < 20
    decreases |s| - i, 2
  {
    hide ParseBlock, Regular, Groups, GoesOn;
    if !EndsBranch(CharAt(s, i)) {
      BlockFound(s, i, parens);
      var b := ParseBlock(s, i, parens);
      if b.Parsed? {
        BranchFound(s, b.idx, b.parens);
        if IsLiteral(b.val) { NoSecond(s, b.idx, b.parens); }
      }
    }
  }

  lemma {:induction false} BranchesFound(s: seq<byte>, i: nat, parens: nat)
    requires i <= |s| && parens < 20
    ensures var r := ParseBranches(s, i, parens);
      r.Parsed? ==> RegularAlts(r.val) && r.parens == parens + GroupsAlts(r.val) < 20
    decreases |s| - i, 3
  {
    hide ParseBranch, RegularBlocks, GroupsBlocks;
    BranchFound(s, i, parens);
    var b := ParseBranch(s, i, parens);
    if b.Parsed? && CharAt(s, b.idx) == BAR { BranchesFound(s, b.idx + 1, b.parens); }
  }

  lemma {:induction false} AltsFound(s: seq<byte>, paren: bool, i: nat, parens: nat)
    requires i <= |s| && parens < 20
    ensures var r := ParseAlts(s, paren, i, parens);
      r.Parsed? ==> RegularAlts(r.val) && r.parens == parens + (if paren then 1 else 0) + GroupsAlts(r.val) < 20
    decreases |s| - i, 4
  {
    hide ParseBranches, RegularAlts, GroupsAlts;
    var p := if paren then parens + 1 else parens;
    if p < 20 { BranchesFound(s, i, p); }
  }

  // ----- the grammar

  /** t is a tree of the grammar with fewer than twenty groups, and its text is the pattern up to n, where
      the pattern has its end or a NUL. */
  predicate Writes(t: Alts, s: seq<byte>, n: nat) {
    RegularAlts(t) && GroupsAlts(t) < 20 && n <= |s| && TextAlts(t) == s[..n] && CharAt(s, n) == 0
  }

  /** The parser accepts a pattern with the tree t exactly when t is such a tree. */
  lemma ParsedIff(s: seq<byte>, t: Alts, n: nat)
    ensures (exists g: nat :: ParsePattern(s) == Parsed(t, n, g)) <==> Writes(t, s, n)
  {
    hide ParsePattern, RegularAlts, GroupsAlts, TextAlts;
    if g: nat :| ParsePattern(s) == Parsed(t, n, g) {
      PatternFound(s);
      ParsePatternText(s);
    }
    if Writes(t, s, n) {
      PatternParsed(s, t);
    }
  }

  /** A repetition takes the one character before it: "ab*". */
  lemma LastOnly()
    ensures ParsePattern([97, 98, 42]) ==
      Parsed(Only(Then(Leaf(Literal([97])), Then(Star(Leaf(Literal([98]))), Empty))), 3, 0)
  {
    var star := Star(Leaf(Literal([98])));
    var bs := Then(Leaf(Literal([97])), Then(star, Empty));
    assert Text(star) == [98, 42] && Regular(star);
    assert TextBlocks(bs) == [97, 98, 42] && RegularBlocks(bs) && GroupsBlocks(bs) == 0;
    PatternParsed([97, 98, 42], Only(bs));
  }

  lemma PatternFound(s: seq<byte>)
    ensures var r := ParsePattern(s); r.Parsed? ==> RegularAlts(r.val) && r.parens == GroupsAlts(r.val) < 20
  {
    hide ParseAlts;
    AltsFound(s, false, 0, 0);
  }

  lemma PatternParsed(s: seq<byte>, t: Alts)
    requires RegularAlts(t) && GroupsAlts(t) < 20 && At(s, 0, TextAlts(t)) && CharAt(s, |TextAlts(t)|) == NUL
    ensures ParsePattern(s) == Parsed(t, |TextAlts(t)|, GroupsAlts(t))
  {
    hide ParseBranches;
    BranchesParsed(s, 0, t, 0);
  }
}
