/** What a node program does on a subject, step by step, and what a syntax tree
    means on a subject.  `RegSound` and `RegComplete` relate the two. */
module RegSemantics {
  import opened RegSyntax
  import opened RegProgram

  // ----- the interpreter, with a bound on the number of steps

  datatype NextResult = To(pos: nat) | Fail(code: Code)

  function GetNextNodePos(nfa: seq<byte>, p: nat): (r: NextResult)
    ensures r.Fail? && r.code == NoNextNode ==> p + NODE_SIZE <= |nfa|
    ensures r.To? ==> p + NODE_SIZE <= |nfa| && r.pos < |nfa|
  {
    if p >= |nfa| || p + NODE_SIZE > |nfa| then Fail(InvalidRange)
    else
      var d := Next(nfa, p);
      if d == 0 then Fail(NoNextNode)
      else if Op(nfa, p) == BACK then
        if p < d then Fail(InvalidRange) else To(p - d)
      else
        if p + d >= |nfa| then Fail(InvalidRange) else To(p + d)
  }

  /** The C string at p: everything before the next NUL. */
  function CStr(nfa: seq<byte>, p: nat): (r: seq<byte>)
    requires p <= |nfa|
    ensures p + |r| <= |nfa|
    decreases |nfa| - p
  {
    if p == |nfa| || nfa[p] == NUL then [] else [nfa[p]] + CStr(nfa, p + 1)
  }

  /** `strchr` also finds the terminator. */
  predicate StrChr(set_: seq<byte>, c: byte) { c == NUL || c in set_ }

  /** What the interpreter does at one node. */
  datatype Action =
    | Done(code: Code)
    | Goto(pos: nat, idx: nat)
    | Call(pos: nat, idx: nat)
    | TryBranches

  function Advance(next: NextResult, i: nat): Action {
    if next.Fail? then Done(RegNotMatch) else Goto(next.pos, i)
  }

  predicate IsSymbolOp(op: byte) { BOL <= op < BRANCH || op == PRECISE }

  datatype Consumed = Moved(idx: nat) | Stuck(code: Code)

  /** A node that tests or consumes characters. */
  function SymbolMatch(nfa: seq<byte>, s: seq<byte>, p: nat, i: nat): Consumed
    requires p + NODE_SIZE <= |nfa|
  {
    var op := Op(nfa, p);
    if op == BOL then
      if i != 0 then Stuck(RegNotMatch) else Moved(i)
    else if op == EOL then
      if i != |s| then Stuck(RegNotMatch) else Moved(i)
    else if op == ANY then
      if i > |s| then Stuck(RegNotMatch) else Moved(i + 1)
    else if i == |s| then Stuck(RegNotMatch)
    else if p < START_VALID_POS then Stuck(InvalidParam)
    else if i > |s| then Stuck(InvalidRange)
    else
      var t := CStr(nfa, p + NODE_SIZE);
      if op == PRECISE then
        if t <= s[i..] then Moved(i + |t|) else Stuck(RegNotMatch)
      else
        if StrChr(t, s[i]) == (op == ANY_OF) then Moved(i + 1) else Stuck(RegNotMatch)
  }

  function Step(nfa: seq<byte>, s: seq<byte>, p: nat, i: nat): Action {
    var next := GetNextNodePos(nfa, p);
    if next.Fail? && next.code != NoNextNode then Done(next.code)
    else
      var op := Op(nfa, p);
      if IsSymbolOp(op) then
        var m := SymbolMatch(nfa, s, p, i);
        if m.Stuck? then Done(m.code) else Advance(next, m.idx)
      else if op == NOTHING || op == BACK then Advance(next, i)
      else if op == PAREN_START || op == PAREN_END then
        if next.Fail? then Done(InvalidRegNfa) else Call(next.pos, i)
      else if op == BRANCH then
        if next.Fail? then Done(InvalidRegNfa)
        else if Op(nfa, next.pos) == BRANCH then TryBranches
        else if p < START_VALID_POS then Done(InvalidParam)
        else Goto(p + NODE_SIZE, i)
      else if op == END then Done(Ok)
      else Done(RegNotMatch)
  }

  /** `Pending`: not finished within the given number of steps. */
  datatype Verdict = Returns(code: Code) | Pending

  const Mismatch := Returns(RegNotMatch)

  /** A (recursive) call of the matcher at node p and subject index i. */
  function Enter(n: nat, nfa: seq<byte>, s: seq<byte>, p: nat, i: nat): Verdict
    decreases n, 1
  {
    if p < START_VALID_POS then Returns(InvalidParam) else Run(n, nfa, s, p, i)
  }

  /** The matcher's loop from node p and subject index i. */
  function Run(n: nat, nfa: seq<byte>, s: seq<byte>, p: nat, i: nat): Verdict
    decreases n, 0
  {
    if n == 0 then Pending
    else
      match Step(nfa, s, p, i)
      case Done(c) => Returns(c)
      case Goto(p', i') => Run(n - 1, nfa, s, p', i')
      case Call(p', i') => Enter(n - 1, nfa, s, p', i')
      case TryBranches => Try(n - 1, nfa, s, p, GetNextNodePos(nfa, p).pos, i)
  }

  /** The loop over the branches: p is the branch to try, q the one after it. */
  function Try(n: nat, nfa: seq<byte>, s: seq<byte>, p: nat, q: nat, i: nat): Verdict
    requires q < |nfa|
    decreases n, 0
  {
    if n == 0 then Pending
    else if p < START_VALID_POS then Returns(InvalidParam)
    else
      var v := Enter(n - 1, nfa, s, p + NODE_SIZE, i);
      if v != Mismatch then v
      else
        var next := GetNextNodePos(nfa, q);
        if next.Fail? then Returns(next.code)
        else if Op(nfa, next.pos) == BRANCH then Try(n - 1, nfa, s, q, next.pos, i)
        else if q < START_VALID_POS then Returns(InvalidParam)
        else Run(n - 1, nfa, s, q + NODE_SIZE, i)
  }

  /** The search from every index of the subject, each bounded by n steps. */
  function CheckFrom(n: nat, nfa: seq<byte>, s: seq<byte>, i: nat): Verdict
    decreases |s| - i
  {
    if i >= |s| then Mismatch
    else
      var v := Enter(n, nfa, s, START_VALID_POS, i);
      if v != Mismatch then v else CheckFrom(n, nfa, s, i + 1)
  }

  /** What a check answers; on an empty subject an unanchored search tries nothing. */
  function CheckVerdict(n: nat, nfa: seq<byte>, bol: bool, s: seq<byte>): Verdict {
    if bol then Enter(n, nfa, s, START_VALID_POS, 0)
    else if s == [] then Returns(Ok)
    else CheckFrom(n, nfa, s, 0)
  }

  lemma {:induction false} RunMonotone(n: nat, m: nat, nfa: seq<byte>, s: seq<byte>, p: nat, i: nat)
    requires n <= m
    ensures Run(n, nfa, s, p, i) != Pending ==> Run(m, nfa, s, p, i) == Run(n, nfa, s, p, i)
    decreases n
  {
    if n > 0 {
      match Step(nfa, s, p, i)
      case Done(_) =>
      case Goto(p', i') => RunMonotone(n - 1, m - 1, nfa, s, p', i');
      case Call(p', i') => RunMonotone(n - 1, m - 1, nfa, s, p', i');
      case TryBranches => TryMonotone(n - 1, m - 1, nfa, s, p, GetNextNodePos(nfa, p).pos, i);
    }
  }

  lemma {:induction false} TryMonotone(n: nat, m: nat, nfa: seq<byte>, s: seq<byte>, p: nat, q: nat, i: nat)
    requires n <= m && q < |nfa|
    ensures Try(n, nfa, s, p, q, i) != Pending ==> Try(m, nfa, s, p, q, i) == Try(n, nfa, s, p, q, i)
    decreases n
  {
    if n > 0 && p >= START_VALID_POS {
      RunMonotone(n - 1, m - 1, nfa, s, p + NODE_SIZE, i);
      var next := GetNextNodePos(nfa, q);
      if next.To? {
        if Op(nfa, next.pos) == BRANCH {
          TryMonotone(n - 1, m - 1, nfa, s, q, next.pos, i);
        } else {
          RunMonotone(n - 1, m - 1, nfa, s, q + NODE_SIZE, i);
        }
      }
    }
  }

  // ----- the meaning of a tree: where a match that starts at i can end, in the
  // order in which the choices are tried

  /** `Reach(j)`: a match up to j.  `Overrun`: a literal or class is reached past
      the end of the subject, which the matcher reports as an error.  `Spin`: an
      iteration of a repetition consumed nothing, so the matcher never ends. */
  datatype Outcome = Reach(idx: nat) | Overrun | Spin

  datatype Outcomes = Nil | Cons(head: Outcome, tail: Outcomes)

  function One(o: Outcome): Outcomes { Cons(o, Nil) }

  function Append(a: Outcomes, b: Outcomes): Outcomes {
    match a
    case Nil => b
    case Cons(o, t) => Cons(o, Append(t, b))
  }

  predicate Within(os: Outcomes, lo: nat, hi: nat) {
    match os
    case Nil => true
    case Cons(o, t) => (o.Reach? ==> lo <= o.idx <= hi) && Within(t, lo, hi)
  }

  lemma {:induction false} WithinAppend(a: Outcomes, b: Outcomes, lo: nat, hi: nat)
    requires Within(a, lo, hi) && Within(b, lo, hi)
    ensures Within(Append(a, b), lo, hi)
  {
    if a.Cons? { WithinAppend(a.tail, b, lo, hi); }
  }

  lemma {:induction false} WithinWeaken(a: Outcomes, lo: nat, lo': nat, hi: nat)
    requires Within(a, lo, hi) && lo' <= lo
    ensures Within(a, lo', hi)
  {
    if a.Cons? { WithinWeaken(a.tail, lo, lo', hi); }
  }

  predicate ClassHas(negated: bool, items: seq<ClassItem>, c: byte) {
    StrChr(CStr(ItemsChars(items), 0), c) != negated
  }

  function EndsLiteral(t: seq<byte>, s: seq<byte>, i: nat): (os: Outcomes)
    ensures i <= |s| + 1 ==> Within(os, i, |s| + 1)
  {
    if i == |s| then Nil else if i > |s| then One(Overrun)
    else if t <= s[i..] then One(Reach(i + |t|)) else Nil
  }

  function EndsSymbol(sym: Symbol, s: seq<byte>, i: nat): (os: Outcomes)
    requires i <= |s| + 1
    ensures Within(os, i, |s| + 1)
  {
    match sym
    case Bol => if i == 0 then One(Reach(i)) else Nil
    case Eol => if i == |s| then One(Reach(i)) else Nil
    case Any => if i > |s| then Nil else One(Reach(i + 1))
    case Class(negated, items) =>
      if i == |s| then Nil else if i > |s| then One(Overrun)
      else if ClassHas(negated, items, s[i]) then One(Reach(i + 1)) else Nil
    case Escaped(c) => EndsLiteral([c], s, i)
    case Literal(t) => EndsLiteral(t, s, i)
  }

  function Ends(r: Re, s: seq<byte>, i: nat): (os: Outcomes)
    requires i <= |s| + 1
    ensures Within(os, i, |s| + 1)
    decreases r, |s| + 1 - i, 2, Nil
  {
    match r
    case Leaf(sym) => EndsSymbol(sym, s, i)
    case Group(alts) => EndsAlts(alts, s, i)
    case Star(b) =>
      var os := EndsStarFrom(r, s, i, Ends(b, s, i));
      WithinAppend(os, One(Reach(i)), i, |s| + 1);
      Append(os, One(Reach(i)))
    case Plus(b) => EndsPlusFrom(r, s, i, Ends(b, s, i))
    case Opt(b) =>
      WithinAppend(Ends(b, s, i), One(Reach(i)), i, |s| + 1);
      Append(Ends(b, s, i), One(Reach(i)))
  }

  /** An end j of one iteration goes on with the repetition from j. */
  function EndsStarAfter(r: Re, s: seq<byte>, i: nat, o: Outcome): (rs: Outcomes)
    requires r.Star? && i <= |s| + 1 && Within(One(o), i, |s| + 1)
    ensures Within(rs, i, |s| + 1)
    decreases r, |s| + 1 - i, 0, Nil
  {
    match o
    case Reach(j) =>
      if j == i then One(Spin)
      else
        WithinWeaken(Ends(r, s, j), j, i, |s| + 1);
        Ends(r, s, j)
    case _ => One(o)
  }

  function EndsStarFrom(r: Re, s: seq<byte>, i: nat, os: Outcomes): (rs: Outcomes)
    requires r.Star? && i <= |s| + 1 && Within(os, i, |s| + 1)
    ensures Within(rs, i, |s| + 1)
    decreases r, |s| + 1 - i, 1, os
  {
    match os
    case Nil => Nil
    case Cons(o, t) =>
      WithinAppend(EndsStarAfter(r, s, i, o), EndsStarFrom(r, s, i, t), i, |s| + 1);
      Append(EndsStarAfter(r, s, i, o), EndsStarFrom(r, s, i, t))
  }

  /** An end j of one iteration goes on with another iteration from j, or ends there. */
  function EndsPlusAfter(r: Re, s: seq<byte>, i: nat, o: Outcome): (rs: Outcomes)
    requires r.Plus? && i <= |s| + 1 && Within(One(o), i, |s| + 1)
    ensures Within(rs, i, |s| + 1)
    decreases r, |s| + 1 - i, 0, Nil
  {
    match o
    case Reach(j) =>
      if j == i then One(Spin)
      else
        WithinWeaken(Ends(r, s, j), j, i, |s| + 1);
        WithinAppend(Ends(r, s, j), One(Reach(j)), i, |s| + 1);
        Append(Ends(r, s, j), One(Reach(j)))
    case _ => One(o)
  }

  function EndsPlusFrom(r: Re, s: seq<byte>, i: nat, os: Outcomes): (rs: Outcomes)
    requires r.Plus? && i <= |s| + 1 && Within(os, i, |s| + 1)
    ensures Within(rs, i, |s| + 1)
    decreases r, |s| + 1 - i, 1, os
  {
    match os
    case Nil => Nil
    case Cons(o, t) =>
      WithinAppend(EndsPlusAfter(r, s, i, o), EndsPlusFrom(r, s, i, t), i, |s| + 1);
      Append(EndsPlusAfter(r, s, i, o), EndsPlusFrom(r, s, i, t))
  }

  function EndsSeq(bs: Blocks, s: seq<byte>, i: nat): (os: Outcomes)
    requires i <= |s| + 1
    ensures Within(os, i, |s| + 1)
    decreases bs, 0, 0, Nil
  {
    match bs
    case Empty => One(Reach(i))
    case Then(b, rest) => EndsSeqFrom(rest, s, i, Ends(b, s, i))
  }

  /** An end j of what comes before goes on with the blocks from j. */
  function EndsSeqAfter(bs: Blocks, s: seq<byte>, i: nat, o: Outcome): (rs: Outcomes)
    requires i <= |s| + 1 && Within(One(o), i, |s| + 1)
    ensures Within(rs, i, |s| + 1)
    decreases bs, 1, 0, Nil
  {
    match o
    case Reach(j) =>
      WithinWeaken(EndsSeq(bs, s, j), j, i, |s| + 1);
      EndsSeq(bs, s, j)
    case _ => One(o)
  }

  function EndsSeqFrom(bs: Blocks, s: seq<byte>, i: nat, os: Outcomes): (rs: Outcomes)
    requires i <= |s| + 1 && Within(os, i, |s| + 1)
    ensures Within(rs, i, |s| + 1)
    decreases bs, 1, 1, os
  {
    match os
    case Nil => Nil
    case Cons(o, t) =>
      WithinAppend(EndsSeqAfter(bs, s, i, o), EndsSeqFrom(bs, s, i, t), i, |s| + 1);
      Append(EndsSeqAfter(bs, s, i, o), EndsSeqFrom(bs, s, i, t))
  }

  function EndsAlts(alts: Alts, s: seq<byte>, i: nat): (os: Outcomes)
    requires i <= |s| + 1
    ensures Within(os, i, |s| + 1)
    decreases alts, 0, 0, Nil
  {
    match alts
    case Only(bs) => EndsSeq(bs, s, i)
    case Or(bs, others) =>
      WithinAppend(EndsSeq(bs, s, i), EndsAlts(others, s, i), i, |s| + 1);
      Append(EndsSeq(bs, s, i), EndsAlts(others, s, i))
  }

  /** What the search in that order answers. */
  function Answer(os: Outcomes): Verdict {
    match os
    case Nil => Mismatch
    case Cons(Reach(_), _) => Returns(Ok)
    case Cons(Overrun, _) => Returns(InvalidRange)
    case Cons(Spin, _) => Pending
  }
}
