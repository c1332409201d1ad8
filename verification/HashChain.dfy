/** The chains of a hash table as sequences of nodes, and what they contain. */
module HashChain {

  /** A value; two keys are equal when they are of one class. */
  datatype Value = Value(cls: int, tag: int)

  class Node {
    const val: Value
    var next: Node?

    constructor (val: Value)
      ensures this.val == val && next == null
    {
      this.val, next := val, null;
    }
  }

  /** The bucket of a class among n. */
  function Home(hash: int -> nat, cls: int, n: nat): (b: nat)
    requires n > 0
    ensures b < n
  {
    hash(cls) % n
  }

  ghost function Nth(chain: seq<Node>, i: nat): Node? {
    if i < |chain| then chain[i] else null
  }

  ghost predicate HasCls(chain: seq<Node>, cls: int) {
    exists i :: 0 <= i < |chain| && chain[i].val.cls == cls
  }

  /** Equal keys stand side by side. */
  ghost predicate Contiguous(chain: seq<Node>) {
    forall i, j, k :: 0 <= i < j < k < |chain| && chain[i].val.cls == chain[k].val.cls ==>
      chain[j].val.cls == chain[i].val.cls
  }

  ghost predicate Distinct(chain: seq<Node>) {
    forall i, j :: 0 <= i < j < |chain| ==> chain[i] != chain[j]
  }

  ghost predicate Placed(hash: int -> nat, chain: seq<Node>, b: nat, n: nat)
    requires n > 0
  {
    forall i :: 0 <= i < |chain| ==> Home(hash, chain[i].val.cls, n) == b
  }

  ghost predicate Proper(hash: int -> nat, chain: seq<Node>, b: nat, n: nat)
    requires n > 0
  {
    Distinct(chain) && Placed(hash, chain, b, n) && Contiguous(chain)
  }

  ghost predicate Linked(head: Node?, chain: seq<Node>, repr: set<Node>)
    reads repr
  {
    && (forall i :: 0 <= i < |chain| ==> chain[i] in repr)
    && head == Nth(chain, 0)
    && forall i: nat :: i < |chain| ==> chain[i].next == Nth(chain, i + 1)
  }

  // --- inserting and removing

  lemma PushProper(hash: int -> nat, chain: seq<Node>, b: nat, n: nat, f: Node)
    requires n > 0 && Proper(hash, chain, b, n) && f !in chain && Home(hash, f.val.cls, n) == b
    requires HasCls(chain, f.val.cls) ==> chain[0].val.cls == f.val.cls
    ensures Proper(hash, [f] + chain, b, n)
  {
    hide Home;
    var t := [f] + chain;
    forall i, j, k | 0 <= i < j < k < |t| && t[i].val.cls == t[k].val.cls
      ensures t[j].val.cls == t[i].val.cls
    {
      assert t[k] == chain[k - 1] && t[j] == chain[j - 1];
      if i == 0 {
        assert HasCls(chain, f.val.cls);
      } else {
        assert t[i] == chain[i - 1];
      }
    }
  }

  function InsertAt(chain: seq<Node>, i: nat, f: Node): seq<Node>
    requires i <= |chain|
  {
    chain[..i] + [f] + chain[i..]
  }

  lemma InsertedAt(chain: seq<Node>, i: nat, f: Node)
    requires i <= |chain|
    ensures |InsertAt(chain, i, f)| == |chain| + 1
    ensures forall j {:trigger InsertAt(chain, i, f)[j]} :: 0 <= j <= |chain| ==>
      InsertAt(chain, i, f)[j] == if j < i then chain[j] else if j == i then f else chain[j - 1]
  {}

  lemma InsertProper(hash: int -> nat, chain: seq<Node>, b: nat, n: nat, i: nat, f: Node)
    requires n > 0 && Proper(hash, chain, b, n) && f !in chain && i < |chain| && chain[i].val.cls == f.val.cls
    ensures Proper(hash, InsertAt(chain, i + 1, f), b, n)
  {
    hide Home, InsertAt;
    var t := InsertAt(chain, i + 1, f);
    InsertedAt(chain, i + 1, f);
    forall j | 0 <= j < |t|
      ensures Home(hash, t[j].val.cls, n) == b
    {
      assert t[j].val.cls == chain[if j <= i then j else j - 1].val.cls;
    }
    forall j, k | 0 <= j < k < |t|
      ensures t[j] != t[k]
    {
    }
    forall j, k, l | 0 <= j < k < l < |t| && t[j].val.cls == t[l].val.cls
      ensures t[k].val.cls == t[j].val.cls
    {
      var j0, k0, l0 := if j <= i then j else j - 1, if k <= i then k else k - 1, if l <= i then l else l - 1;
      assert t[j].val.cls == chain[j0].val.cls && t[k].val.cls == chain[k0].val.cls
        && t[l].val.cls == chain[l0].val.cls;
    }
  }

  function RemoveAt(chain: seq<Node>, i: nat): seq<Node>
    requires i < |chain|
  {
    chain[..i] + chain[i + 1..]
  }

  lemma RemoveProper(hash: int -> nat, chain: seq<Node>, b: nat, n: nat, i: nat)
    requires n > 0 && Proper(hash, chain, b, n) && i < |chain|
    ensures Proper(hash, RemoveAt(chain, i), b, n) && chain[i] !in RemoveAt(chain, i)
  {
    hide Home;
    var t := RemoveAt(chain, i);
    assert forall j :: 0 <= j < |t| ==> t[j] == chain[if j < i then j else j + 1];
  }

  // --- contents

  /** How often the chain holds a value. */
  ghost function Occ(chain: seq<Node>, v: Value): nat {
    if chain == [] then 0 else (if chain[0].val == v then 1 else 0) + Occ(chain[1..], v)
  }

  lemma {:induction false} OccConcat(s: seq<Node>, t: seq<Node>, v: Value)
    ensures Occ(s + t, v) == Occ(s, v) + Occ(t, v)
    decreases |s|
  {
    if s == [] {
      assert s + t == t;
    } else {
      OccConcat(s[1..], t, v);
      assert (s + t)[1..] == s[1..] + t;
    }
  }

  lemma {:induction false} OccHas(chain: seq<Node>, i: nat)
    requires i < |chain|
    ensures Occ(chain, chain[i].val) > 0
    decreases i
  {
    if i > 0 {
      OccHas(chain[1..], i - 1);
      assert chain[1..][i - 1] == chain[i];
    }
  }

  ghost function One(b: bool): nat { if b then 1 else 0 }

  lemma InsertOcc(chain: seq<Node>, i: nat, f: Node, v: Value)
    requires i <= |chain|
    ensures Occ(InsertAt(chain, i, f), v) == Occ(chain, v) + One(f.val == v)
  {
    OccConcat(chain[..i] + [f], chain[i..], v);
    OccConcat(chain[..i], [f], v);
    OccConcat(chain[..i], chain[i..], v);
    assert chain == chain[..i] + chain[i..];
    assert [f][1..] == [];
  }

  /** How many values of a class there are. */
  ghost function Tally(m: multiset<Value>, cls: int): nat
    decreases |m|
  {
    if m == multiset{} then 0
    else
      var v :| v in m;
      (if v.cls == cls then 1 else 0) + Tally(m - multiset{v}, cls)
  }

  lemma {:induction false} TallyWithout(m: multiset<Value>, cls: int, v: Value)
    requires v in m
    ensures Tally(m, cls) == (if v.cls == cls then 1 else 0) + Tally(m - multiset{v}, cls)
    decreases |m|
  {
    var u :| u in m && Tally(m, cls) == (if u.cls == cls then 1 else 0) + Tally(m - multiset{u}, cls);
    if u != v {
      TallyWithout(m - multiset{u}, cls, v);
      TallyWithout(m - multiset{v}, cls, u);
      assert m - multiset{u} - multiset{v} == m - multiset{v} - multiset{u};
    }
  }

  lemma {:induction false} TallyZero(m: multiset<Value>, cls: int)
    ensures Tally(m, cls) == 0 <==> forall v: Value :: v in m ==> v.cls != cls
    decreases |m|
  {
    if u: Value :| u in m {
      TallyWithout(m, cls, u);
      TallyZero(m - multiset{u}, cls);
      assert forall v: Value :: v in m <==> v == u || v in m - multiset{u};
    } else {
      assert m == multiset{};
    }
  }

  lemma TallyPlus(m: multiset<Value>, cls: int, v: Value)
    ensures Tally(m + multiset{v}, cls) == Tally(m, cls) + if v.cls == cls then 1 else 0
  {
    TallyWithout(m + multiset{v}, cls, v);
    assert m + multiset{v} - multiset{v} == m;
  }

  ghost function CountIn(chain: seq<Node>, cls: int): nat {
    if chain == [] then 0 else (if chain[0].val.cls == cls then 1 else 0) + CountIn(chain[1..], cls)
  }

  lemma {:induction false} CountNone(chain: seq<Node>, cls: int)
    ensures CountIn(chain, cls) == 0 <==> !HasCls(chain, cls)
    decreases |chain|
  {
    if chain != [] {
      CountNone(chain[1..], cls);
      assert HasCls(chain[1..], cls) ==> HasCls(chain, cls) by {
        if HasCls(chain[1..], cls) {
          var i :| 0 <= i < |chain[1..]| && chain[1..][i].val.cls == cls;
          assert chain[i + 1].val.cls == cls;
        }
      }
      if HasCls(chain, cls) && chain[0].val.cls != cls {
        var i :| 0 <= i < |chain| && chain[i].val.cls == cls;
        assert chain[1..][i - 1].val.cls == cls;
      }
    }
  }

  lemma {:induction false} CountConcat(s: seq<Node>, t: seq<Node>, cls: int)
    ensures CountIn(s + t, cls) == CountIn(s, cls) + CountIn(t, cls)
    decreases |s|
  {
    if s == [] {
      assert s + t == t;
    } else {
      CountConcat(s[1..], t, cls);
      assert (s + t)[1..] == s[1..] + t;
    }
  }

  lemma {:induction false} CountAll(chain: seq<Node>, cls: int)
    requires forall i :: 0 <= i < |chain| ==> chain[i].val.cls == cls
    ensures CountIn(chain, cls) == |chain|
    decreases |chain|
  {
    if chain != [] { CountAll(chain[1..], cls); }
  }

  /** A run of a class with nothing of the class before and behind it is all of it. */
  lemma RunCount(chain: seq<Node>, cls: int, i: nat, j: nat)
    requires i <= j <= |chain| && forall k :: i <= k < j ==> chain[k].val.cls == cls
    requires forall k :: 0 <= k < |chain| && !(i <= k < j) ==> chain[k].val.cls != cls
    ensures CountIn(chain, cls) == j - i
  {
    assert chain == chain[..i] + (chain[i..j] + chain[j..]);
    CountConcat(chain[..i], chain[i..j] + chain[j..], cls);
    CountConcat(chain[i..j], chain[j..], cls);
    CountAll(chain[i..j], cls);
    CountNone(chain[..i], cls);
    CountNone(chain[j..], cls);
  }

  lemma InsertCount(chain: seq<Node>, i: nat, f: Node, cls: int)
    requires i <= |chain|
    ensures CountIn(InsertAt(chain, i, f), cls) == CountIn(chain, cls) + One(f.val.cls == cls)
  {
    CountConcat(chain[..i] + [f], chain[i..], cls);
    CountConcat(chain[..i], [f], cls);
    CountConcat(chain[..i], chain[i..], cls);
    assert chain == chain[..i] + chain[i..];
    assert [f][1..] == [];
  }

  // --- the whole table

  /** The chains hold exactly the contents. */
  ghost predicate Holding(hash: int -> nat, chains: seq<seq<Node>>, contents: multiset<Value>) {
    && |chains| > 0
    && (forall v: Value :: contents[v] == Occ(chains[Home(hash, v.cls, |chains|)], v))
    && (forall c: int :: Tally(contents, c) == CountIn(chains[Home(hash, c, |chains|)], c))
  }

  lemma HoldingInsert(hash: int -> nat, chains: seq<seq<Node>>, contents: multiset<Value>, b: nat, i: nat, f: Node)
    requires Holding(hash, chains, contents) && b == Home(hash, f.val.cls, |chains|) && i <= |chains[b]|
    ensures Holding(hash, chains[b := InsertAt(chains[b], i, f)], contents + multiset{f.val})
  {
    hide Home, InsertAt, Occ, CountIn, Tally;
    var chains', contents' := chains[b := InsertAt(chains[b], i, f)], contents + multiset{f.val};
    forall v: Value
      ensures contents'[v] == Occ(chains'[Home(hash, v.cls, |chains'|)], v)
    {
      InsertOcc(chains[b], i, f, v);
    }
    forall c: int
      ensures Tally(contents', c) == CountIn(chains'[Home(hash, c, |chains'|)], c)
    {
      InsertCount(chains[b], i, f, c);
      TallyPlus(contents, c, f.val);
    }
  }

  lemma HoldingRemove(hash: int -> nat, chains: seq<seq<Node>>, contents: multiset<Value>, b: nat, i: nat, f: Node)
    requires b < |chains| && i <= |chains[b]| && b == Home(hash, f.val.cls, |chains|)
    requires Holding(hash, chains[b := InsertAt(chains[b], i, f)], contents + multiset{f.val})
    ensures Holding(hash, chains, contents)
  {
    hide Home, InsertAt, Occ, CountIn, Tally;
    var chains', contents' := chains[b := InsertAt(chains[b], i, f)], contents + multiset{f.val};
    forall v: Value
      ensures contents[v] == Occ(chains[Home(hash, v.cls, |chains|)], v)
    {
      InsertOcc(chains[b], i, f, v);
    }
    forall c: int
      ensures Tally(contents, c) == CountIn(chains[Home(hash, c, |chains|)], c)
    {
      InsertCount(chains[b], i, f, c);
      TallyPlus(contents, c, f.val);
    }
  }

  ghost predicate Chains(hash: int -> nat, buckets: seq<Node?>, chains: seq<seq<Node>>, repr: set<Node>)
    reads repr
  {
    && |buckets| == |chains| > 0
    && forall b: nat :: b < |chains| ==> Linked(buckets[b], chains[b], repr) && Proper(hash, chains[b], b, |chains|)
  }

  lemma ChainOf(hash: int -> nat, buckets: seq<Node?>, chains: seq<seq<Node>>, repr: set<Node>, b: nat)
    requires Chains(hash, buckets, chains, repr) && b < |chains|
    ensures |buckets| == |chains| && Linked(buckets[b], chains[b], repr) && Proper(hash, chains[b], b, |chains|)
  {}

  /** A node is in no other chain than its home. */
  lemma OnlyHome(hash: int -> nat, chain: seq<Node>, b: nat, n: nat, f: Node)
    requires n > 0 && Proper(hash, chain, b, n) && Home(hash, f.val.cls, n) != b
    ensures f !in chain
  {}

  /** All chains but the one at b, of nodes in repr. */
  ghost predicate Others(hash: int -> nat, buckets: seq<Node?>, chains: seq<seq<Node>>, b: nat, repr: set<Node>)
    reads repr
  {
    && |buckets| == |chains| > 0
    && forall c: nat :: c < |chains| && c != b ==>
      Linked(buckets[c], chains[c], repr) && Proper(hash, chains[c], c, |chains|)
  }

  /** The other chains do without a node of the home chain. */
  lemma Apart(hash: int -> nat, buckets: seq<Node?>, chains: seq<seq<Node>>, repr: set<Node>, f: Node)
    requires Chains(hash, buckets, chains, repr)
    ensures Others(hash, buckets, chains, Home(hash, f.val.cls, |chains|), repr - {f})
  {
    hide Home, Proper;
    var b := Home(hash, f.val.cls, |chains|);
    forall c: nat | c < |chains| && c != b
      ensures Linked(buckets[c], chains[c], repr - {f}) && Proper(hash, chains[c], c, |chains|)
    {
      OnlyHome(hash, chains[c], c, |chains|, f);
    }
  }

  lemma LinkedWider(head: Node?, chain: seq<Node>, repr: set<Node>, repr': set<Node>)
    requires Linked(head, chain, repr) && repr <= repr'
    ensures Linked(head, chain, repr')
  {}

  /** The chain at b together with the others. */
  lemma Together(hash: int -> nat, buckets: seq<Node?>, chains: seq<seq<Node>>, b: nat, repr: set<Node>,
                 head: Node?, chain: seq<Node>, repr': set<Node>)
    requires Others(hash, buckets, chains, b, repr) && b < |chains| && repr <= repr'
    requires Linked(head, chain, repr') && Proper(hash, chain, b, |chains|)
    ensures Chains(hash, buckets[b := head], chains[b := chain], repr')
  {
    hide Linked, Proper;
    forall c: nat | c < |chains| && c != b
      ensures Linked(buckets[c], chains[c], repr')
    {
      LinkedWider(buckets[c], chains[c], repr, repr');
    }
  }
}
