/** The chained hash table of mystl/my_hashtable.h. */
module HashTable {

  import opened HashChain

  const PRIMES: seq<nat> := [
    53, 97, 193, 389, 769, 1543, 3079, 6151, 12289, 24593, 49157, 98317, 196613, 393241,
    786433, 1572869, 3145739, 6291469, 12582917, 25165843, 50331653,
    100663319, 201326611, 402653189, 805306457, 1610612741, 3221225473, 4294967291]

  /** The smallest listed prime not below n, or the last one. */
  method NextPrime(n: nat) returns (p: nat)
    ensures p > 0 && p >= if n <= 4294967291 then n else 4294967291
    ensures forall i :: 0 <= i < |PRIMES| && n <= PRIMES[i] ==> exists j :: 0 <= j <= i && p == PRIMES[j]
    ensures (n <= 53 ==> p == 53) && (n > 3221225473 ==> p == 4294967291)
  {
    var i := 0;
    while i < |PRIMES| && PRIMES[i] < n
      invariant 0 <= i <= |PRIMES| && forall j :: 0 <= j < i ==> PRIMES[j] < n
    {
      i := i + 1;
    }
    p := if i == |PRIMES| then PRIMES[|PRIMES| - 1] else PRIMES[i];
  }

  // --- positions

  /** The first node of the first chain from k on that has one. */
  ghost function FirstFrom(chains: seq<seq<Node>>, k: nat): Node?
    decreases |chains| - k
  {
    if k >= |chains| then null
    else if chains[k] != [] then chains[k][0]
    else FirstFrom(chains, k + 1)
  }

  /** The node at position i of chain b, or what comes next when the chain ends there. */
  ghost function At(chains: seq<seq<Node>>, b: nat, i: nat): Node?
    requires b < |chains|
  {
    if i < |chains[b]| then chains[b][i] else FirstFrom(chains, b + 1)
  }

  /** `next` comes behind position i of chain b: the next node of the chain, or the first node of the least
      later chain that has one, or nothing when there is none. */
  ghost predicate Follows(chains: seq<seq<Node>>, b: nat, i: nat, next: Node?)
    requires b < |chains|
  {
    if i + 1 < |chains[b]| then next == chains[b][i + 1] else FirstIn(chains, b + 1, next)
  }

  /** `next` is the first node of the least chain from k on that has one, or null when there is none. */
  ghost predicate FirstIn(chains: seq<seq<Node>>, k: nat, next: Node?) {
    if next == null then forall c :: k <= c < |chains| ==> chains[c] == []
    else exists c: nat :: FirstAt(chains, k, c) && next == chains[c][0]
  }

  /** Chain c is the first from k on that has a node. */
  ghost predicate FirstAt(chains: seq<seq<Node>>, k: nat, c: nat) {
    k <= c < |chains| && chains[c] != [] && forall d :: k <= d < c ==> chains[d] == []
  }

  lemma {:induction false} FirstFromFinds(chains: seq<seq<Node>>, k: nat)
    ensures FirstIn(chains, k, FirstFrom(chains, k))
    decreases |chains| - k
  {
    if k < |chains| && chains[k] == [] {
      FirstFromFinds(chains, k + 1);
      var next := FirstFrom(chains, k + 1);
      if next != null {
        var c: nat :| FirstAt(chains, k + 1, c) && next == chains[c][0];
        assert FirstAt(chains, k, c);
      }
    } else if k < |chains| {
      assert FirstAt(chains, k, k);
    }
  }

  lemma AtFollows(chains: seq<seq<Node>>, b: nat, i: nat)
    requires b < |chains| && i < |chains[b]|
    ensures Follows(chains, b, i, At(chains, b, i + 1))
  {
    hide FirstIn, FirstFrom;
    FirstFromFinds(chains, b + 1);
  }

  lemma FirstFromStep(chains: seq<seq<Node>>, k: nat)
    ensures FirstFrom(chains, k) ==
      if k >= |chains| then null else if chains[k] != [] then chains[k][0] else FirstFrom(chains, k + 1)
  {
  }

  // --- the order of the iteration

  /** The nodes of the first k chains, one chain after the other. */
  ghost function Joined(chains: seq<seq<Node>>, k: nat): seq<Node>
    requires k <= |chains|
  {
    if k == 0 then [] else Joined(chains, k - 1) + chains[k - 1]
  }

  lemma {:induction false} JoinedEmpty(chains: seq<seq<Node>>, k: nat, c: nat)
    requires k <= c <= |chains| && forall d :: k <= d < c ==> chains[d] == []
    ensures Joined(chains, c) == Joined(chains, k)
    decreases c
  {
    if k < c {
      JoinedEmpty(chains, k, c - 1);
      assert Joined(chains, c - 1) + [] == Joined(chains, c - 1);
    }
  }

  /** The chain that an iteration goes on to; what it skips is empty. */
  lemma Reached(chains: seq<seq<Node>>, k: nat, next: Node) returns (c: nat)
    requires k <= |chains| && FirstIn(chains, k, next)
    ensures k <= c < |chains| && chains[c] != [] && chains[c][0] == next && Joined(chains, c) == Joined(chains, k)
  {
    c :| FirstAt(chains, k, c) && next == chains[c][0];
    JoinedEmpty(chains, k, c);
  }

  lemma NoneLeft(chains: seq<seq<Node>>, k: nat)
    requires k <= |chains| && FirstIn(chains, k, null)
    ensures Joined(chains, |chains|) == Joined(chains, k)
  {
    JoinedEmpty(chains, k, |chains|);
  }

  /** Where an iteration starts; nothing has been passed. */
  lemma Started(chains: seq<seq<Node>>, next: Node?) returns (c: nat)
    requires FirstIn(chains, 0, next)
    ensures next != null ==> c < |chains| && chains[c] != [] && chains[c][0] == next
    ensures next != null ==> Joined(chains, c) + chains[c][..0] == []
    ensures next == null ==> Joined(chains, |chains|) == []
  {
    c := 0;
    if next == null { NoneLeft(chains, 0); } else { c := Reached(chains, 0, next); }
    assert Joined(chains, 0) == [];
  }

  /** From position i of chain b on to where `next` is; the nodes passed are one more. */
  lemma Onward(chains: seq<seq<Node>>, b: nat, i: nat, next: Node?) returns (c: nat, j: nat)
    requires b < |chains| && i < |chains[b]| && Follows(chains, b, i, next)
    ensures next != null ==> b <= c < |chains| && j < |chains[c]| && chains[c][j] == next
    ensures next != null ==> (c > b && j == 0) || (c == b && j == i + 1)
    ensures next == null ==> c == b && Joined(chains, |chains|) == Joined(chains, b) + chains[b][..i] + [chains[b][i]]
    ensures next != null ==> Joined(chains, c) + chains[c][..j] == Joined(chains, b) + chains[b][..i] + [chains[b][i]]
  {
    c, j := b, i + 1;
    assert chains[b][..i + 1] == chains[b][..i] + [chains[b][i]];
    assert Joined(chains, b) + chains[b][..i + 1] == Joined(chains, b) + chains[b][..i] + [chains[b][i]];
    if i + 1 == |chains[b]| {
      assert chains[b][..i + 1] == chains[b];
      if next == null {
        NoneLeft(chains, b + 1);
      } else {
        c := Reached(chains, b + 1, next);
        j := 0;
        assert Joined(chains, c) + chains[c][..0] == Joined(chains, c);
      }
    }
  }

  /** Each node once: those of different chains have different homes. */
  lemma {:induction false} JoinedDistinct(hash: int -> nat, chains: seq<seq<Node>>, k: nat)
    requires k <= |chains| && forall b :: 0 <= b < |chains| ==> Proper(hash, chains[b], b, |chains|)
    ensures Distinct(Joined(chains, k))
    ensures forall i :: 0 <= i < |Joined(chains, k)| ==> Home(hash, Joined(chains, k)[i].val.cls, |chains|) < k
    decreases k
  {
    hide Home, Contiguous;
    if k > 0 {
      JoinedDistinct(hash, chains, k - 1);
      assert Proper(hash, chains[k - 1], k - 1, |chains|);
    }
  }

  lemma {:induction false} JoinedHas(chains: seq<seq<Node>>, k: nat, f: Node)
    requires k <= |chains|
    ensures f in Joined(chains, k) <==> exists b :: 0 <= b < k && f in chains[b]
    decreases k
  {
    if k > 0 { JoinedHas(chains, k - 1, f); }
  }

  /** A value is in the chain of its home only. */
  lemma {:induction false} NotInOther(hash: int -> nat, chain: seq<Node>, b: nat, n: nat, v: Value)
    requires n > 0 && Placed(hash, chain, b, n) && Home(hash, v.cls, n) != b
    ensures Occ(chain, v) == 0
    decreases |chain|
  {
    hide Home;
    if chain != [] {
      assert chain[0].val != v;
      assert forall i :: 0 <= i < |chain[1..]| ==> chain[1..][i] == chain[i + 1];
      NotInOther(hash, chain[1..], b, n, v);
    }
  }

  lemma {:induction false} JoinedOcc(hash: int -> nat, chains: seq<seq<Node>>, k: nat, v: Value)
    requires k <= |chains| && |chains| > 0
    requires forall b :: 0 <= b < |chains| ==> Proper(hash, chains[b], b, |chains|)
    ensures var b := Home(hash, v.cls, |chains|); Occ(Joined(chains, k), v) == if b < k then Occ(chains[b], v) else 0
    decreases k
  {
    hide Home, Contiguous, Distinct, Occ, Placed;
    if k == 0 {
      OccNone(v);
    } else {
      JoinedOcc(hash, chains, k - 1, v);
      OccConcat(Joined(chains, k - 1), chains[k - 1], v);
      assert Proper(hash, chains[k - 1], k - 1, |chains|);
      if Home(hash, v.cls, |chains|) != k - 1 { NotInOther(hash, chains[k - 1], k - 1, |chains|, v); }
    }
  }

  lemma OccNone(v: Value)
    ensures Occ([], v) == 0
  {
  }

  /** The first position from i on with a key of the class. */
  ghost function First(chain: seq<Node>, cls: int, i: nat): (j: nat)
    requires i <= |chain|
    ensures i <= j <= |chain| && (j < |chain| ==> chain[j].val.cls == cls)
    ensures forall k :: i <= k < j ==> chain[k].val.cls != cls
    decreases |chain| - i
  {
    if i == |chain| || chain[i].val.cls == cls then i else First(chain, cls, i + 1)
  }

  /** The first position from i on with a key of another class. */
  ghost function Past(chain: seq<Node>, cls: int, i: nat): (j: nat)
    requires i <= |chain|
    ensures i <= j <= |chain| && (j < |chain| ==> chain[j].val.cls != cls)
    ensures forall k :: i <= k < j ==> chain[k].val.cls == cls
    decreases |chain| - i
  {
    if i == |chain| || chain[i].val.cls != cls then i else Past(chain, cls, i + 1)
  }

  lemma FirstHit(chain: seq<Node>, cls: int)
    ensures First(chain, cls, 0) < |chain| <==> HasCls(chain, cls)
    ensures First(chain, cls, 0) < |chain| <==> CountIn(chain, cls) > 0
  {
    CountNone(chain, cls);
    if HasCls(chain, cls) {
      var i :| 0 <= i < |chain| && chain[i].val.cls == cls;
    }
  }

  /** The run of equal keys is all there is of the class. */
  lemma WholeRun(hash: int -> nat, chain: seq<Node>, b: nat, n: nat, cls: int)
    requires n > 0 && Proper(hash, chain, b, n) && First(chain, cls, 0) < |chain|
    ensures CountIn(chain, cls) == Past(chain, cls, First(chain, cls, 0)) - First(chain, cls, 0)
  {
    hide CountIn;
    var i := First(chain, cls, 0);
    var j := Past(chain, cls, i);
    assert forall k :: j <= k < |chain| ==> chain[k].val.cls != cls;
    RunCount(chain, cls, i, j);
  }

  lemma PastBehind(chain: seq<Node>, cls: int, i: nat)
    requires i < |chain| && chain[i].val.cls == cls
    ensures Past(chain, cls, i) > i
  {
  }

  // --- rehashing: the contents are in two tables, the old and the new one

  ghost predicate Between(hash: int -> nat, chains: seq<seq<Node>>, newer: seq<seq<Node>>, contents: multiset<Value>) {
    && |chains| > 0 && |newer| > 0
    && (forall v: Value :: contents[v] ==
          Occ(chains[Home(hash, v.cls, |chains|)], v) + Occ(newer[Home(hash, v.cls, |newer|)], v))
    && (forall c: int :: Tally(contents, c) ==
          CountIn(chains[Home(hash, c, |chains|)], c) + CountIn(newer[Home(hash, c, |newer|)], c))
  }

  lemma MoveBetween(hash: int -> nat, chains: seq<seq<Node>>, newer: seq<seq<Node>>, contents: multiset<Value>, b: nat)
    requires Between(hash, chains, newer, contents) && b < |chains| && chains[b] != []
    requires Home(hash, chains[b][0].val.cls, |chains|) == b
    ensures var nb := Home(hash, chains[b][0].val.cls, |newer|);
      Between(hash, chains[b := chains[b][1..]], newer[nb := [chains[b][0]] + newer[nb]], contents)
  {
    hide Home, Occ, CountIn, Tally, InsertAt;
    var f, rest := chains[b][0], chains[b][1..];
    var nb := Home(hash, f.val.cls, |newer|);
    PushIsInsert(rest, f);
    PushIsInsert(newer[nb], f);
    assert chains[b] == [f] + rest;
    var chains', newer' := chains[b := rest], newer[nb := [f] + newer[nb]];
    forall v: Value
      ensures contents[v] == Occ(chains'[Home(hash, v.cls, |chains|)], v) + Occ(newer'[Home(hash, v.cls, |newer|)], v)
    {
      InsertOcc(rest, 0, f, v);
      InsertOcc(newer[nb], 0, f, v);
    }
    forall c: int
      ensures Tally(contents, c) ==
        CountIn(chains'[Home(hash, c, |chains|)], c) + CountIn(newer'[Home(hash, c, |newer|)], c)
    {
      InsertCount(rest, 0, f, c);
      InsertCount(newer[nb], 0, f, c);
    }
  }

  /** A class that is in both tables is the one being moved: it comes first in bucket b and in its new chain. */
  ghost predicate MeetingAt(hash: int -> nat, chains: seq<seq<Node>>, newer: seq<seq<Node>>, b: nat, c: int)
    requires |chains| > 0 && |newer| > 0
  {
    var old_, new_ := Home(hash, c, |chains|), Home(hash, c, |newer|);
    HasCls(chains[old_], c) && HasCls(newer[new_], c) ==>
      old_ == b && chains[old_][0].val.cls == c && newer[new_][0].val.cls == c
  }

  ghost predicate Meeting(hash: int -> nat, chains: seq<seq<Node>>, newer: seq<seq<Node>>, b: nat)
    requires |chains| > 0 && |newer| > 0
  {
    forall c: int :: MeetingAt(hash, chains, newer, b, c)
  }

  lemma HasRest(chain: seq<Node>, c: int)
    requires chain != [] && Contiguous(chain) && HasCls(chain[1..], c)
    ensures HasCls(chain, c) && (chain[0].val.cls == c ==> chain[1].val.cls == c)
  {
    var i :| 0 <= i < |chain[1..]| && chain[1..][i].val.cls == c;
    assert chain[i + 1].val.cls == c;
  }

  lemma HasPushed(chain: seq<Node>, f: Node, c: int)
    requires HasCls([f] + chain, c) && f.val.cls != c
    ensures HasCls(chain, c)
  {
    var i :| 0 <= i < |chain| + 1 && ([f] + chain)[i].val.cls == c;
    assert chain[i - 1].val.cls == c;
  }

  lemma MoveMeeting(hash: int -> nat, chains: seq<seq<Node>>, newer: seq<seq<Node>>, b: nat)
    requires |chains| > 0 && |newer| > 0 && Meeting(hash, chains, newer, b) && b < |chains| && chains[b] != []
    requires Proper(hash, chains[b], b, |chains|)
    ensures var nb := Home(hash, chains[b][0].val.cls, |newer|);
      Meeting(hash, chains[b := chains[b][1..]], newer[nb := [chains[b][0]] + newer[nb]], b)
  {
    var f, rest := chains[b][0], chains[b][1..];
    var nb := Home(hash, f.val.cls, |newer|);
    var chains', newer' := chains[b := rest], newer[nb := [f] + newer[nb]];
    forall c: int
      ensures MeetingAt(hash, chains', newer', b, c)
    {
      hide HasCls, Home;
      assert MeetingAt(hash, chains, newer, b, c);
      if HasCls(chains'[Home(hash, c, |chains|)], c) && HasCls(newer'[Home(hash, c, |newer|)], c) {
        if Home(hash, c, |chains|) == b { HasRest(chains[b], c); }
        if c != f.val.cls && Home(hash, c, |newer|) == nb { HasPushed(newer[nb], f, c); }
        OnlyItsHome(hash, chains[b], b, |chains|, 0);
      }
    }
  }

  lemma OnlyItsHome(hash: int -> nat, chain: seq<Node>, b: nat, n: nat, i: nat)
    requires n > 0 && Proper(hash, chain, b, n) && i < |chain|
    ensures Home(hash, chain[i].val.cls, n) == b
  {}

  lemma NextMeeting(hash: int -> nat, chains: seq<seq<Node>>, newer: seq<seq<Node>>, b: nat, next: nat)
    requires |chains| > 0 && |newer| > 0 && Meeting(hash, chains, newer, b) && b < |chains| && chains[b] == []
    ensures Meeting(hash, chains, newer, next)
  {
    forall c: int
      ensures MeetingAt(hash, chains, newer, next, c)
    {
      assert MeetingAt(hash, chains, newer, b, c);
    }
  }

  lemma NothingMoved(hash: int -> nat, chains: seq<seq<Node>>, newer: seq<seq<Node>>, contents: multiset<Value>)
    requires Holding(hash, chains, contents) && |newer| > 0 && forall b :: 0 <= b < |newer| ==> newer[b] == []
    ensures Between(hash, chains, newer, contents) && Meeting(hash, chains, newer, 0)
  {
    hide Home, Tally;
  }

  lemma AllMoved(hash: int -> nat, chains: seq<seq<Node>>, newer: seq<seq<Node>>, contents: multiset<Value>)
    requires Between(hash, chains, newer, contents) && forall b :: 0 <= b < |chains| ==> chains[b] == []
    ensures Holding(hash, newer, contents)
  {
    hide Home, Tally;
  }

  lemma RestLinked(head: Node?, chain: seq<Node>, repr: set<Node>)
    requires Linked(head, chain, repr) && chain != [] && forall j :: 0 < j < |chain| ==> chain[j] != chain[0]
    ensures Linked(chain[0].next, chain[1..], repr - {chain[0]})
  {
    RemoveFirst(head, chain, repr);
    assert RemoveAt(chain, 0) == chain[1..];
    var rest := chain[1..];
    assert forall j :: 0 <= j < |rest| ==> rest[j] == chain[j + 1];
  }

  /** The old table without the first node of a chain, of whose link it does not depend any more. */
  lemma Popped(hash: int -> nat, buckets: seq<Node?>, chains: seq<seq<Node>>, repr: set<Node>, b: nat)
    requires Chains(hash, buckets, chains, repr) && b < |chains| && chains[b] != []
    ensures var f := chains[b][0];
      Chains(hash, buckets[b := f.next], chains[b := chains[b][1..]], repr - {f})
  {
    hide Home, Proper, Linked, Chains, Others;
    ChainOf(hash, buckets, chains, repr, b);
    var f, chain := chains[b][0], chains[b];
    Apart(hash, buckets, chains, repr, f);
    OneOfChain(hash, chain, b, |chains|, 0);
    RestLinked(buckets[b], chain, repr);
    RemoveProper(hash, chain, b, |chains|, 0);
    assert RemoveAt(chain, 0) == chain[1..];
    Together(hash, buckets, chains, b, repr - {f}, f.next, chain[1..], repr - {f});
  }

  lemma ChainsWider(hash: int -> nat, buckets: seq<Node?>, chains: seq<seq<Node>>, repr: set<Node>, repr': set<Node>)
    requires Chains(hash, buckets, chains, repr) && repr <= repr'
    ensures Chains(hash, buckets, chains, repr')
  {
    hide Linked, Proper;
    forall b: nat | b < |chains|
      ensures Linked(buckets[b], chains[b], repr')
    {
      LinkedWider(buckets[b], chains[b], repr, repr');
    }
  }

  class HashTable {
    const hash: int -> nat
    var buckets: seq<Node?>
    var numElements: nat

    // the chains, the nodes and the values in them
    ghost var chains: seq<seq<Node>>
    ghost var repr: set<Node>
    ghost var contents: multiset<Value>

    constructor (n: nat, hash: int -> nat)
      ensures Valid() && contents == multiset{} && this.hash == hash && repr == {}
    {
      var nBuckets := NextPrime(n);
      this.hash := hash;
      buckets, numElements := seq(nBuckets, _ => null), 0;
      chains, repr, contents := seq(nBuckets, _ => []), {}, multiset{};
      new;
      EmptyChains(hash, buckets, chains, repr);
      EmptyHolding(hash, chains);
    }

    ghost predicate Valid()
      reads this, repr
    {
      Chains(hash, buckets, chains, repr) && Holding(hash, chains, contents) && numElements == |contents|
    }

    function BktNum(cls: int): (b: nat)
      requires |buckets| > 0
      reads this
      ensures b == Home(hash, cls, |buckets|)
    {
      Home(hash, cls, |buckets|)
    }

    lemma HomeOf(cls: int)
      requires Valid()
      ensures |buckets| == |chains| > 0
      ensures var b := Home(hash, cls, |chains|);
        Linked(buckets[b], chains[b], repr) && Proper(hash, chains[b], b, |chains|)
    {
      hide Home, Proper, Linked, Holding;
      ChainOf(hash, buckets, chains, repr, Home(hash, cls, |buckets|));
    }

    /** The loop that goes along a chain up to an equal key. */
    method Seek(cls: int) returns (cur: Node?, ghost i: nat)
      requires Valid()
      ensures |buckets| == |chains| > 0
      ensures var chain := chains[Home(hash, cls, |chains|)]; i == First(chain, cls, 0) && cur == Nth(chain, i)
      ensures cur != null ==> cur in repr
    {
      hide Valid, Home, Proper, First, Linked;
      HomeOf(cls);
      var n := BktNum(cls);
      cur := buckets[n];
      ghost var chain := chains[n];
      i := 0;
      End(buckets[n], chain, repr, 0);
      while cur != null && cur.val.cls != cls
        invariant i <= |chain| && cur == Nth(chain, i) && First(chain, cls, 0) == First(chain, cls, i)
        decreases |chain| - i
      {
        FirstOn(chain, cls, i);
        Step(buckets[n], chain, repr, i);
        cur, i := cur.next, i + 1;
      }
      FirstOn(chain, cls, i);
      if cur != null { Step(buckets[n], chain, repr, i); }
    }

    /** The node with an equal key, if the class is there. */
    method LowerBound(cls: int) returns (first: Node?)
      requires Valid()
      ensures |buckets| == |chains| > 0
      ensures var chain := chains[Home(hash, cls, |chains|)]; first == Nth(chain, First(chain, cls, 0))
      ensures first != null ==> first in repr
    {
      hide Home, Proper, Holding, CountIn, Tally, First, Linked, Chains;
      HomeOf(cls);
      Counts(cls);
      if numElements == 0 {
        NoTally(contents, cls);
        return null;
      }
      var cur, _ := Seek(cls);
      first := cur;
    }

    lemma Counts(cls: int)
      requires Valid()
      ensures var chain := chains[Home(hash, cls, |chains|)];
        Tally(contents, cls) == CountIn(chain, cls) && (First(chain, cls, 0) < |chain| <==> CountIn(chain, cls) > 0)
    {
      hide Chains, CountIn;
      FirstHit(chains[Home(hash, cls, |chains|)], cls);
    }

    /** The node is on the chain that hangs off its bucket. */
    ghost predicate Stored(node: Node)
      reads this, repr, node
    {
      && |buckets| == |chains| > 0
      && var b := hash(node.val.cls) % |chains|;
         Linked(buckets[b], chains[b], repr) && exists i: nat :: i < |chains[b]| && chains[b][i] == node
    }

    /** The node that a search in a chain has found is stored, and its value is one of the contents. */
    lemma FoundAt(cls: int, i: nat)
      requires Valid() && |chains| > 0
      requires i < |chains[Home(hash, cls, |chains|)]|
      ensures var f := chains[Home(hash, cls, |chains|)][i];
        f in repr && (f.val.cls == cls ==> Stored(f) && f.val in contents)
    {
      hide CountIn, Tally, Chains, Proper;
      HomeOf(cls);
      var b := Home(hash, cls, |chains|);
      var f := chains[b][i];
      OccHas(chains[b], i);
      if f.val.cls == cls { assert contents[f.val] == Occ(chains[b], f.val); }
    }

    /** Finds a value with an equal key exactly if there is one. */
    method Find(cls: int) returns (node: Node?)
      requires Valid()
      ensures node == null <==> Tally(contents, cls) == 0
      ensures node == null <==> forall v: Value :: v in contents ==> v.cls != cls
      ensures node != null ==> node in repr && node.val.cls == cls && Stored(node) && node.val in contents
    {
      hide Valid, Home, CountIn, Tally, Stored;
      node := LowerBound(cls);
      Counts(cls);
      TallyZero(contents, cls);
      if node != null { FoundAt(cls, First(chains[Home(hash, cls, |chains|)], cls, 0)); }
    }

    /** Puts a fresh node at the front of its chain. */
    method PushFront(node: Node)
      requires Valid() && node !in repr && node.next == null
      requires var chain := chains[Home(hash, node.val.cls, |chains|)];
        HasCls(chain, node.val.cls) ==> chain[0].val.cls == node.val.cls
      modifies this, node
      ensures Valid() && contents == old(contents) + multiset{node.val} && repr == old(repr) + {node}
      ensures |buckets| == |old(buckets)| && numElements == old(numElements) + 1
    {
      hide Home, Proper, Holding, Chains, Others, Linked, Nth, HasCls, InsertAt;
      ghost var b := Home(hash, node.val.cls, |chains|);
      ChainOf(hash, buckets, chains, repr, b);
      NotIn(buckets[b], chains[b], repr, node);
      var n := BktNum(node.val.cls);
      ghost var chain := chains[n];
      PushProper(hash, chain, n, |chains|, node);
      PushIsInsert(chain, node);
      HoldingInsert(hash, chains, contents, n, 0, node);
      Apart(hash, buckets, chains, repr, node);
      node.next := buckets[n];
      PushLinked(buckets[n], chain, repr, node);
      Together(hash, buckets, chains, n, repr - {node}, node, [node] + chain, repr + {node});
      buckets := buckets[n := node];
      numElements := numElements + 1;
      chains, repr, contents := chains[n := [node] + chain], repr + {node}, contents + multiset{node.val};
    }

    /** Adds a value unless there is one with an equal key. */
    method InsertUniqueNoresize(obj: Value) returns (node: Node, inserted: bool)
      requires Valid()
      modifies this, repr
      ensures Valid() && inserted == (Tally(old(contents), obj.cls) == 0) && fresh(repr - old(repr))
      ensures contents == (if inserted then old(contents) + multiset{obj} else old(contents))
      ensures node in repr && node.val.cls == obj.cls && node.val in contents && (inserted ==> node.val == obj)
      ensures |buckets| == |old(buckets)| && numElements == old(numElements) + if inserted then 1 else 0
    {
      hide Valid, Home, CountIn, Tally, First, Linked, Proper;
      HomeOf(obj.cls);
      Counts(obj.cls);
      CountNone(chains[Home(hash, obj.cls, |chains|)], obj.cls);
      ghost var i;
      var cur;
      cur, i := Seek(obj.cls);
      if cur != null {
        FoundAt(obj.cls, i);
        return cur, false;
      }
      node := new Node(obj);
      PushFront(node);
      inserted := true;
    }

    /** Adds a value, next to one with an equal key if there is one. */
    method InsertEqualNoresize(obj: Value) returns (node: Node)
      requires Valid()
      modifies this, repr
      ensures Valid() && contents == old(contents) + multiset{obj} && fresh(repr - old(repr))
      ensures node in repr && node.val == obj && |buckets| == |old(buckets)| && numElements == old(numElements) + 1
    {
      hide Valid, Home, CountIn, Tally, First, Linked, Proper;
      HomeOf(obj.cls);
      Counts(obj.cls);
      CountNone(chains[Home(hash, obj.cls, |chains|)], obj.cls);
      ghost var i;
      var cur;
      cur, i := Seek(obj.cls);
      node := new Node(obj);
      if cur != null {
        PutBehind(cur, node, i);
      } else {
        PushFront(node);
      }
    }

    /** Puts a fresh node behind one with an equal key. */
    method PutBehind(cur: Node, node: Node, ghost i: nat)
      requires Valid() && node !in repr && node.next == null && cur in repr && node.val.cls == cur.val.cls
      requires var chain := chains[Home(hash, node.val.cls, |chains|)]; i < |chain| && chain[i] == cur
      modifies this, node, cur
      ensures Valid() && contents == old(contents) + multiset{node.val} && repr == old(repr) + {node}
      ensures |buckets| == |old(buckets)| && numElements == old(numElements) + 1
    {
      hide Home, Proper, Holding, Chains, Others, Linked, Nth, InsertAt;
      ghost var b := Home(hash, node.val.cls, |chains|);
      ChainOf(hash, buckets, chains, repr, b);
      NotIn(buckets[b], chains[b], repr, node);
      ghost var chain := chains[b];
      Links(buckets[b], chain, repr);
      ghost var longer := InsertAt(chain, i + 1, node);
      InsertProper(hash, chain, b, |chains|, i, node);
      HoldingInsert(hash, chains, contents, b, i + 1, node);
      OneOfChain(hash, chain, b, |chains|, i);
      Apart(hash, buckets, chains, repr, cur);
      node.next := cur.next;
      cur.next := node;
      InsertLinked(buckets[b], chain, repr, i, node);
      Together(hash, buckets, chains, b, repr - {cur}, buckets[b], longer, repr + {node});
      assert buckets[b := buckets[b]] == buckets;
      numElements := numElements + 1;
      chains, repr, contents := chains[b := longer], repr + {node}, contents + multiset{node.val};
    }

    /** Removes the value the iterator points at; the end is left alone. */
    method Erase(position: Node?, ghost i: nat)
      requires Valid() && |chains| > 0
      requires position != null ==>
        i < |chains[Home(hash, position.val.cls, |chains|)]|
        && chains[Home(hash, position.val.cls, |chains|)][i] == position
      modifies this, repr
      ensures Valid() && repr == old(repr) && |buckets| == |old(buckets)|
      ensures position == null ==> contents == old(contents)
      ensures position != null ==> contents == old(contents) - multiset{position.val} && position.val in old(contents)
    {
      hide Home, Proper, Holding, Chains, Others, Linked, Nth, RemoveAt, InsertAt;
      if position == null { return; }
      HomeOf(position.val.cls);
      var n := BktNum(position.val.cls);
      ghost var chain, b: nat := chains[n], n;
      RemoveProper(hash, chain, n, |chains|, i);
      RemoveIsInsert(chain, i);
      assert chains[n := RemoveAt(chain, i)][n := chain] == chains;
      Present(hash, chains, contents, b, i);
      assert contents - multiset{position.val} + multiset{position.val} == contents;
      HoldingRemove(hash, chains[n := RemoveAt(chain, i)], contents - multiset{position.val}, n, i, position);
      var first := buckets[n];
      End(first, chain, repr, 0);
      Step(first, chain, repr, i);
      Step(first, chain, repr, 0);
      OneOfChain(hash, chain, n, |chains|, i);
      Apart(hash, buckets, chains, repr, position);
      if first == position {
        RemoveFirst(first, chain, repr);
        Together(hash, buckets, chains, n, repr - {position}, position.next, RemoveAt(chain, i), repr);
        buckets := buckets[n := position.next];
      } else {
        ghost var j: nat := 0;
        while first.next != position
          invariant j < i && first == chain[j] && first in repr && first.next == Nth(chain, j + 1)
          invariant unchanged(this) && Linked(buckets[n], chain, repr) && Chains(hash, buckets, chains, repr)
          decreases i - j
        {
          Step(buckets[n], chain, repr, j + 1);
          first, j := first.next, j + 1;
        }
        Before(chain, i, j, position);
        Links(buckets[n], chain, repr);
        OneOfChain(hash, chain, n, |chains|, j);
        Apart(hash, buckets, chains, repr, first);
        first.next := position.next;
        RemoveLinked(buckets[n], chain, repr, i);
        Together(hash, buckets, chains, n, repr - {first}, buckets[n], RemoveAt(chain, i), repr);
        assert buckets[n := buckets[n]] == buckets;
      }
      numElements := numElements - 1;
      chains, contents := chains[n := RemoveAt(chain, i)], contents - multiset{position.val};
    }

    /** The next node of the iteration. */
    method Increment(cur: Node, ghost i: nat) returns (next: Node?)
      requires Valid() && |chains| > 0
      requires var chain := chains[Home(hash, cur.val.cls, |chains|)]; i < |chain| && chain[i] == cur
      ensures next == At(chains, Home(hash, cur.val.cls, |chains|), i + 1)
      ensures Follows(chains, hash(cur.val.cls) % |chains|, i, next)
    {
      hide Valid, Proper, Linked, Nth, FirstFrom, Follows, FirstIn;
      AtFollows(chains, Home(hash, cur.val.cls, |chains|), i);
      HomeOf(cur.val.cls);
      ghost var n := Home(hash, cur.val.cls, |chains|);
      Step(buckets[n], chains[n], repr, i);
      End(buckets[n], chains[n], repr, i + 1);
      NthIs(chains[n], i + 1);
      next := cur.next;
      if next == null {
        var bucket := BktNum(cur.val.cls);
        next := NextChain(bucket);
      }
    }

    /** The loop that goes on to the next bucket with a chain. */
    method NextChain(b: nat) returns (tmp: Node?)
      requires Valid() && b < |chains|
      ensures tmp == FirstFrom(chains, b + 1)
    {
      hide Valid, Proper, Linked, Nth;
      tmp := null;
      var bucket := b + 1;
      Lengths();
      while tmp == null && bucket < |buckets|
        invariant b < bucket <= |buckets| == |chains|
        invariant tmp == null ==> FirstFrom(chains, b + 1) == FirstFrom(chains, bucket)
        invariant tmp != null ==> FirstFrom(chains, b + 1) == tmp
        decreases |buckets| - bucket
      {
        HeadOf(bucket);
        tmp := buckets[bucket];
        bucket := bucket + 1;
      }
    }

    lemma Lengths()
      requires Valid()
      ensures |buckets| == |chains| > 0
    {}

    lemma HeadOf(b: nat)
      requires Valid() && b < |chains|
      ensures |buckets| == |chains|
      ensures if chains[b] == [] then buckets[b] == null else buckets[b] == chains[b][0]
    {
      hide Proper, Holding, Home;
      ChainOf(hash, buckets, chains, repr, b);
    }

    /** What comes after the last value with an equal key. */
    method UpperBound(cls: int) returns (last: Node?)
      requires Valid()
      ensures |buckets| == |chains| > 0
      ensures var b := Home(hash, cls, |chains|); var i := First(chains[b], cls, 0);
        last == if i < |chains[b]| then At(chains, b, Past(chains[b], cls, i)) else null
      ensures var b := hash(cls) % |chains|; var i := First(chains[b], cls, 0);
        if i == |chains[b]| then last == null else Follows(chains, b, Past(chains[b], cls, i) - 1, last)
    {
      hide Valid, Proper, Linked, Nth, First, Past, CountIn, Tally, FirstFrom, Follows, FirstIn;
      HomeOf(cls);
      Counts(cls);
      if numElements == 0 {
        EmptyTally(cls);
        return null;
      }
      var n := BktNum(cls);
      ghost var chain := chains[n];
      ghost var i;
      var first;
      first, i := Seek(cls);
      End(buckets[n], chain, repr, i);
      NthIs(chain, i);
      if first == null { return null; }
      Step(buckets[n], chain, repr, i);
      FirstOn(chain, cls, i);
      var tmp := first.next;
      ghost var j: nat := i + 1;
      PastOn(chain, cls, i);
      while tmp != null && tmp.val.cls == cls
        invariant i < j <= |chain| && tmp == Nth(chain, j) && Past(chain, cls, i) == Past(chain, cls, j)
        decreases |chain| - j
      {
        End(buckets[n], chain, repr, j);
        Step(buckets[n], chain, repr, j);
        PastOn(chain, cls, j);
        tmp, j := tmp.next, j + 1;
      }
      End(buckets[n], chain, repr, j);
      NthIs(chain, j);
      PastOn(chain, cls, j);
      if tmp == null {
        tmp := NextChain(n);
      }
      last := tmp;
      PastBehind(chain, cls, i);
      AtFollows(chains, n, Past(chain, cls, i) - 1);
    }

    /** The first node of the iteration. */
    method Begin() returns (first: Node?)
      requires Valid()
      ensures |chains| > 0 && FirstIn(chains, 0, first)
    {
      hide Valid, Proper, Linked, Nth, FirstFrom, FirstIn;
      Lengths();
      FirstFromFinds(chains, 0);
      if numElements == 0 {
        NothingStored();
        return null;
      }
      first := null;
      var bucket := 0;
      while bucket < |buckets|
        invariant 0 <= bucket <= |buckets| == |chains|
        invariant FirstFrom(chains, 0) == FirstFrom(chains, bucket)
      {
        HeadOf(bucket);
        FirstFromStep(chains, bucket);
        if buckets[bucket] != null { return buckets[bucket]; }
        bucket := bucket + 1;
      }
      FirstFromStep(chains, bucket);
    }

    lemma NothingStored()
      requires Valid() && numElements == 0
      ensures FirstIn(chains, 0, null)
    {
      hide Valid;
      forall c | 0 <= c < |chains| ensures chains[c] == [] {
        if chains[c] != [] { SomethingStored(c); }
      }
    }

    lemma SomethingStored(c: nat)
      requires Valid() && c < |chains| && chains[c] != []
      ensures numElements > 0
    {
      hide Tally, CountIn, Contiguous, Distinct, Linked;
      ChainOf(hash, buckets, chains, repr, c);
      var v := chains[c][0].val;
      OccHas(chains[c], 0);
      assert contents[v] == Occ(chains[c], v);
      assert v in contents;
    }

    /** An iteration from the first node to the end visits every stored node once, and the values it
        visits are the contents. */
    method Traverse() returns (visited: seq<Node>)
      requires Valid()
      ensures forall i, j :: 0 <= i < j < |visited| ==> visited[i] != visited[j]
      ensures forall f :: f in visited <==> exists b :: 0 <= b < |chains| && f in chains[b]
      ensures forall v: Value :: Occ(visited, v) == contents[v]
    {
      hide Valid, Follows, FirstIn, Proper, Holding, Joined, FirstFrom;
      visited := [];
      var cur := Begin();
      ghost var i: nat := 0;
      ghost var b := Started(chains, cur);
      while cur != null
        invariant |chains| > 0 && (cur != null ==> b < |chains| && i < |chains[b]| && chains[b][i] == cur)
        invariant cur != null ==> visited == Joined(chains, b) + chains[b][..i]
        invariant cur == null ==> visited == Joined(chains, |chains|)
        decreases |chains| - b, if cur == null then 0 else |chains[b]| - i, if cur == null then 0 else 1
      {
        AtHome(b, i);
        visited := visited + [cur];
        cur := Increment(cur, i);
        b, i := Onward(chains, b, i, cur);
      }
      Visited(visited);
    }

    lemma AtHome(b: nat, i: nat)
      requires Valid() && b < |chains| && i < |chains[b]|
      ensures Home(hash, chains[b][i].val.cls, |chains|) == b
    {
      hide Home, Linked, Holding, Distinct, Contiguous;
      ChainOf(hash, buckets, chains, repr, b);
    }

    lemma Visited(visited: seq<Node>)
      requires Valid() && visited == Joined(chains, |chains|)
      ensures forall i, j :: 0 <= i < j < |visited| ==> visited[i] != visited[j]
      ensures forall f :: f in visited <==> exists b :: 0 <= b < |chains| && f in chains[b]
      ensures forall v: Value :: Occ(visited, v) == contents[v]
    {
      hide Home, Linked, Tally, CountIn, Proper, Occ, Joined;
      forall b | 0 <= b < |chains| ensures Proper(hash, chains[b], b, |chains|) {
        ChainOf(hash, buckets, chains, repr, b);
      }
      JoinedDistinct(hash, chains, |chains|);
      forall f ensures f in visited <==> exists b :: 0 <= b < |chains| && f in chains[b] {
        JoinedHas(chains, |chains|, f);
      }
      forall v: Value ensures Occ(visited, v) == contents[v] { JoinedOcc(hash, chains, |chains|, v); }
    }

    lemma EmptyTally(cls: int)
      requires Valid() && numElements == 0
      ensures Tally(contents, cls) == 0
    {
      NoTally(contents, cls);
    }

    /** The state of a rehash: what is left in the old table and what has been moved. */
    ghost predicate Moving(tmp: seq<Node?>, newer: seq<seq<Node>>, left: set<Node>, moved: set<Node>, b: nat)
      reads this, left, moved
    {
      && Chains(hash, buckets, chains, left) && Chains(hash, tmp, newer, moved)
      && left !! moved && left + moved == repr
      && Between(hash, chains, newer, contents) && Meeting(hash, chains, newer, b)
      && numElements == |contents|
    }

    /** Moves the first node of a bucket to the front of its chain in the new table. */
    method MoveFirst(first: Node, tmp: seq<Node?>, bucket: nat, ghost newer: seq<seq<Node>>,
                     ghost left: set<Node>, ghost moved: set<Node>)
      returns (tmp': seq<Node?>, ghost newer': seq<seq<Node>>)
      requires Moving(tmp, newer, left, moved, bucket) && bucket < |chains| && chains[bucket] != []
      requires chains[bucket][0] == first && first in left
      modifies this`buckets, this`chains, first
      ensures Moving(tmp', newer', left - {first}, moved + {first}, bucket) && |tmp'| == |tmp|
      ensures chains == old(chains)[bucket := old(chains)[bucket][1..]]
    {
      hide Home, Proper, Chains, Between, Meeting, Linked, Others, HasCls;
      SizesOf(hash, buckets, chains, left);
      SizesOf(hash, tmp, newer, moved);
      ChainOf(hash, buckets, chains, left, bucket);
      OnlyItsHome(hash, chains[bucket], bucket, |chains|, 0);
      Popped(hash, buckets, chains, left, bucket);
      MoveBetween(hash, chains, newer, contents, bucket);
      MoveMeeting(hash, chains, newer, bucket);
      var newBucket := Home(hash, first.val.cls, |tmp|);
      ChainOf(hash, tmp, newer, moved, newBucket);
      NotIn(tmp[newBucket], newer[newBucket], moved, first);
      Apart(hash, tmp, newer, moved, first);
      MeetsFront(hash, chains, newer, bucket);
      PushProper(hash, newer[newBucket], newBucket, |newer|, first);
      buckets := buckets[bucket := first.next];
      chains := chains[bucket := chains[bucket][1..]];
      first.next := tmp[newBucket];
      PushLinked(tmp[newBucket], newer[newBucket], moved, first);
      Together(hash, tmp, newer, newBucket, moved - {first}, first, [first] + newer[newBucket], moved + {first});
      newer' := newer[newBucket := [first] + newer[newBucket]];
      tmp' := tmp[newBucket := first];
    }

    /** Moves to more buckets when the hint exceeds them. */
    method Resize(numElementsHint: nat)
      requires Valid()
      modifies this, repr
      ensures Valid() && contents == old(contents) && repr == old(repr) && numElements == old(numElements)
      ensures |buckets| >= old(|buckets|)
      ensures |buckets| >= if numElementsHint <= 4294967291 then numElementsHint else 4294967291
    {
      hide Home, Proper, Chains, Between, Meeting, Linked, Holding;
      Lengths();
      var oldN := |buckets|;
      if numElementsHint > oldN {
        var n := NextPrime(numElementsHint);
        if n > oldN {
          var tmp: seq<Node?> := seq(n, _ => null);
          ghost var newer: seq<seq<Node>>, left, moved: set<Node> := seq(n, _ => []), repr, {};
          EmptyChains(hash, tmp, newer, moved);
          NothingMoved(hash, chains, newer, contents);
          var bucket := 0;
          while bucket < oldN
            invariant 0 <= bucket <= oldN == |chains| == |buckets| && |tmp| == n
            invariant Moving(tmp, newer, left, moved, bucket) && repr == old(repr) && contents == old(contents)
            invariant numElements == old(numElements)
            invariant forall b :: 0 <= b < bucket ==> chains[b] == []
          {
            FrontOf(hash, buckets, chains, left, bucket);
            var first := buckets[bucket];
            while first != null
              invariant oldN == |chains| == |buckets| && |tmp| == n && first == Nth(chains[bucket], 0)
              invariant Moving(tmp, newer, left, moved, bucket) && repr == old(repr) && contents == old(contents)
              invariant numElements == old(numElements) && (first != null ==> first in left)
              invariant forall b :: 0 <= b < bucket ==> chains[b] == []
              decreases |chains[bucket]|
            {
              ghost var newer';
              tmp, newer' := MoveFirst(first, tmp, bucket, newer, left, moved);
              newer, left, moved := newer', left - {first}, moved + {first};
              FrontOf(hash, buckets, chains, left, bucket);
              first := buckets[bucket];
            }
            SizesOf(hash, tmp, newer, moved);
            NextMeeting(hash, chains, newer, bucket, bucket + 1);
            bucket := bucket + 1;
          }
          AllMoved(hash, chains, newer, contents);
          ChainsWider(hash, tmp, newer, moved, repr);
          SizesOf(hash, tmp, newer, moved);
          buckets := tmp;
          chains := newer;
        }
      }
    }

    method InsertUnique(obj: Value) returns (node: Node, inserted: bool)
      requires Valid()
      modifies this, repr
      ensures Valid() && inserted == (Tally(old(contents), obj.cls) == 0) && fresh(repr - old(repr))
      ensures inserted <==> forall v: Value :: v in old(contents) ==> v.cls != obj.cls
      ensures contents == (if inserted then old(contents) + multiset{obj} else old(contents))
      ensures node in repr && node.val.cls == obj.cls && node.val in contents && (inserted ==> node.val == obj)
      ensures |contents| <= 4294967291 ==> |contents| <= |buckets|
    {
      hide Valid, Tally;
      TallyZero(contents, obj.cls);
      Resize(numElements + 1);
      node, inserted := InsertUniqueNoresize(obj);
      Counted();
    }

    method InsertEqual(obj: Value) returns (node: Node)
      requires Valid()
      modifies this, repr
      ensures Valid() && contents == old(contents) + multiset{obj} && fresh(repr - old(repr))
      ensures node in repr && node.val == obj
      ensures |contents| <= 4294967291 ==> |contents| <= |buckets|
    {
      hide Valid, Tally;
      Resize(numElements + 1);
      node := InsertEqualNoresize(obj);
      Counted();
    }

    lemma Counted()
      requires Valid()
      ensures numElements == |contents|
    {}

    lemma SameHere(b: nat, k: nat, j: nat)
      requires Valid() && b < |chains| && k <= j <= |chains[b]|
      ensures At(chains, b, k) == At(chains, b, j) <==> k == j
    {
      Same(hash, buckets, chains, repr, b, k, j);
    }

    /** How many values have an equal key. */
    method Count(cls: int) returns (n: nat)
      requires Valid()
      ensures n == Tally(contents, cls)
    {
      hide Valid, Home, Proper, Linked, Nth, First, Past, CountIn, Tally, At;
      var first := LowerBound(cls);
      var last := UpperBound(cls);
      HomeOf(cls);
      Counts(cls);
      ghost var b := Home(hash, cls, |chains|);
      ghost var chain := chains[b];
      ghost var i := First(chain, cls, 0);
      NthIs(chain, i);
      n := 0;
      if first == null {
        SameHere(b, i, i);
        return;
      }
      WholeRun(hash, chain, b, |chains|, cls);
      ghost var j := Past(chain, cls, i);
      var it := first;
      AtIs(chains, b, i);
      SameHere(b, i, j);
      while it != last
        invariant i + n <= j && it == At(chains, b, i + n) && (it == last <==> i + n == j)
        decreases j - n
      {
        AtIs(chains, b, i + n);
        it := Increment(it, i + n);
        n := n + 1;
        SameHere(b, i + n, j);
      }
    }
  }

  lemma RemoveIsInsert(chain: seq<Node>, i: nat)
    requires i < |chain|
    ensures |RemoveAt(chain, i)| == |chain| - 1 && InsertAt(RemoveAt(chain, i), i, chain[i]) == chain
  {}

  lemma Present(hash: int -> nat, chains: seq<seq<Node>>, contents: multiset<Value>, b: nat, i: nat)
    requires Holding(hash, chains, contents) && b < |chains| && i < |chains[b]|
    requires b == Home(hash, chains[b][i].val.cls, |chains|)
    ensures chains[b][i].val in contents
  {
    hide Home, RemoveAt, InsertAt, Occ, Tally, CountIn;
    RemoveIsInsert(chains[b], i);
    InsertOcc(RemoveAt(chains[b], i), i, chains[b][i], chains[b][i].val);
  }

  lemma RemovedAt(chain: seq<Node>, i: nat)
    requires i < |chain|
    ensures |RemoveAt(chain, i)| == |chain| - 1
    ensures forall j {:trigger RemoveAt(chain, i)[j]} :: 0 <= j < |chain| - 1 ==>
      RemoveAt(chain, i)[j] == chain[if j < i then j else j + 1]
  {}

  lemma RemoveFirst(head: Node?, chain: seq<Node>, repr: set<Node>)
    requires Linked(head, chain, repr) && chain != []
    ensures Linked(chain[0].next, RemoveAt(chain, 0), repr)
  {
    hide RemoveAt;
    RemovedAt(chain, 0);
  }

  lemma RemoveLinked(head: Node?, chain: seq<Node>, repr: set<Node>, i: nat)
    requires 0 < i < |chain| && head == Nth(chain, 0) && forall j :: 0 <= j < |chain| ==> chain[j] in repr
    requires forall j: nat :: j < |chain| ==> chain[j].next == Nth(chain, if j == i - 1 then i + 1 else j + 1)
    ensures Linked(head, RemoveAt(chain, i), repr)
  {
    hide RemoveAt;
    var t := RemoveAt(chain, i);
    RemovedAt(chain, i);
    forall j: nat | j < |t|
      ensures t[j].next == Nth(t, j + 1)
    {
      assert t[j] == chain[if j < i then j else j + 1];
      if j + 1 < |t| {
        assert t[j + 1] == chain[if j + 1 < i then j + 1 else j + 2];
      }
    }
  }

  /** The node before position i is found by its link. */
  lemma Before(chain: seq<Node>, i: nat, j: nat, f: Node)
    requires i < |chain| && j < i && chain[i] == f && Nth(chain, j + 1) == f
    requires forall k :: 0 <= k < |chain| && k != i ==> chain[k] != chain[i]
    ensures j + 1 == i
  {}

  lemma {:induction false} FirstFromIs(hash: int -> nat, buckets: seq<Node?>, chains: seq<seq<Node>>,
      repr: set<Node>, k: nat)
    requires Chains(hash, buckets, chains, repr)
    ensures FirstFrom(chains, k) != null ==> k <= Home(hash, FirstFrom(chains, k).val.cls, |chains|)
    decreases |chains| - k
  {
    hide Home, Linked, Contiguous, Distinct;
    if k < |chains| {
      ChainOf(hash, buckets, chains, repr, k);
      if chains[k] == [] { FirstFromIs(hash, buckets, chains, repr, k + 1); }
    }
  }

  /** Within a chain and up to its end different positions are different nodes. */
  lemma Same(hash: int -> nat, buckets: seq<Node?>, chains: seq<seq<Node>>, repr: set<Node>, b: nat, k: nat, j: nat)
    requires Chains(hash, buckets, chains, repr) && b < |chains| && k <= j <= |chains[b]|
    ensures At(chains, b, k) == At(chains, b, j) <==> k == j
  {
    hide Home, Linked, Contiguous;
    ChainOf(hash, buckets, chains, repr, b);
    FirstFromIs(hash, buckets, chains, repr, b + 1);
  }

  lemma NthIs(chain: seq<Node>, i: nat)
    ensures Nth(chain, i) == if i < |chain| then chain[i] else null
  {}

  lemma AtIs(chains: seq<seq<Node>>, b: nat, i: nat)
    requires b < |chains| && i < |chains[b]|
    ensures At(chains, b, i) == chains[b][i]
  {}

  lemma OneOfChain(hash: int -> nat, chain: seq<Node>, b: nat, n: nat, i: nat)
    requires n > 0 && Proper(hash, chain, b, n) && i < |chain|
    ensures forall j :: 0 <= j < |chain| && j != i ==> chain[j] != chain[i]
    ensures Home(hash, chain[i].val.cls, n) == b
  {}

  /** A new node at the front of its chain. */
  lemma PushLinked(head: Node?, chain: seq<Node>, repr: set<Node>, f: Node)
    requires Linked(head, chain, repr) && f.next == head
    ensures Linked(f, [f] + chain, repr + {f})
  {}

  lemma NotIn(head: Node?, chain: seq<Node>, repr: set<Node>, f: Node)
    requires Linked(head, chain, repr) && f !in repr
    ensures f !in chain
  {}

  lemma Links(head: Node?, chain: seq<Node>, repr: set<Node>)
    requires Linked(head, chain, repr)
    ensures head == Nth(chain, 0) && forall j :: 0 <= j < |chain| ==> chain[j] in repr
    ensures forall j: nat :: j < |chain| ==> chain[j].next == Nth(chain, j + 1)
  {}

  /** One step along a chain. */
  lemma Step(head: Node?, chain: seq<Node>, repr: set<Node>, i: nat)
    requires Linked(head, chain, repr) && i < |chain|
    ensures Nth(chain, i) == chain[i] && chain[i] in repr && chain[i].next == Nth(chain, i + 1)
  {}

  lemma End(head: Node?, chain: seq<Node>, repr: set<Node>, i: nat)
    requires Linked(head, chain, repr) && i <= |chain|
    ensures head == Nth(chain, 0) && (Nth(chain, i) == null <==> i == |chain|)
  {}

  lemma PushIsInsert(chain: seq<Node>, f: Node)
    ensures InsertAt(chain, 0, f) == [f] + chain
  {}

  lemma InsertLinked(head: Node?, chain: seq<Node>, repr: set<Node>, i: nat, f: Node)
    requires i < |chain| && f !in repr && f.next == Nth(chain, i + 1) && head == Nth(chain, 0)
    requires forall j :: 0 <= j < |chain| ==> chain[j] in repr
    requires forall j: nat :: j < |chain| ==> chain[j].next == if j == i then f else Nth(chain, j + 1)
    ensures Linked(head, InsertAt(chain, i + 1, f), repr + {f})
  {
    hide InsertAt;
    var t := InsertAt(chain, i + 1, f);
    InsertedAt(chain, i + 1, f);
    forall j: nat | j < |t|
      ensures t[j].next == Nth(t, j + 1)
    {
      if j != i + 1 {
        var j0 := if j <= i then j else j - 1;
        assert t[j] == chain[j0];
      }
      if j + 1 < |t| {
        assert t[j + 1] == if j == i then f else chain[if j < i then j + 1 else j];
      }
    }
  }

  lemma SizesOf(hash: int -> nat, buckets: seq<Node?>, chains: seq<seq<Node>>, repr: set<Node>)
    requires Chains(hash, buckets, chains, repr)
    ensures |buckets| == |chains| > 0
  {}

  lemma FrontOf(hash: int -> nat, buckets: seq<Node?>, chains: seq<seq<Node>>, repr: set<Node>, b: nat)
    requires Chains(hash, buckets, chains, repr) && b < |chains|
    ensures |buckets| == |chains| && buckets[b] == Nth(chains[b], 0)
    ensures chains[b] != [] ==> chains[b][0] in repr
  {
    hide Home, Proper;
    ChainOf(hash, buckets, chains, repr, b);
  }

  /** The class being moved is at the front of its new chain if it is there at all. */
  lemma MeetsFront(hash: int -> nat, chains: seq<seq<Node>>, newer: seq<seq<Node>>, b: nat)
    requires |chains| > 0 && |newer| > 0 && Meeting(hash, chains, newer, b) && b < |chains| && chains[b] != []
    requires Home(hash, chains[b][0].val.cls, |chains|) == b
    ensures var c := chains[b][0].val.cls; var chain := newer[Home(hash, c, |newer|)];
      HasCls(chain, c) ==> chain[0].val.cls == c
  {
    var c := chains[b][0].val.cls;
    assert MeetingAt(hash, chains, newer, b, c);
  }

  lemma FirstOn(chain: seq<Node>, cls: int, i: nat)
    requires i <= |chain|
    ensures First(chain, cls, i) == if i == |chain| || chain[i].val.cls == cls then i else First(chain, cls, i + 1)
  {}

  lemma PastOn(chain: seq<Node>, cls: int, i: nat)
    requires i <= |chain|
    ensures Past(chain, cls, i) == if i == |chain| || chain[i].val.cls != cls then i else Past(chain, cls, i + 1)
  {}

  lemma NoTally(m: multiset<Value>, cls: int)
    requires |m| == 0
    ensures Tally(m, cls) == 0
  {}

  lemma EmptyChains(hash: int -> nat, buckets: seq<Node?>, chains: seq<seq<Node>>, repr: set<Node>)
    requires |buckets| == |chains| > 0
    requires forall b :: 0 <= b < |chains| ==> buckets[b] == null && chains[b] == []
    ensures Chains(hash, buckets, chains, repr)
  {}

  lemma EmptyHolding(hash: int -> nat, chains: seq<seq<Node>>)
    requires |chains| > 0 && forall b :: 0 <= b < |chains| ==> chains[b] == []
    ensures Holding(hash, chains, multiset{})
  {
    hide Home;
  }
}
