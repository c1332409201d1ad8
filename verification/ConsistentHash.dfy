/** The consistent-hash ring of base/consistent_hash.cc. */
module ConsistentHash {

  datatype Code = Ok | RingEmpty

  datatype Option<T> = None | Some(value: T)

  datatype Address = Address(ip: nat, port: nat)

  datatype VirtualNode = VirtualNode(address: Address, weight: nat)

  /** Where the ring places the numbered virtual nodes of an address. */
  type Placement = (Address, nat) -> nat

  /** Whether a new node takes a position from an old one. */
  predicate CheckIfReplace(newNode: VirtualNode, oldNode: VirtualNode) {
    if newNode.weight > oldNode.weight then true
    else if newNode.weight < oldNode.weight then false
    else if newNode.address.ip > oldNode.address.ip then true
    else if newNode.address.ip < oldNode.address.ip then false
    else newNode.address.port > oldNode.address.port
  }

  /** One of the first n virtual nodes of the address is placed at p. */
  ghost predicate Claims(place: Placement, address: Address, n: nat, p: nat) {
    exists v: nat :: v < n && place(address, v) == p
  }

  /** Each position claimed by one of the addresses, of whose virtual nodes the first counts[a]
      are looked at, is held by the greatest of its claimants, and no other position is held. */
  ghost predicate Held(place: Placement, ips: map<Address, nat>, counts: map<Address, nat>, ring: map<nat, VirtualNode>)
  {
    && counts.Keys == ips.Keys
    && (forall p :: p in ring ==> HeldBy(place, ips, counts, p, ring[p]))
    && (forall a: Address, p: nat :: a in ips && Claims(place, a, counts[a], p) ==>
          p in ring && !CheckIfReplace(VirtualNode(a, ips[a]), ring[p]))
  }

  ghost predicate HeldBy(place: Placement, ips: map<Address, nat>, counts: map<Address, nat>, p: nat, node: VirtualNode)
    requires counts.Keys == ips.Keys
  {
    && node.address in ips && node.weight == ips[node.address]
    && Claims(place, node.address, counts[node.address], p)
  }

  /** The ring that belongs to the addresses. */
  ghost predicate IsRing(place: Placement, ips: map<Address, nat>, ring: map<nat, VirtualNode>) {
    Held(place, ips, ips, ring)
  }

  /** What a ring holds: the positions of the virtual nodes, each by the address of the greatest weight placed
      there, among those by the one of the greatest ip, and among those by the one of the greatest port. */
  lemma RingHolds(place: Placement, ips: map<Address, nat>, ring: map<nat, VirtualNode>)
    requires IsRing(place, ips, ring)
    ensures forall p :: p in ring ==> ring[p].address in ips && ring[p].weight == ips[ring[p].address]
    ensures forall p :: p in ring ==> exists v: nat :: v < ring[p].weight && place(ring[p].address, v) == p
    ensures forall a: Address, v: nat :: a in ips && v < ips[a] ==> place(a, v) in ring
    ensures forall a: Address, v: nat :: a in ips && v < ips[a] ==> ring[place(a, v)].weight >= ips[a]
    ensures forall a: Address, v: nat {:trigger place(a, v)} :: a in ips && v < ips[a] ==>
      var n := ring[place(a, v)]; n.weight == ips[a] ==> n.address.ip >= a.ip
    ensures forall a: Address, v: nat {:trigger place(a, v)} :: a in ips && v < ips[a] ==>
      var n := ring[place(a, v)]; n.weight == ips[a] ==> n.address.ip == a.ip ==> n.address.port >= a.port
  {
    forall p | p in ring
      ensures ring[p].address in ips && ring[p].weight == ips[ring[p].address]
      ensures exists v: nat :: v < ring[p].weight && place(ring[p].address, v) == p
    {
      assert HeldBy(place, ips, ips, p, ring[p]);
    }
    forall a: Address, v: nat | a in ips && v < ips[a]
      ensures place(a, v) in ring && !CheckIfReplace(VirtualNode(a, ips[a]), ring[place(a, v)])
    {
      assert Claims(place, a, ips[a], place(a, v));
    }
  }

  /** Nothing but the addresses and their weights determines the ring. */
  lemma RingIsUnique(place: Placement, ips: map<Address, nat>, r: map<nat, VirtualNode>, r': map<nat, VirtualNode>)
    requires IsRing(place, ips, r) && IsRing(place, ips, r')
    ensures r == r'
  {
    hide Claims;
    forall p | p in r
      ensures p in r' && r[p] == r'[p]
    {
      assert HeldBy(place, ips, ips, p, r[p]);
      assert p in r' && HeldBy(place, ips, ips, p, r'[p]);
    }
    forall p | p in r'
      ensures p in r
    {
      assert HeldBy(place, ips, ips, p, r'[p]);
    }
  }

  // --- the owner of a hash value

  /** The next position at or after h, or the first one if there is none. */
  ghost predicate Next(positions: set<nat>, h: nat, p: nat) {
    && p in positions
    && if p >= h then forall q :: q in positions && q >= h ==> p <= q
       else (forall q :: q in positions ==> p <= q < h)
  }

  lemma NextIsUnique(positions: set<nat>, h: nat, p: nat, p': nat)
    requires Next(positions, h, p) && Next(positions, h, p')
    ensures p == p'
  {}

  /** `node` is responsible for the hash value h. */
  ghost predicate Owns(ring: map<nat, VirtualNode>, h: nat, node: VirtualNode) {
    exists p :: Next(ring.Keys, h, p) && ring[p] == node
  }

  lemma OwnerIsUnique(ring: map<nat, VirtualNode>, h: nat, node: VirtualNode, node': VirtualNode)
    requires Owns(ring, h, node) && Owns(ring, h, node')
    ensures node == node'
  {
    var p :| Next(ring.Keys, h, p) && ring[p] == node;
    var p' :| Next(ring.Keys, h, p') && ring[p'] == node';
    NextIsUnique(ring.Keys, h, p, p');
  }

  lemma Tie(x: VirtualNode, y: VirtualNode)
    requires !CheckIfReplace(x, y) && !CheckIfReplace(y, x)
    ensures x == y
  {}

  lemma Holder(place: Placement, ips: map<Address, nat>, ring: map<nat, VirtualNode>, p: nat)
    requires IsRing(place, ips, ring) && p in ring
    ensures HeldBy(place, ips, ips, p, ring[p])
  {}

  lemma Claimant(place: Placement, ips: map<Address, nat>, ring: map<nat, VirtualNode>, p: nat, node: VirtualNode)
    requires IsRing(place, ips, ring) && HeldBy(place, ips, ips, p, node)
    ensures p in ring && !CheckIfReplace(node, ring[p])
  {}

  lemma OtherClaims(place: Placement, ips: map<Address, nat>, a: Address, p: nat, node: VirtualNode)
    ensures HeldBy(place, ips - {a}, ips - {a}, p, node) <==> HeldBy(place, ips, ips, p, node) && node.address != a
  {}

  lemma NextOfFewer(more: set<nat>, fewer: set<nat>, h: nat, p: nat)
    requires fewer <= more && Next(more, h, p) && p in fewer
    ensures Next(fewer, h, p)
  {}

  /** Without the address every value that another one owned keeps its owner. */
  lemma OnlyItsOwn(place: Placement, ips: map<Address, nat>, a: Address, r: map<nat, VirtualNode>,
                   without: map<nat, VirtualNode>, h: nat, node: VirtualNode)
    requires IsRing(place, ips, r) && IsRing(place, ips - {a}, without)
    requires Owns(r, h, node) && node.address != a
    ensures Owns(without, h, node)
  {
    hide Held, HeldBy;
    forall p | p in without
      ensures p in r
    {
      Holder(place, ips - {a}, without, p);
      OtherClaims(place, ips, a, p, without[p]);
      Claimant(place, ips, r, p, without[p]);
    }
    var p :| Next(r.Keys, h, p) && r[p] == node;
    Holder(place, ips, r, p);
    OtherClaims(place, ips, a, p, node);
    Claimant(place, ips - {a}, without, p, node);
    Holder(place, ips - {a}, without, p);
    OtherClaims(place, ips, a, p, without[p]);
    Claimant(place, ips, r, p, without[p]);
    Tie(node, without[p]);
    NextOfFewer(r.Keys, without.Keys, h, p);
  }

  /** Adding an address moves values to it only. */
  lemma AddMovesToNew(place: Placement, ips: map<Address, nat>, a: Address, w: nat, r: map<nat, VirtualNode>,
                      r': map<nat, VirtualNode>, h: nat, node: VirtualNode)
    requires a !in ips && IsRing(place, ips, r) && IsRing(place, ips[a := w], r')
    requires Owns(r', h, node)
    ensures node == VirtualNode(a, w) || Owns(r, h, node)
  {
    if node.address != a {
      assert ips[a := w] - {a} == ips;
      OnlyItsOwn(place, ips[a := w], a, r', r, h, node);
    } else {
      var p :| Next(r'.Keys, h, p) && r'[p] == node;
      assert HeldBy(place, ips[a := w], ips[a := w], p, node);
    }
  }

  /** Deleting an address moves only the values it owned. */
  lemma DelMovesOwnOnly(place: Placement, ips: map<Address, nat>, a: Address, r: map<nat, VirtualNode>,
                        r': map<nat, VirtualNode>, h: nat, node: VirtualNode, node': VirtualNode)
    requires IsRing(place, ips, r) && IsRing(place, ips - {a}, r')
    requires Owns(r, h, node) && Owns(r', h, node') && node != node'
    ensures node.address == a
  {
    if node.address != a {
      OnlyItsOwn(place, ips, a, r, r', h, node);
      OwnerIsUnique(r', h, node, node');
    }
  }

  // --- building the ring

  lemma Nothing(place: Placement, ips: map<Address, nat>)
    ensures Held(place, ips, map a | a in ips :: 0, map[])
  {}

  /** One more virtual node of the address a is placed. */
  lemma Placed(place: Placement, ips: map<Address, nat>, counts: map<Address, nat>, ring: map<nat, VirtualNode>,
               a: Address, v: nat, ring': map<nat, VirtualNode>)
    requires Held(place, ips, counts, ring) && a in ips && counts[a] == v
    requires var p, node := place(a, v), VirtualNode(a, ips[a]);
      ring' == if p !in ring || CheckIfReplace(node, ring[p]) then ring[p := node] else ring
    ensures Held(place, ips, counts[a := v + 1], ring')
  {
    var p, node, counts' := place(a, v), VirtualNode(a, ips[a]), counts[a := v + 1];
    OneMore(place, a, v);
    hide Claims;
    assert counts'.Keys == ips.Keys;
    forall q | q in ring'
      ensures HeldBy(place, ips, counts', q, ring'[q])
    {
      assert q in ring ==> HeldBy(place, ips, counts, q, ring[q]);
    }
    forall b: Address, q: nat | b in ips && Claims(place, b, counts'[b], q)
      ensures q in ring' && !CheckIfReplace(VirtualNode(b, ips[b]), ring'[q])
    {
    }
  }

  lemma OneMore(place: Placement, a: Address, v: nat)
    ensures forall q: nat :: Claims(place, a, v + 1, q) <==> Claims(place, a, v, q) || q == place(a, v)
  {
    forall q: nat
      ensures Claims(place, a, v + 1, q) <==> Claims(place, a, v, q) || q == place(a, v)
    {
      if Claims(place, a, v + 1, q) {
        var u: nat :| u < v + 1 && place(a, u) == q;
      }
    }
  }

  /** All virtual nodes of the address a are placed. */
  lemma {:induction false} AddressPlaced(place: Placement, ips: map<Address, nat>, counts: map<Address, nat>,
                                         ring: map<nat, VirtualNode>, a: Address) returns (ring': map<nat, VirtualNode>)
    requires Held(place, ips, counts, ring) && a in ips && a in counts && counts[a] <= ips[a]
    ensures Held(place, ips, counts[a := ips[a]], ring')
    decreases ips[a] - counts[a]
  {
    hide Held;
    var v := counts[a];
    if v == ips[a] {
      assert counts[a := ips[a]] == counts;
      return ring;
    }
    var p, node := place(a, v), VirtualNode(a, ips[a]);
    var next := if p !in ring || CheckIfReplace(node, ring[p]) then ring[p := node] else ring;
    Placed(place, ips, counts, ring, a, v, next);
    ring' := AddressPlaced(place, ips, counts[a := v + 1], next, a);
    assert counts[a := v + 1][a := ips[a]] == counts[a := ips[a]];
  }

  lemma {:induction false} SomePlaced(place: Placement, ips: map<Address, nat>, done: set<Address>)
    returns (ring: map<nat, VirtualNode>)
    requires done <= ips.Keys
    ensures Held(place, ips, map a | a in ips :: if a in done then ips[a] else 0, ring)
    decreases |done|
  {
    hide Held;
    var counts: map<Address, nat> := map a | a in ips :: if a in done then ips[a] else 0;
    if done == {} {
      Nothing(place, ips);
      assert counts == map a | a in ips :: 0;
      return map[];
    }
    var a :| a in done;
    ring := SomePlaced(place, ips, done - {a});
    var before: map<Address, nat> := map b | b in ips :: if b in done - {a} then ips[b] else 0;
    ring := AddressPlaced(place, ips, before, ring, a);
    assert before[a := ips[a]] == counts;
  }

  /** Every set of addresses has a ring. */
  lemma RingExists(place: Placement, ips: map<Address, nat>) returns (ring: map<nat, VirtualNode>)
    ensures IsRing(place, ips, ring)
  {
    hide Held;
    ring := SomePlaced(place, ips, ips.Keys);
    assert (map a | a in ips :: if a in ips.Keys then ips[a] else 0) == ips;
  }

  /** Changing a weight moves values only from or to the address. */
  lemma ReweighMovesOwnOnly(place: Placement, ips: map<Address, nat>, a: Address, w: nat, r: map<nat, VirtualNode>,
                            r': map<nat, VirtualNode>, h: nat, node: VirtualNode, node': VirtualNode)
    requires IsRing(place, ips, r) && IsRing(place, ips[a := w], r')
    requires Owns(r, h, node) && Owns(r', h, node') && node != node'
    ensures node.address == a || node'.address == a
  {
    if node.address != a && node'.address != a {
      assert ips[a := w] - {a} == ips - {a};
      var between := RingExists(place, ips - {a});
      OnlyItsOwn(place, ips, a, r, between, h, node);
      OnlyItsOwn(place, ips[a := w], a, r', between, h, node');
      OwnerIsUnique(between, h, node, node');
    }
  }

  class ConsistentHash {
    const place: Placement
    const hash: string -> nat
    var ring: map<nat, VirtualNode>
    var ips: map<Address, nat>

    constructor (place: Placement, hash: string -> nat)
      ensures this.place == place && this.hash == hash && ips == map[] && Valid()
    {
      this.place, this.hash := place, hash;
      ring, ips := map[], map[];
    }

    ghost predicate Valid()
      reads this
    {
      IsRing(place, ips, ring)
    }

    /** Adds the node or changes its weight. */
    method Put(node: VirtualNode) returns (code: Code)
      requires Valid()
      modifies this
      ensures Valid() && code == Ok && ips == old(ips)[node.address := node.weight]
    {
      if node.address in ips {
        if ips[node.address] == node.weight {
          assert ips[node.address := node.weight] == ips;
          return Ok;
        }
      }
      ips := ips[node.address := node.weight];
      BalanceHashRing();
      code := Ok;
    }

    method Del(node: VirtualNode) returns (code: Code)
      requires Valid()
      modifies this
      ensures Valid() && code == Ok && ips == old(ips) - {node.address}
    {
      ips := ips - {node.address};
      BalanceHashRing();
      code := Ok;
    }

    /** The first position from h on. */
    method LowerBound(h: nat) returns (found: Option<nat>)
      ensures found.Some? ==> found.value in ring && found.value >= h
      ensures forall q :: q in ring && q >= h ==> found.Some? && found.value <= q
    {
      found := None;
      var rest := ring.Keys;
      while rest != {}
        invariant rest <= ring.Keys && (found.Some? ==> found.value in ring && found.value >= h)
        invariant forall q :: q in ring && q >= h && q !in rest ==> found.Some? && found.value <= q
        decreases |rest|
      {
        var q :| q in rest;
        if q >= h && (found == None || q < found.value) {
          found := Some(q);
        }
        rest := rest - {q};
      }
    }

    /** The node responsible for the key. */
    method Get(key: string) returns (code: Code, node: VirtualNode)
      ensures code == if ring == map[] then RingEmpty else Ok
      ensures code == Ok ==> Owns(ring, hash(key), node)
      ensures code == Ok ==> exists p :: (p in ring && node == ring[p]
        && (p >= hash(key) || forall q :: q in ring ==> p <= q)
        && forall q :: q in ring && q >= hash(key) ==> hash(key) <= p <= q)
    {
      node := VirtualNode(Address(0, 0), 0);
      if ring == map[] { return RingEmpty, node; }
      var h := hash(key);
      var it := LowerBound(h);
      if it == None {
        it := LowerBound(0);
        assert it.Some? by { assert exists q :: q in ring && q >= 0; }
      }
      node := ring[it.value];
      assert Next(ring.Keys, h, it.value);
      code := Ok;
    }

    /** Builds the ring anew, whatever the order in which the addresses are gone through. */
    method BalanceHashRing()
      modifies this`ring
      ensures Valid()
      ensures forall p :: p in ring ==> ring[p].address in ips && ring[p].weight == ips[ring[p].address]
      ensures forall p :: p in ring ==> exists v: nat :: v < ring[p].weight && place(ring[p].address, v) == p
      ensures forall a: Address, v: nat :: a in ips && v < ips[a] ==> place(a, v) in ring
      ensures forall a: Address, v: nat :: a in ips && v < ips[a] ==> ring[place(a, v)].weight >= ips[a]
      ensures forall a: Address, v: nat {:trigger place(a, v)} :: a in ips && v < ips[a] ==>
        var n := ring[place(a, v)]; n.weight == ips[a] ==> n.address.ip >= a.ip
      ensures forall a: Address, v: nat {:trigger place(a, v)} :: a in ips && v < ips[a] ==>
        var n := ring[place(a, v)]; n.weight == ips[a] ==> n.address.ip == a.ip ==> n.address.port >= a.port
    {
      hide Held;
      ring := map[];
      var rest := ips.Keys;
      ghost var counts: map<Address, nat> := map a | a in ips :: 0;
      Nothing(place, ips);
      while rest != {}
        invariant rest <= ips.Keys == counts.Keys && Held(place, ips, counts, ring)
        invariant forall a :: a in ips ==> counts[a] == if a in rest then 0 else ips[a]
        decreases |rest|
      {
        var a :| a in rest;
        rest := rest - {a};
        var virtualNum := 0;
        while virtualNum < ips[a]
          invariant 0 <= virtualNum <= ips[a] && counts.Keys == ips.Keys && Held(place, ips, counts, ring)
          invariant forall b :: b in ips ==>
            counts[b] == if b == a then virtualNum else if b in rest then 0 else ips[b]
        {
          var hashKey, newNode := place(a, virtualNum), VirtualNode(a, ips[a]);
          ghost var was := ring;
          if hashKey in ring {
            if CheckIfReplace(newNode, ring[hashKey]) {
              ring := ring[hashKey := newNode];
            }
          } else {
            ring := ring[hashKey := newNode];
          }
          Placed(place, ips, counts, was, a, virtualNum, ring);
          counts := counts[a := virtualNum + 1];
          virtualNum := virtualNum + 1;
        }
      }
      assert counts == ips;
      RingHolds(place, ips, ring);
    }
  }
}
