/** The skip list of base/skip_list.h: a sorted chain of nodes with shortcuts on up to 20 levels. */
module SkipList {

  import opened Range

  const MAX_HEIGHT: nat := 20

  datatype Code = Ok | Exist | NotFound | NotInit

  datatype Entry = Entry(key: Elem, value: int)

  // --- heights along the chain: position 0 is the head

  /** The next position after i that reaches level l, or the end of the chain. */
  function After(h: seq<nat>, i: nat, l: nat): (a: nat)
    requires i < |h|
    ensures i < a <= |h|
    decreases |h| - i
  {
    if i + 1 == |h| then |h| else if h[i + 1] > l then i + 1 else After(h, i + 1, l)
  }

  /** The last position before k that reaches level l. */
  function Before(h: seq<nat>, k: nat, l: nat): (b: nat)
    requires 0 < k <= |h| && h[0] > l
    ensures b < k && h[b] > l
    decreases k
  {
    if k == 1 || h[k - 1] > l then k - 1 else Before(h, k - 1, l)
  }

  lemma {:induction false} AfterIs(h: seq<nat>, i: nat, l: nat)
    requires i < |h|
    ensures var a := After(h, i, l); i < a <= |h| && (a < |h| ==> h[a] > l) && forall j :: i < j < a ==> h[j] <= l
    decreases |h| - i
  {
    if i + 1 < |h| && h[i + 1] <= l { AfterIs(h, i + 1, l); }
  }

  lemma AfterOnly(h: seq<nat>, i: nat, l: nat, a: nat)
    requires i < a <= |h| && (a < |h| ==> h[a] > l) && forall j :: i < j < a ==> h[j] <= l
    ensures After(h, i, l) == a
  {
    AfterIs(h, i, l);
  }

  lemma {:induction false} BeforeIs(h: seq<nat>, k: nat, l: nat)
    requires 0 < k <= |h| && h[0] > l
    ensures var b := Before(h, k, l); b < k && h[b] > l && forall j :: b < j < k ==> h[j] <= l
    decreases k
  {
    if k > 1 && h[k - 1] <= l { BeforeIs(h, k - 1, l); }
  }

  /** The search at position p on level l either passes k or goes on to a position below k. */
  lemma Seen(h: seq<nat>, p: nat, k: nat, l: nat)
    requires p < k <= |h| && h[p] > l && h[0] > l
    ensures After(h, p, l) >= k <==> Before(h, k, l) == p
    ensures p < After(h, p, l) <= |h| && (After(h, p, l) < |h| ==> h[After(h, p, l)] > l)
  {
    AfterIs(h, p, l);
    BeforeIs(h, k, l);
  }

  function Insert<T>(s: seq<T>, k: nat, x: T): seq<T>
    requires k <= |s|
  {
    s[..k] + [x] + s[k..]
  }

  function Remove<T>(s: seq<T>, k: nat): seq<T>
    requires k < |s|
  {
    s[..k] + s[k + 1..]
  }

  lemma AfterInsert(h: seq<nat>, k: nat, height: nat, l: nat)
    requires 0 < k <= |h| && h[0] > l
    ensures After(Insert<nat>(h, k, height), k, l) == After(h, Before(h, k, l), l) + 1
    ensures height > l ==> After(Insert<nat>(h, k, height), Before(h, k, l), l) == k
    ensures height <= l ==> After(Insert<nat>(h, k, height), Before(h, k, l), l) == After(h, Before(h, k, l), l) + 1
    ensures After(h, Before(h, k, l), l) >= k
  {
    var h', b := Insert<nat>(h, k, height), Before(h, k, l);
    BeforeIs(h, k, l);
    AfterIs(h, b, l);
    var a := After(h, b, l);
    assert forall j: nat :: j < k ==> h'[j] == h[j];
    assert forall j: nat :: k < j < |h'| ==> h'[j] == h[j - 1];
    AfterOnly(h', k, l, a + 1);
    AfterOnly(h', b, l, if height > l then k else a + 1);
  }

  lemma AfterInsertElsewhere(h: seq<nat>, k: nat, height: nat, l: nat, i: nat)
    requires 0 < k <= |h| && i < |h| && h[0] > l && h[i] > l && i != Before(h, k, l)
    ensures i < k ==> After(Insert<nat>(h, k, height), i, l) == After(h, i, l) < k
    ensures i >= k ==> After(Insert<nat>(h, k, height), i + 1, l) == After(h, i, l) + 1
  {
    var h' := Insert<nat>(h, k, height);
    BeforeIs(h, k, l);
    AfterIs(h, i, l);
    assert forall j: nat :: j < k ==> h'[j] == h[j];
    assert forall j: nat :: k < j < |h'| ==> h'[j] == h[j - 1];
    if i < k {
      AfterOnly(h', i, l, After(h, i, l));
    } else {
      AfterOnly(h', i + 1, l, After(h, i, l) + 1);
    }
  }

  lemma AfterRemove(h: seq<nat>, k: nat, l: nat)
    requires 0 < k < |h| && h[0] > l
    ensures After(h, Before(h, k, l), l) >= k
    ensures h[k] > l ==> After(h, Before(h, k, l), l) == k
    ensures After(Remove<nat>(h, k), Before(h, k, l), l) == After(h, if h[k] > l then k else Before(h, k, l), l) - 1
    ensures h[k] <= l ==> After(h, Before(h, k, l), l) > k
  {
    var h', b := Remove<nat>(h, k), Before(h, k, l);
    BeforeIs(h, k, l);
    AfterIs(h, b, l);
    AfterIs(h, k, l);
    assert forall j: nat :: j < k ==> h'[j] == h[j];
    assert forall j: nat :: k <= j < |h'| ==> h'[j] == h[j + 1];
    AfterOnly(h', b, l, After(h, if h[k] > l then k else b, l) - 1);
  }

  lemma AfterRemoveElsewhere(h: seq<nat>, k: nat, l: nat, i: nat)
    requires 0 < k < |h| && i < |h| && h[0] > l && h[i] > l && i != Before(h, k, l) && i != k
    ensures i < k ==> After(Remove<nat>(h, k), i, l) == After(h, i, l) < k
    ensures i > k ==> After(Remove<nat>(h, k), i - 1, l) == After(h, i, l) - 1
  {
    var h' := Remove<nat>(h, k);
    BeforeIs(h, k, l);
    AfterIs(h, i, l);
    assert forall j: nat :: j < k ==> h'[j] == h[j];
    assert forall j: nat :: k <= j < |h'| ==> h'[j] == h[j + 1];
    if i < k {
      AfterOnly(h', i, l, After(h, i, l));
    } else {
      AfterOnly(h', i - 1, l, After(h, i, l) - 1);
    }
  }

  // --- the entries and the map they stand for

  predicate Increasing(items: seq<Entry>) {
    forall i, j :: 0 <= i < j < |items| ==> Less(items[i].key, items[j].key)
  }

  /** d maps the rank of each entry's key (equivalent keys have the same) to the entry, and nothing else. */
  ghost predicate Represents(d: map<real, Entry>, items: seq<Entry>) {
    && (forall i :: 0 <= i < |items| ==> items[i].key.rank in d && d[items[i].key.rank] == items[i])
    && (forall r :: r in d ==> exists i :: 0 <= i < |items| && items[i].key.rank == r)
  }

  /** The place where a key is or would be. */
  predicate Splits(items: seq<Entry>, k: nat, key: Elem) {
    && k <= |items|
    && (forall i :: 0 <= i < k ==> Less(items[i].key, key))
    && (forall i :: k <= i < |items| ==> !Less(items[i].key, key))
  }

  predicate Hit(items: seq<Entry>, k: nat, key: Elem) {
    k < |items| && items[k].key.rank == key.rank
  }

  lemma Looked(d: map<real, Entry>, items: seq<Entry>, k: nat, key: Elem)
    requires Increasing(items) && Represents(d, items) && Splits(items, k, key)
    ensures key.rank in d <==> Hit(items, k, key)
    ensures Hit(items, k, key) ==> d[key.rank] == items[k]
  {
    assert forall i :: k < i < |items| ==> Less(items[k].key, items[i].key);
  }

  lemma Inserted(d: map<real, Entry>, items: seq<Entry>, k: nat, e: Entry)
    requires Increasing(items) && Represents(d, items) && Splits(items, k, e.key) && !Hit(items, k, e.key)
    ensures Increasing(Insert(items, k, e)) && Represents(d[e.key.rank := e], Insert(items, k, e))
  {
    hide Insert;
    var items', d' := Insert(items, k, e), d[e.key.rank := e];
    InsertedAt(items, k, e);
    forall i, j | 0 <= i < j < |items'|
      ensures Less(items'[i].key, items'[j].key)
    {
      var i0, j0 := if i < k then i else i - 1, if j < k then j else j - 1;
      assert j != k ==> items'[j] == items[j0] && (j > k ==> !Less(items[j0].key, e.key));
      assert i != k ==> items'[i] == items[i0] && (i < k ==> Less(items[i0].key, e.key));
      assert j > k ==> Later(items, k, j0, e.key);
    }
    forall i | 0 <= i < |items'|
      ensures items'[i].key.rank in d' && d'[items'[i].key.rank] == items'[i]
    {
      var i0 := if i < k then i else i - 1;
      assert i != k ==> items'[i] == items[i0];
      assert i > k ==> Later(items, k, i0, e.key);
      assert i < k ==> Less(items[i0].key, e.key);
    }
    forall r | r in d'
      ensures exists i :: 0 <= i < |items'| && items'[i].key.rank == r
    {
      if r == e.key.rank {
        assert items'[k].key.rank == r;
      } else {
        var i :| 0 <= i < |items| && items[i].key.rank == r;
        assert items'[if i < k then i else i + 1] == items[i];
      }
    }
  }

  /** The entry at i is strictly behind `key`. */
  predicate Later(items: seq<Entry>, k: nat, i: nat, key: Elem)
    requires Increasing(items) && Splits(items, k, key) && k <= i < |items| && !Hit(items, k, key)
    ensures Less(key, items[i].key)
  {
    assert i > k ==> Less(items[k].key, items[i].key);
    true
  }

  lemma InsertedAt<T>(s: seq<T>, k: nat, x: T)
    requires k <= |s|
    ensures |Insert(s, k, x)| == |s| + 1 && Insert(s, k, x)[k] == x
    ensures forall i :: 0 <= i < |s| + 1 && i != k ==> Insert(s, k, x)[i] == s[if i < k then i else i - 1]
  {}

  /** A height above 1 is that of a node behind the head. */
  ghost predicate Tallest(h: seq<nat>, maxHeight: nat) {
    maxHeight > 1 ==> exists i :: 0 < i < |h| && h[i] == maxHeight
  }

  lemma TallestAfter(h: seq<nat>, k: nat, x: nat, maxHeight: nat)
    requires 0 < k <= |h|
    ensures Tallest(h, maxHeight) ==> Tallest(Insert<nat>(h, k, x), if maxHeight < x then x else maxHeight)
  {
    InsertedAt<nat>(h, k, x);
    if maxHeight >= x && maxHeight > 1 && Tallest(h, maxHeight) {
      var i :| 0 < i < |h| && h[i] == maxHeight;
      assert Insert<nat>(h, k, x)[if i < k then i else i + 1] == maxHeight;
    }
  }

  lemma RemovedAt<T>(s: seq<T>, k: nat)
    requires k < |s|
    ensures |Remove(s, k)| == |s| - 1
    ensures forall i :: 0 <= i < |s| - 1 ==> Remove(s, k)[i] == s[if i < k then i else i + 1]
  {}

  lemma StillIncreasing(items: seq<Entry>, k: nat)
    requires Increasing(items) && k < |items|
    ensures Increasing(Remove(items, k))
  {
    hide Remove;
    var items' := Remove(items, k);
    RemovedAt(items, k);
    forall i, j | 0 <= i < j < |items'|
      ensures Less(items'[i].key, items'[j].key)
    {
      var i0, j0 := if i < k then i else i + 1, if j < k then j else j + 1;
      assert items'[j] == items[j0] && items'[i] == items[i0];
    }
  }

  lemma Differ(items: seq<Entry>, i: nat, k: nat)
    requires Increasing(items) && i < |items| && k < |items| && i != k
    ensures items[i].key.rank != items[k].key.rank
  {
    assert if i < k then Less(items[i].key, items[k].key) else Less(items[k].key, items[i].key);
  }

  lemma Removed(d: map<real, Entry>, items: seq<Entry>, k: nat)
    requires Increasing(items) && Represents(d, items) && k < |items|
    ensures Increasing(Remove(items, k)) && Represents(d - {items[k].key.rank}, Remove(items, k))
  {
    hide Remove, Increasing;
    StillIncreasing(items, k);
    var items', r0 := Remove(items, k), items[k].key.rank;
    RemovedAt(items, k);
    forall i | 0 <= i < |items'|
      ensures items'[i].key.rank in d && items'[i].key.rank != r0 && d[items'[i].key.rank] == items'[i]
    {
      var i0 := if i < k then i else i + 1;
      assert items'[i] == items[i0];
      Differ(items, i0, k);
    }
    forall r | r in d && r != r0
      ensures exists i :: 0 <= i < |items'| && items'[i].key.rank == r
    {
      var i :| 0 <= i < |items| && items[i].key.rank == r;
      assert items'[if i < k then i else i - 1] == items[i];
    }
  }

  lemma PlaceOf(items: seq<Entry>, key: Elem) returns (k: nat)
    requires Increasing(items)
    ensures Splits(items, k, key)
    decreases |items|
  {
    k := 0;
    while k < |items| && Less(items[k].key, key)
      invariant k <= |items| && forall i :: 0 <= i < k ==> Less(items[i].key, key)
    {
      k := k + 1;
    }
  }

  // --- nodes

  class SkipNode {
    const key: Elem
    const value: int
    var height: nat
    var next: seq<SkipNode?>

    constructor (key: Elem, value: int, height: nat, slots: nat)
      ensures this.key == key && this.value == value && this.height == height
      ensures next == seq(slots, _ => null)
    {
      this.key, this.value, this.height := key, value, height;
      next := seq(slots, _ => null);
    }

    constructor Head(height: nat)
      ensures this.height == height && next == seq(MAX_HEIGHT, _ => null)
    {
      this.height := height;
      next := seq(MAX_HEIGHT, _ => null);
    }

    /** Puts `node` behind this one on level l. */
    method Link(l: nat, node: SkipNode?)
      requires l < |next|
      modifies this`next
      ensures next == old(next)[l := node]
    {
      next := next[l := node];
    }
  }

  ghost function Target(order: seq<SkipNode>, a: nat): SkipNode? {
    if a < |order| then order[a] else null
  }

  /** The links of every node: on each level it reaches, the next node that reaches the level. */
  ghost predicate Wired(order: seq<SkipNode>, h: seq<nat>, nexts: seq<seq<SkipNode?>>) {
    && |order| == |h| == |nexts|
    && (forall i :: 0 <= i < |h| ==> |nexts[i]| == h[i])
    && (forall i: nat, l: nat {:trigger nexts[i][l]} :: i < |h| && l < h[i] ==>
          nexts[i][l] == Target(order, After(h, i, l)))
  }

  /** The links while a node is put in at k: done on the levels from lo. */
  ghost predicate Spliced(h: seq<nat>, was: seq<seq<SkipNode?>>, nexts: seq<seq<SkipNode?>>,
                          k: nat, node: SkipNode, links: seq<SkipNode?>, lo: nat)
    requires 0 < k <= |h| && h[0] == MAX_HEIGHT && |links| <= MAX_HEIGHT
  {
    && |was| == |nexts| == |h|
    && (forall i :: 0 <= i < |h| ==> |was[i]| == |nexts[i]| == h[i])
    && (forall i: nat, l: nat {:trigger nexts[i][l]} {:trigger was[i][l]} :: i < |h| && l < h[i] ==>
          nexts[i][l] == if lo <= l < |links| && i == Before(h, k, l) then node else was[i][l])
    && (forall l: nat :: lo <= l < |links| ==> links[l] == was[Before(h, k, l)][l])
  }

  lemma SplicedStep(h: seq<nat>, was: seq<seq<SkipNode?>>, nexts: seq<seq<SkipNode?>>,
                    k: nat, node: SkipNode, links: seq<SkipNode?>, l: nat)
    requires 0 < k <= |h| && h[0] == MAX_HEIGHT && l < |links| <= MAX_HEIGHT
    requires Spliced(h, was, nexts, k, node, links, l + 1)
    ensures |nexts| == |h| && |nexts[Before(h, k, l)]| == h[Before(h, k, l)]
    ensures var b := Before(h, k, l);
      Spliced(h, was, nexts[b := nexts[b][l := node]], k, node, links[l := nexts[b][l]], l)
  {
    hide Before;
  }

  lemma SplicedAt(order: seq<SkipNode>, h: seq<nat>, was: seq<seq<SkipNode?>>, nexts: seq<seq<SkipNode?>>,
                  k: nat, node: SkipNode, links: seq<SkipNode?>, i: nat, l: nat)
    requires Wired(order, h, was) && 0 < k <= |h| && h[0] == MAX_HEIGHT && |links| <= MAX_HEIGHT
    requires forall j :: 0 <= j < |h| ==> h[j] <= MAX_HEIGHT
    requires Spliced(h, was, nexts, k, node, links, 0) && i <= |h| && l < Insert<nat>(h, k, |links|)[i]
    ensures |Insert(nexts, k, links)| == |h| + 1 && l < |Insert(nexts, k, links)[i]|
    ensures Insert(nexts, k, links)[i][l] == Target(Insert(order, k, node), After(Insert<nat>(h, k, |links|), i, l))
  {
    hide After, Before, Insert, Target;
    InsertedAt<nat>(h, k, |links|);
    InsertedAt(nexts, k, links);
    BeforeIs(h, k, l);
    AfterInsert(h, k, |links|, l);
    var b := Before(h, k, l);
    TargetInserted(order, k, node, After(Insert<nat>(h, k, |links|), i, l));
    if i == k {
      assert links[l] == was[b][l] == Target(order, After(h, b, l));
    } else {
      var was_i := if i < k then i else i - 1;
      assert nexts[was_i][l] == if l < |links| && was_i == b then node else was[was_i][l];
      if was_i != b { AfterInsertElsewhere(h, k, |links|, l, was_i); }
      assert was[was_i][l] == Target(order, After(h, was_i, l));
    }
  }

  lemma TargetInserted(order: seq<SkipNode>, k: nat, node: SkipNode, a: nat)
    requires k <= |order|
    ensures Target(Insert(order, k, node), a) ==
      if a < k then Target(order, a) else if a == k then node else Target(order, a - 1)
  {
  }

  lemma SplicedWires(order: seq<SkipNode>, h: seq<nat>, was: seq<seq<SkipNode?>>,
                     nexts: seq<seq<SkipNode?>>, k: nat, node: SkipNode, links: seq<SkipNode?>)
    requires Wired(order, h, was) && 0 < k <= |h| && h[0] == MAX_HEIGHT && |links| <= MAX_HEIGHT
    requires forall i :: 0 <= i < |h| ==> h[i] <= MAX_HEIGHT
    requires Spliced(h, was, nexts, k, node, links, 0)
    ensures Wired(Insert(order, k, node), Insert<nat>(h, k, |links|), Insert(nexts, k, links))
  {
    hide After, Before;
    var order', h', nexts' := Insert(order, k, node), Insert<nat>(h, k, |links|), Insert(nexts, k, links);
    forall i: nat, l: nat | i < |h'| && l < h'[i]
      ensures l < |nexts'[i]| && nexts'[i][l] == Target(order', After(h', i, l))
    {
      SplicedAt(order, h, was, nexts, k, node, links, i, l);
    }
  }

  /** The links while the node at k is bypassed: done on the levels from lo. */
  ghost predicate Bypassed(h: seq<nat>, was: seq<seq<SkipNode?>>, nexts: seq<seq<SkipNode?>>, k: nat, lo: nat)
    requires 0 < k < |h| && h[0] == MAX_HEIGHT >= h[k]
  {
    && |was| == |nexts| == |h|
    && (forall i :: 0 <= i < |h| ==> |was[i]| == |nexts[i]| == h[i])
    && (forall i: nat, l: nat {:trigger nexts[i][l]} {:trigger was[i][l]} :: i < |h| && l < h[i] ==>
          nexts[i][l] == if lo <= l < h[k] && i == Before(h, k, l) then was[k][l] else was[i][l])
  }

  lemma BypassedStep(h: seq<nat>, was: seq<seq<SkipNode?>>, nexts: seq<seq<SkipNode?>>, k: nat, l: nat)
    requires 0 < k < |h| && h[0] == MAX_HEIGHT >= h[k] > l
    requires Bypassed(h, was, nexts, k, l + 1)
    ensures |nexts| == |h| && |nexts[Before(h, k, l)]| == h[Before(h, k, l)] && |nexts[k]| == h[k]
    ensures var b := Before(h, k, l);
      Bypassed(h, was, nexts[b := nexts[b][l := nexts[k][l]]], k, l)
  {
    hide Before;
  }

  lemma BypassedWires(order: seq<SkipNode>, h: seq<nat>, was: seq<seq<SkipNode?>>,
                         nexts: seq<seq<SkipNode?>>, k: nat)
    requires Wired(order, h, was) && 0 < k < |h| && h[0] == MAX_HEIGHT
    requires forall i :: 0 <= i < |h| ==> h[i] <= MAX_HEIGHT
    requires Bypassed(h, was, nexts, k, 0)
    ensures Wired(Remove(order, k), Remove<nat>(h, k), Remove(nexts, k))
  {
    hide After, Before;
    var order', h', nexts' := Remove(order, k), Remove<nat>(h, k), Remove(nexts, k);
    forall i: nat, l: nat | i < |h'| && l < h'[i]
      ensures nexts'[i][l] == Target(order', After(h', i, l))
    {
      BeforeIs(h, k, l);
      AfterRemove(h, k, l);
      var was_i := if i < k then i else i + 1;
      assert h'[i] == h[was_i] && nexts'[i] == nexts[was_i];
      if was_i != Before(h, k, l) { AfterRemoveElsewhere(h, k, l, was_i); }
    }
  }

  ghost predicate ShapeOf(order: seq<SkipNode>, h: seq<nat>, items: seq<Entry>, maxHeight: nat, nodes: set<SkipNode>)
    reads nodes
  {
    && |order| == |h| == |items| + 1 && h[0] == MAX_HEIGHT
    && (forall i :: 0 <= i < |order| ==> order[i] in nodes)
    && (forall i, j :: 0 <= i < j < |order| ==> order[i] != order[j])
    && (forall i :: 0 < i < |order| ==> 1 <= h[i] <= maxHeight && order[i].height == h[i])
    && (forall i :: 0 < i < |order| ==> items[i - 1] == Entry(order[i].key, order[i].value))
    && 1 <= maxHeight <= MAX_HEIGHT && order[0].height == maxHeight
  }

  lemma ShapeInsert(order: seq<SkipNode>, h: seq<nat>, items: seq<Entry>, maxHeight: nat, nodes: set<SkipNode>,
                    k: nat, node: SkipNode)
    requires ShapeOf(order, h, items, maxHeight, nodes) && 0 < k <= |order| && node !in nodes
    requires 0 < node.height <= maxHeight
    ensures ShapeOf(Insert(order, k, node), Insert<nat>(h, k, node.height),
      Insert(items, k - 1, Entry(node.key, node.value)),
                    maxHeight, nodes + {node})
    ensures Insert(order, k, node)[0] == order[0]
  {
    hide Insert;
    InsertedAt(order, k, node);
    InsertedAt(h, k, node.height);
    InsertedAt(items, k - 1, Entry(node.key, node.value));
  }

  lemma ShapeRemove(order: seq<SkipNode>, h: seq<nat>, items: seq<Entry>, maxHeight: nat, nodes: set<SkipNode>, k: nat)
    requires ShapeOf(order, h, items, maxHeight, nodes) && 0 < k < |order|
    ensures ShapeOf(Remove(order, k), Remove<nat>(h, k), Remove(items, k - 1), maxHeight, nodes)
    ensures Remove(order, k)[0] == order[0]
  {
    hide Remove;
    RemovedAt(order, k);
    RemovedAt(h, k);
    RemovedAt(items, k - 1);
  }

  class SkipList {
    var head: SkipNode?
    var maxHeight: nat
    var isInit: bool

    // the nodes along level 0, the head first, with their heights; the entries behind the head;
    // the map they stand for
    ghost var order: seq<SkipNode>
    ghost var h: seq<nat>
    ghost var items: seq<Entry>
    ghost var dict: map<real, Entry>
    ghost var nodes: set<SkipNode>

    constructor ()
      ensures Valid() && !isInit && maxHeight == 1
    {
      head, maxHeight, isInit := null, 1, false;
      order, h, items, dict, nodes := [], [], [], map[], {};
    }

    method Init() returns (code: Code)
      requires Valid()
      modifies this
      ensures !old(isInit) ==> Tight()
      ensures Valid() && isInit && dict == map[] && code == Ok && maxHeight == old(maxHeight)
      ensures fresh(nodes)
    {
      var node := new SkipNode.Head(maxHeight);
      head, isInit := node, true;
      order, h, items, dict, nodes := [node], [MAX_HEIGHT], [], map[], {node};
      code := Ok;
    }

    /** The nodes on the chain are among those the list owns. */
    ghost predicate Owned()
      reads this
    {
      forall i :: 0 <= i < |order| ==> order[i] in nodes
    }

    ghost function Nexts(): (nexts: seq<seq<SkipNode?>>)
      requires Owned()
      reads this, nodes
      ensures |nexts| == |order| && forall i :: 0 <= i < |order| ==> nexts[i] == order[i].next
    {
      seq(|order|, i requires 0 <= i < |order| requires Owned() reads nodes, this => order[i].next)
    }

    ghost predicate Shape()
      reads this, nodes
    {
      Owned() && ShapeOf(order, h, items, maxHeight, nodes) && order[0] == head
    }

    ghost predicate Valid()
      reads this, nodes
    {
      && maxHeight >= 1
      && (!isInit ==> order == [] && dict == map[] && nodes == {} && maxHeight == 1)
      && (isInit ==> Shape() && Wired(order, h, Nexts()) && Increasing(items) && Represents(dict, items))
    }

    /** The levels reach exactly as high as the tallest node. */
    ghost predicate Tight()
      reads this
    {
      Tallest(h, maxHeight)
    }

    /** The facts of `Valid` about one link. */
    lemma LinkOf(p: nat, l: nat)
      requires Valid() && isInit && p < |h| && l < h[p]
      ensures |order| == |h| && |order[p].next| == h[p] && order[p].next[l] == Target(order, After(h, p, l))
      ensures h[0] == MAX_HEIGHT && |items| + 1 == |h|
    {
      hide After, Target, Increasing, Represents;
      assert Nexts()[p] == order[p].next;
    }

    /** What every list looks like: along the chain the keys ascend strictly and stand for the map, and on each of its
        levels a node, the head on all 20, is linked to the next one as high as that. */
    lemma Shortcuts(p: nat, l: nat)
      requires Valid() && isInit && p < |order| && l < if p == 0 then 20 else order[p].height
      ensures order[0] == head && |order[p].next| > l
      ensures order[p].next[l] == null ==> forall j :: p < j < |order| ==> order[j].height <= l
      ensures order[p].next[l] != null ==>
        exists a {:trigger order[a]} :: p < a < |order| && order[a] == order[p].next[l] && order[a].height > l
          && forall j :: p < j < a ==> order[j].height <= l
      ensures forall i, j :: 0 < i < j < |order| ==> order[i].key.rank < order[j].key.rank
      ensures forall i :: 0 < i < |order| ==>
        order[i].key.rank in dict && dict[order[i].key.rank] == Entry(order[i].key, order[i].value)
      ensures forall r :: r in dict ==> exists i :: 0 < i < |order| && order[i].key.rank == r
    {
      hide After, Represents, Increasing, Wired;
      Sizes();
      LinkOf(p, l);
      AfterIs(h, p, l);
      ItemsOf();
    }

    lemma ItemsOf()
      requires Valid() && isInit
      ensures forall i, j :: 0 < i < j < |order| ==> order[i].key.rank < order[j].key.rank
      ensures forall i :: 0 < i < |order| ==>
        order[i].key.rank in dict && dict[order[i].key.rank] == Entry(order[i].key, order[i].value)
      ensures forall r :: r in dict ==> exists i :: 0 < i < |order| && order[i].key.rank == r
    {
      hide Wired;
      Sizes();
      forall i | 0 < i < |order| ensures items[i - 1] == Entry(order[i].key, order[i].value) { }
      forall r | r in dict ensures exists i :: 0 < i < |order| && order[i].key.rank == r {
        var i :| 0 <= i < |items| && items[i].key.rank == r;
        assert order[i + 1].key.rank == r;
      }
    }

    lemma Sizes()
      requires Valid() && isInit
      ensures |order| == |h| == |items| + 1 && order[0] == head && h[0] == MAX_HEIGHT
      ensures 1 <= maxHeight <= MAX_HEIGHT && Increasing(items) && Represents(dict, items)
      ensures Owned() && Wired(order, h, Nexts()) && forall i :: 0 <= i < |h| ==> h[i] <= MAX_HEIGHT
      ensures forall i :: 0 < i < |h| ==> 1 <= h[i] <= maxHeight
    {}

    lemma KeyOf(a: nat)
      requires Valid() && isInit && 0 < a < |order|
      ensures a - 1 < |items| && items[a - 1].key == order[a].key && items[a - 1].value == order[a].value
    {
      hide Wired, Increasing, Represents, Nexts;
    }

    /** What a search for `key` finds from position p on level l, k being the place of the key. */
    lemma Ahead(key: Elem, k: nat, p: nat, l: nat)
      requires Valid() && isInit && 0 < k <= |order| && k <= |items| + 1 && Splits(items, k - 1, key)
      requires p < k && |order| == |h| && h[p] > l && l < MAX_HEIGHT == h[0]
      ensures |order[p].next| == h[p] && order[p].next[l] == Target(order, After(h, p, l))
      ensures After(h, p, l) >= k <==> Before(h, k, l) == p
      ensures After(h, p, l) < |order| ==> h[After(h, p, l)] > l && Found(key, k, After(h, p, l))
      ensures l == 0 ==> After(h, p, l) == p + 1
    {
      hide Valid;
      LinkOf(p, l);
      Seen(h, p, k, l);
      if l == 0 { NextOfLowest(p); }
      if After(h, p, l) < |order| { Compared(key, k, After(h, p, l)); }
    }

    lemma NextOfLowest(p: nat)
      requires Valid() && isInit && p < |h|
      ensures After(h, p, 0) == p + 1
    {
      hide Wired, Increasing, Represents, Nexts;
    }

    ghost predicate Found(key: Elem, k: nat, a: nat)
      requires 0 < k && 0 < a < |order|
      reads this
    {
      && (a < k <==> Less(order[a].key, key))
      && (a >= k && !Less(key, order[a].key) ==> a == k && Hit(items, k - 1, key))
      && (a == k && Hit(items, k - 1, key) ==> !Less(key, order[a].key))
    }

    lemma Compared(key: Elem, k: nat, a: nat)
      requires Valid() && isInit && 0 < k <= |items| + 1 && Splits(items, k - 1, key) && 0 < a < |order|
      ensures Found(key, k, a)
    {
      hide Wired, Represents, Nexts;
      KeyOf(a);
      if a > k {
        assert Less(items[k - 1].key, items[a - 1].key);
      }
    }

    method Get(key: Elem) returns (code: Code, value: int)
      requires Valid()
      ensures code == (if !isInit then NotInit else if key.rank in dict then Ok else NotFound)
      ensures code == Ok ==> value == dict[key.rank].value
    {
      hide Valid, Increasing, Represents, Before, After, Splits;
      value := 0;
      if !isInit { return NotInit, value; }
      Sizes();
      var level: int := maxHeight - 1;
      var cur := head;
      ghost var place := PlaceOf(items, key);
      Looked(dict, items, place, key);
      ghost var k, p: nat := place + 1, 0;
      while level >= 0
        invariant Valid() && -1 <= level < maxHeight && p < k <= |order| && cur == order[p]
        invariant level >= 0 ==> h[p] > level
        invariant Splits(items, k - 1, key) && (level < 0 ==> !Hit(items, k - 1, key))
        decreases level + 1, k - p
      {
        Ahead(key, k, p, level);
        var next := cur.next[level];
        if next == null || Less(key, next.key) {
          level := level - 1;
        } else if !Less(next.key, key) {
          KeyOf(k);
          return Ok, next.value;
        } else {
          cur, p := next, After(h, p, level);
        }
      }
      code := NotFound;
    }

    ghost predicate PrevsFrom(prevs: array<SkipNode?>, k: nat, lo: int)
      requires 0 < k <= |h| == |order| && h[0] == MAX_HEIGHT >= maxHeight && prevs.Length == MAX_HEIGHT
      reads this, prevs
    {
      forall l: nat :: lo <= l < maxHeight ==> prevs[l] == order[Before(h, k, l)]
    }

    /** The search of `Put`. */
    method SeekNew(key: Elem, ghost k: nat) returns (exist: bool, prevs: array<SkipNode?>)
      requires Valid() && isInit && 0 < k <= |order| == |h| == |items| + 1 && Splits(items, k - 1, key)
      requires h[0] == MAX_HEIGHT >= maxHeight
      ensures fresh(prevs) && prevs.Length == MAX_HEIGHT && exist == Hit(items, k - 1, key)
      ensures !exist ==> PrevsFrom(prevs, k, 0)
    {
      hide Valid, Before, After, Splits;
      exist := false;
      Sizes();
      var level: int := maxHeight - 1;
      var cur := head;
      ghost var p: nat := 0;
      prevs := new SkipNode?[MAX_HEIGHT](_ => null);
      while level >= 0
        invariant Valid() && -1 <= level < maxHeight && p < k && cur == order[p] && fresh(prevs)
        invariant level >= 0 ==> h[p] > level
        invariant PrevsFrom(prevs, k, level + 1) && (level < 0 ==> !Hit(items, k - 1, key))
        decreases level + 1, k - p
      {
        Ahead(key, k, p, level);
        var next := cur.next[level];
        if next == null || Less(key, next.key) {
          prevs[level] := cur;
          level := level - 1;
        } else if !Less(next.key, key) {
          return true, prevs;
        } else {
          cur, p := next, After(h, p, level);
        }
      }
    }

    /** The search of `Del`. */
    method SeekOld(key: Elem, ghost k: nat) returns (prevs: array<SkipNode?>)
      requires Valid() && isInit && 0 < k <= |order| == |h| == |items| + 1 && Splits(items, k - 1, key)
      requires h[0] == MAX_HEIGHT >= maxHeight
      ensures fresh(prevs) && prevs.Length == MAX_HEIGHT && PrevsFrom(prevs, k, 0)
    {
      hide Valid, Before, After, Splits;
      Sizes();
      var level: int := maxHeight - 1;
      var cur := head;
      ghost var p: nat := 0;
      prevs := new SkipNode?[MAX_HEIGHT](_ => null);
      while level >= 0
        invariant Valid() && -1 <= level < maxHeight && p < k && cur == order[p] && fresh(prevs)
        invariant level >= 0 ==> h[p] > level
        invariant PrevsFrom(prevs, k, level + 1)
        decreases level + 1, k - p
      {
        Ahead(key, k, p, level);
        var next := cur.next[level];
        if next == null || !Less(next.key, key) {
          prevs[level] := cur;
          level := level - 1;
        } else {
          cur, p := next, After(h, p, level);
        }
      }
    }

    /** Links the node at b to `target` on level l. */
    method LinkAt(prev: SkipNode, ghost b: nat, l: nat, target: SkipNode?)
      requires Shape() && b < |order| && order[b] == prev && l < |prev.next|
      modifies prev`next
      ensures Shape() && prev.next == old(prev.next)[l := target]
      ensures Nexts() == old(Nexts())[b := old(prev.next)[l := target]]
    {
      prev.Link(l, target);
    }

    /** Puts `node` in on level l behind `prev`; `behind` is what was there. */
    method SpliceAt(prev: SkipNode, node: SkipNode, l: nat, behind: SkipNode?, ghost k: nat,
                    ghost was: seq<seq<SkipNode?>>)
      requires Shape() && node !in nodes && l < |node.next| <= MAX_HEIGHT && 0 < k <= |order|
      requires h[0] == MAX_HEIGHT && Spliced(h, was, Nexts(), k, node, node.next, l + 1)
      requires prev == order[Before(h, k, l)] && l < |prev.next| && behind == prev.next[l]
      modifies prev`next, node`next
      ensures Shape() && |node.next| == old(|node.next|)
      ensures Spliced(h, was, Nexts(), k, node, node.next, l)
    {
      hide Spliced, Before;
      SplicedStep(h, was, Nexts(), k, node, node.next, l);
      node.Link(l, behind);
      LinkAt(prev, Before(h, k, l), l, node);
    }

    /** Above the tallest node the head is linked to nothing. */
    lemma TopLevel(k: nat, l: nat)
      requires Valid() && isInit && 0 < k <= |order| == |h| && maxHeight <= l < MAX_HEIGHT == h[0]
      ensures Before(h, k, l) == 0 && |order[0].next| == MAX_HEIGHT && order[0].next[l] == null
    {
      hide Represents, Increasing, Wired;
      BeforeIs(h, k, l);
      LinkOf(0, l);
      AfterIs(h, 0, l);
    }

    /** From level `top` up the head was linked to nothing and is what precedes k. */
    ghost predicate TopFree(k: nat, was: seq<seq<SkipNode?>>, top: nat)
      requires 0 < k <= |h| && h[0] == MAX_HEIGHT
      reads this
    {
      && 0 < |was| && |was[0]| == MAX_HEIGHT
      && forall l: nat :: top <= l < MAX_HEIGHT ==> Before(h, k, l) == 0 && was[0][l] == null
    }

    lemma TopsFree(k: nat)
      requires Valid() && isInit && 0 < k <= |order| == |h| && MAX_HEIGHT == h[0]
      ensures Owned() && TopFree(k, Nexts(), maxHeight)
    {
      hide Represents, Increasing, Wired, Before;
      var was := Nexts();
      LinkOf(0, 0);
      assert was[0] == order[0].next;
      forall l: nat | maxHeight <= l < MAX_HEIGHT
        ensures Before(h, k, l) == 0 && was[0][l] == null
      {
        TopLevel(k, l);
      }
    }

    lemma NothingSpliced(k: nat, node: SkipNode)
      requires Valid() && isInit && 0 < k <= |order| == |h| && h[0] == MAX_HEIGHT && |node.next| <= MAX_HEIGHT
      ensures Shape() && Spliced(h, Nexts(), Nexts(), k, node, node.next, |node.next|)
    {
      hide Represents, Increasing, Before, After, Target;
    }

    lemma SplicedLink(k: nat, node: SkipNode, was: seq<seq<SkipNode?>>, b: nat, l: nat)
      requires Shape() && 0 < k <= |order| && b < |h| && l < h[b] <= MAX_HEIGHT == h[0] && |node.next| <= MAX_HEIGHT
      requires Spliced(h, was, Nexts(), k, node, node.next, l + 1)
      ensures |was| == |h| && |was[b]| == |order[b].next| == h[b] && order[b].next[l] == was[b][l]
    {
      hide Before;
      assert Nexts()[b][l] == order[b].next[l] == was[b][l];
    }

    /** Links the head to `node` on the levels it is the first to reach. */
    method SpliceTop(node: SkipNode, ghost k: nat, ghost was: seq<seq<SkipNode?>>)
      requires Shape() && node !in nodes && maxHeight < node.height == |node.next| <= MAX_HEIGHT && 0 < k <= |order|
      requires h[0] == MAX_HEIGHT && Spliced(h, was, Nexts(), k, node, node.next, node.height)
      requires TopFree(k, was, maxHeight)
      modifies head`next, node`next
      ensures Shape() && |node.next| == node.height && Spliced(h, was, Nexts(), k, node, node.next, maxHeight)
    {
      hide Spliced, Before;
      var i := node.height;
      while i > maxHeight
        invariant maxHeight <= i <= node.height == |node.next|
        invariant Shape() && Spliced(h, was, Nexts(), k, node, node.next, i)
      {
        i := i - 1;
        SplicedLink(k, node, was, 0, i);
        SpliceAt(head, node, i, null, k, was);
      }
    }

    /** Links `node` in on the levels below `tmp`. */
    method SpliceLow(node: SkipNode, prevs: array<SkipNode?>, tmp: nat, ghost k: nat, ghost was: seq<seq<SkipNode?>>)
      requires Shape() && node !in nodes && tmp <= node.height == |node.next| <= MAX_HEIGHT && 0 < k <= |order|
      requires h[0] == MAX_HEIGHT && Spliced(h, was, Nexts(), k, node, node.next, tmp)
      requires prevs.Length == MAX_HEIGHT && forall l: nat :: l < tmp ==> prevs[l] == order[Before(h, k, l)]
      modifies nodes, node`next
      ensures Shape() && |node.next| == node.height && Spliced(h, was, Nexts(), k, node, node.next, 0)
      ensures forall n :: n in nodes ==> n.height == old(n.height)
    {
      hide Spliced, Before;
      var i := tmp;
      while i > 0
        invariant 0 <= i <= tmp && |node.next| == node.height
        invariant Shape() && Spliced(h, was, Nexts(), k, node, node.next, i)
        invariant forall n :: n in nodes ==> n.height == old(n.height)
      {
        i := i - 1;
        var prev := prevs[i];
        SplicedLink(k, node, was, Before(h, k, i), i);
        SpliceAt(prev, node, i, prev.next[i], k, was);
      }
    }

    /** Puts a new node in at k on all its levels. */
    method Splice(node: SkipNode, prevs: array<SkipNode?>, ghost k: nat)
      requires Valid() && isInit && node !in nodes && node.next == seq(node.height, _ => null)
      requires 0 < node.height <= MAX_HEIGHT && 0 < k <= |order| == |h| && h[0] == MAX_HEIGHT >= maxHeight
      requires prevs.Length == MAX_HEIGHT && PrevsFrom(prevs, k, 0)
      modifies this`maxHeight, nodes, node`next
      ensures Shape() && maxHeight == (if old(maxHeight) < node.height then node.height else old(maxHeight))
      ensures |node.next| == node.height && Spliced(h, old(Nexts()), Nexts(), k, node, node.next, 0)
    {
      hide Spliced, Before, Wired, Represents, Increasing, TopFree;
      ghost var was := Nexts();
      NothingSpliced(k, node);
      TopsFree(k);
      var tmp := node.height;
      if maxHeight < node.height {
        SpliceTop(node, k, was);
        tmp := maxHeight;
        ghost var nexts := Nexts();
        maxHeight := node.height;
        head.height := maxHeight;
        assert Nexts() == nexts;
      }
      SpliceLow(node, prevs, tmp, k, was);
    }

    /** Records `node` at k; its links have been put in. */
    ghost method Record(node: SkipNode, k: nat, was: seq<seq<SkipNode?>>)
      requires Shape() && isInit && Increasing(items) && Represents(dict, items) && Wired(order, h, was)
      requires |order| == |h| == |items| + 1 && h[0] == MAX_HEIGHT
      requires node !in nodes && 0 < node.height == |node.next| <= maxHeight <= MAX_HEIGHT && 0 < k <= |order|
      requires Splits(items, k - 1, node.key) && !Hit(items, k - 1, node.key)
      requires forall i :: 0 <= i < |h| ==> h[i] <= MAX_HEIGHT
      requires Spliced(h, was, Nexts(), k, node, node.next, 0)
      modifies this`order, this`h, this`items, this`dict, this`nodes
      ensures Valid() && dict == old(dict)[node.key.rank := Entry(node.key, node.value)]
      ensures nodes == old(nodes) + {node} && h == Insert<nat>(old(h), k, node.height)
    {
      hide Spliced, Wired, Increasing, Represents, Splits, Insert, ShapeOf;
      ghost var e, nexts, height := Entry(node.key, node.value), Nexts(), node.height;
      SplicedWires(order, h, was, nexts, k, node, node.next);
      Inserted(dict, items, k - 1, e);
      ShapeInsert(order, h, items, maxHeight, nodes, k, node);
      InsertedAt(order, k, node);
      InsertedAt(nexts, k, node.next);
      order, h, items, dict, nodes :=
        Insert(order, k, node), Insert<nat>(h, k, height), Insert(items, k - 1, e),
        dict[node.key.rank := e], nodes + {node};
      assert Nexts() == Insert(nexts, k, node.next);
    }

    /** Adds an entry unless its key is there; `newHeight` is the random height of the new node. */
    method Put(key: Elem, value: int, newHeight: nat) returns (code: Code)
      requires Valid() && 1 <= newHeight <= MAX_HEIGHT
      modifies this, nodes
      ensures Valid() && fresh(nodes - old(nodes)) && isInit == old(isInit)
      ensures code == (if !isInit then NotInit else if key.rank in old(dict) then Exist else Ok)
      ensures dict == if code == Ok then old(dict)[key.rank := Entry(key, value)] else old(dict)
      ensures maxHeight == if code == Ok && old(maxHeight) < newHeight then newHeight else old(maxHeight)
      ensures old(Tight()) ==> Tight()
    {
      hide Valid, Shape, Spliced, Wired, Increasing, Represents, Splits, Before, Nexts, Tallest, Insert;
      if !isInit { return NotInit; }
      Sizes();
      ghost var place := PlaceOf(items, key);
      Looked(dict, items, place, key);
      ghost var k: nat, was := place + 1, Nexts();
      var exist, prevs := SeekNew(key, k);
      if exist { return Exist; }
      var node := new SkipNode(key, value, newHeight, newHeight);
      Splice(node, prevs, k);
      Record(node, k, was);
      InsertedAt(old(h), k, newHeight);
      TallestAfter(old(h), k, newHeight, old(maxHeight));
      code := Ok;
    }

    /** Links `prev` past the node at k on level l. */
    method BypassAt(prev: SkipNode, node: SkipNode, l: nat, ghost k: nat, ghost was: seq<seq<SkipNode?>>)
      requires Shape() && 0 < k < |order| && order[k] == node && l < h[k] <= MAX_HEIGHT == h[0]
      requires Bypassed(h, was, Nexts(), k, l + 1) && prev == order[Before(h, k, l)]
      modifies prev`next
      ensures Shape() && Bypassed(h, was, Nexts(), k, l)
    {
      hide Before;
      assert Nexts()[k] == node.next && Nexts()[Before(h, k, l)] == prev.next;
      BypassedStep(h, was, Nexts(), k, l);
      LinkAt(prev, Before(h, k, l), l, node.next[l]);
    }

    lemma NothingBypassed(k: nat)
      requires Valid() && isInit && 0 < k < |order| == |h| && h[0] == MAX_HEIGHT >= h[k]
      ensures Shape() && Bypassed(h, Nexts(), Nexts(), k, h[k]) && order[k].height == h[k] <= maxHeight
    {
      hide Represents, Increasing, Before, After, Target;
    }

    /** Links past the node at k on all its levels. */
    method Bypass(node: SkipNode, prevs: array<SkipNode?>, ghost k: nat)
      requires Valid() && isInit && 0 < k < |order| == |h| && order[k] == node
      requires h[k] <= maxHeight <= MAX_HEIGHT == h[0]
      requires prevs.Length == MAX_HEIGHT && PrevsFrom(prevs, k, 0)
      modifies nodes
      ensures Shape() && Bypassed(h, old(Nexts()), Nexts(), k, 0)
    {
      hide Bypassed, Before, Wired, Represents, Increasing, ShapeOf;
      ghost var was := Nexts();
      NothingBypassed(k);
      var i := node.height;
      while i > 0
        invariant 0 <= i <= h[k]
        invariant Shape() && Bypassed(h, was, Nexts(), k, i)
      {
        i := i - 1;
        var prev := prevs[i];
        BypassAt(prev, node, i, k, was);
      }
    }

    /** Forgets the node at k; it has been bypassed. */
    ghost method Forget(k: nat, was: seq<seq<SkipNode?>>)
      requires Shape() && isInit && Increasing(items) && Represents(dict, items) && Wired(order, h, was)
      requires |order| == |h| == |items| + 1 && h[0] == MAX_HEIGHT && 0 < k < |order| && maxHeight >= 1
      requires forall i :: 0 <= i < |h| ==> h[i] <= MAX_HEIGHT
      requires Bypassed(h, was, Nexts(), k, 0)
      modifies this`order, this`h, this`items, this`dict
      ensures Valid() && dict == old(dict) - {old(items)[k - 1].key.rank}
    {
      hide Bypassed, Wired, Increasing, Represents, Remove, ShapeOf;
      ghost var nexts := Nexts();
      BypassedWires(order, h, was, nexts, k);
      Removed(dict, items, k - 1);
      ShapeRemove(order, h, items, maxHeight, nodes, k);
      RemovedAt(order, k);
      RemovedAt(nexts, k);
      order, h, items, dict :=
        Remove(order, k), Remove<nat>(h, k), Remove(items, k - 1), dict - {items[k - 1].key.rank};
      assert Nexts() == Remove(nexts, k);
    }

    /** Where the head has no link no node reaches, and where it has one a node does. */
    lemma Reached(l: nat)
      requires Valid() && isInit && l < MAX_HEIGHT
      ensures Owned() && order != [] && order[0] == head && |head.next| == MAX_HEIGHT
      ensures if head.next[l] == null then forall i :: 0 < i < |h| ==> h[i] <= l
        else exists i :: 0 < i < |h| && h[i] > l
    {
      hide Represents, Increasing, Wired;
      LinkOf(0, l);
      AfterIs(h, 0, l);
    }

    /** Takes the empty levels off the top. */
    method Lower()
      requires Valid() && isInit
      modifies this`maxHeight, head`height
      ensures Valid() && Tight()
    {
      hide Represents, Increasing, Wired, After;
      Sizes();
      forall l: nat | l < MAX_HEIGHT
        ensures |head.next| == MAX_HEIGHT && head in nodes
        ensures if head.next[l] == null then forall i :: 0 < i < |h| ==> h[i] <= l
          else exists i :: 0 < i < |h| && h[i] > l
      {
        Reached(l);
      }
      var i := maxHeight - 1;
      while i >= 1 && head.next[i] == null
        invariant 0 <= i < maxHeight && head.height == i + 1
        invariant forall j :: 0 < j < |h| ==> h[j] <= i + 1
      {
        head.height := head.height - 1;
        i := i - 1;
      }
      maxHeight := head.height;
      assert Nexts() == old(Nexts());
    }

    /** Removes the entry with the key, if there is one. */
    method Del(key: Elem) returns (code: Code)
      requires Valid()
      modifies this, nodes
      ensures Valid() && nodes == old(nodes) && isInit == old(isInit)
      ensures code == (if !isInit then NotInit else if key.rank in old(dict) then Ok else NotFound)
      ensures dict == if code == Ok then old(dict) - {key.rank} else old(dict)
      ensures code == Ok ==> Tight()
      ensures code != Ok ==> maxHeight == old(maxHeight)
    {
      hide Valid, Shape, Bypassed, Wired, Increasing, Represents, Splits, Before, Nexts;
      if !isInit { return NotInit; }
      Sizes();
      ghost var place := PlaceOf(items, key);
      Looked(dict, items, place, key);
      ghost var k: nat, was := place + 1, Nexts();
      var prevs := SeekOld(key, k);
      Ahead(key, k, k - 1, 0);
      var node := prevs[0].next[0];
      if node == null || Less(key, node.key) { return NotFound; }
      KeyOf(k);
      Bypass(node, prevs, k);
      Forget(k, was);
      Lower();
      code := Ok;
    }
  }
}
