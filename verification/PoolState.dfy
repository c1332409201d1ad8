/** The memory that the pool allocator of mystl/my_default_stl_alloc.h manages, as
    a value: blocks that clients hold, blocks in the free lists, the pool, and a
    chunk that is being divided. */
module PoolState {

  const LISTS := 16

  /** The size in bytes of the blocks of free list k. */
  function Size(k: nat): nat { 8 * (k + 1) }

  function Read(mem: map<nat, nat>, p: nat): nat { if p in mem then mem[p] else 0 }

  /** heads, mem, start, end and size are the program's own data.  `blocks` gives
      every block's list, `live` the blocks that clients hold, `lists` what the
      free lists hold, and [loose, loose + length) is the chunk being divided. */
  datatype Heap = Heap(
    heads: seq<nat>, mem: map<nat, nat>, start: nat, end: nat, size: nat,
    blocks: map<nat, nat>, live: set<nat>, lists: seq<seq<nat>>, loose: nat, length: nat)

  /** Two areas without a common byte. */
  predicate Apart(p: nat, n: nat, q: nat, m: nat) { n == 0 || m == 0 || p + n <= q || q + m <= p }

  /** The area is apart from every block. */
  predicate OffBlocks(blocks: map<nat, nat>, p: nat, n: nat) {
    forall q :: q in blocks ==> Apart(q, Size(blocks[q]), p, n)
  }

  predicate Disjoint(blocks: map<nat, nat>) {
    forall p, q :: p in blocks && q in blocks && p != q ==> Apart(p, Size(blocks[p]), q, Size(blocks[q]))
  }

  /** The nodes of a linked list that starts at `head`. */
  predicate Chain(mem: map<nat, nat>, head: nat, nodes: seq<nat>)
    decreases |nodes|
  {
    if nodes == [] then head == 0 else head == nodes[0] > 0 && Chain(mem, Read(mem, head), nodes[1..])
  }

  /** The nodes of list k are blocks of its size that no client holds, each once. */
  predicate Free(blocks: map<nat, nat>, live: set<nat>, k: nat, nodes: seq<nat>) {
    && (forall p :: p in nodes ==> p in blocks && blocks[p] == k && p !in live)
    && (forall i, j :: 0 <= i < j < |nodes| ==> nodes[i] != nodes[j])
  }

  predicate ListsOk(h: Heap) {
    && |h.heads| == |h.lists| == LISTS
    && forall k :: 0 <= k < LISTS ==> Chain(h.mem, h.heads[k], h.lists[k]) && Free(h.blocks, h.live, k, h.lists[k])
  }

  /** No block is lost: one that no client holds is in the list of its size. */
  predicate Complete(h: Heap)
    requires |h.lists| == LISTS
  {
    && h.live <= h.blocks.Keys
    && forall p :: p in h.blocks ==> 0 < p && h.blocks[p] < LISTS && (p in h.live || p in h.lists[h.blocks[p]])
  }

  predicate AreasOk(h: Heap) {
    && h.start <= h.end && Disjoint(h.blocks)
    && OffBlocks(h.blocks, h.start, h.end - h.start) && OffBlocks(h.blocks, h.loose, h.length)
    && Apart(h.start, h.end - h.start, h.loose, h.length)
    && (h.start < h.end ==> 0 < h.start) && (h.length > 0 ==> 0 < h.loose)
  }

  ghost function Total(blocks: map<nat, nat>): nat
    decreases |blocks|
  {
    if blocks == map[] then 0
    else
      var p :| p in blocks;
      Size(blocks[p]) + Total(blocks - {p})
  }

  /** Every byte obtained is in a block, in the pool or in the chunk being divided. */
  ghost predicate Conserved(h: Heap) {
    h.start <= h.end && Total(h.blocks) + (h.end - h.start) + h.length == h.size
  }

  ghost predicate Valid(h: Heap) { ListsOk(h) && Complete(h) && AreasOk(h) && Conserved(h) }

  // ----- sums

  lemma {:induction false} TotalRemove(blocks: map<nat, nat>, p: nat)
    requires p in blocks
    ensures Total(blocks) == Size(blocks[p]) + Total(blocks - {p})
    decreases |blocks|
  {
    var q :| q in blocks && Total(blocks) == Size(blocks[q]) + Total(blocks - {q});
    if p != q {
      TotalRemove(blocks - {q}, p);
      TotalRemove(blocks - {p}, q);
      assert blocks - {q} - {p} == blocks - {p} - {q};
    }
  }

  lemma TotalAdd(blocks: map<nat, nat>, p: nat, k: nat)
    requires p !in blocks
    ensures Total(blocks[p := k]) == Total(blocks) + Size(k)
  {
    TotalRemove(blocks[p := k], p);
    assert blocks[p := k] - {p} == blocks;
  }

  // ----- lists

  lemma {:induction false} ChainKept(mem: map<nat, nat>, head: nat, nodes: seq<nat>, w: nat, v: nat)
    requires Chain(mem, head, nodes) && w !in nodes
    ensures Chain(mem[w := v], head, nodes)
    decreases |nodes|
  {
    if nodes != [] { ChainKept(mem, Read(mem, head), nodes[1..], w, v); }
  }

  /** A write to a word that is not the head word of a free block leaves all lists as they are. */
  function Write(h: Heap, w: nat, v: nat): Heap { h.(mem := h.mem[w := v]) }

  lemma WriteKeeps(h: Heap, w: nat, v: nat)
    requires Valid(h) && forall k :: 0 <= k < LISTS ==> w !in h.lists[k]
    ensures Valid(Write(h, w, v))
  {
    hide Chain, Free, Complete, AreasOk, Conserved;
    forall k | 0 <= k < LISTS ensures Chain(h.mem[w := v], h.heads[k], h.lists[k]) {
      ChainKept(h.mem, h.heads[k], h.lists[k], w, v);
    }
    WriteRest(h, w, v);
  }

  lemma WriteRest(h: Heap, w: nat, v: nat)
    requires |h.lists| == LISTS
    ensures Complete(Write(h, w, v)) == Complete(h) && AreasOk(Write(h, w, v)) == AreasOk(h)
    ensures Conserved(Write(h, w, v)) == Conserved(h)
  {
  }

  /** A word in a block that a client holds, in the pool or in the chunk being divided. */
  predicate Unlisted(h: Heap, w: nat) {
    || (h.start <= w < h.end)
    || (h.loose <= w < h.loose + h.length)
    || exists p :: p in h.live && p in h.blocks && p <= w < p + Size(h.blocks[p])
  }

  lemma ListedIsAlone(h: Heap, w: nat, k: nat)
    requires Valid(h) && k < LISTS && w in h.lists[k]
    ensures !Unlisted(h, w)
  {
    hide Chain, Total;
    assert Free(h.blocks, h.live, k, h.lists[k]);
    forall p | p in h.live && p in h.blocks ensures !(p <= w < p + Size(h.blocks[p])) {
      assert Apart(p, Size(h.blocks[p]), w, Size(h.blocks[w]));
    }
    assert Apart(w, Size(h.blocks[w]), h.start, h.end - h.start);
    assert Apart(w, Size(h.blocks[w]), h.loose, h.length);
  }

  lemma ListsLen(h: Heap)
    requires ListsOk(h)
    ensures |h.heads| == |h.lists| == LISTS
  {
  }

  lemma UnlistedIsSafe(h: Heap, w: nat)
    requires Valid(h) && Unlisted(h, w)
    ensures forall k :: 0 <= k < LISTS ==> w !in h.lists[k]
  {
    hide ListsOk, Complete, AreasOk, Conserved, Unlisted;
    ListsLen(h);
    forall k | 0 <= k < LISTS ensures w !in h.lists[k] {
      if w in h.lists[k] { ListedIsAlone(h, w, k); }
    }
  }

  // ----- the steps

  /** The first block of list k goes to a client. */
  function Take(h: Heap, k: nat): Heap
    requires k < |h.heads| == |h.lists| && h.lists[k] != []
  {
    var p := h.lists[k][0];
    h.(heads := h.heads[k := Read(h.mem, p)], lists := h.lists[k := h.lists[k][1..]], live := h.live + {p})
  }

  lemma TakeKeeps(h: Heap, k: nat)
    requires Valid(h) && k < LISTS && h.lists[k] != []
    ensures Valid(Take(h, k)) && h.heads[k] == h.lists[k][0] && h.lists[k][0] in h.blocks && h.lists[k][0] !in h.live
    ensures h.blocks[h.lists[k][0]] == k
  {
    hide Total, AreasOk;
    var g, p := Take(h, k), h.lists[k][0];
    assert Free(h.blocks, h.live, k, h.lists[k]) && p in h.lists[k];
    forall j | 0 <= j < LISTS
      ensures Chain(g.mem, g.heads[j], g.lists[j]) && Free(g.blocks, g.live, j, g.lists[j])
    {
      assert Chain(h.mem, h.heads[j], h.lists[j]) && Free(h.blocks, h.live, j, h.lists[j]);
      if j == k { TailFree(h.blocks, h.live, k, h.lists[k]); }
    }
    forall q | q in g.blocks ensures q in g.live || q in g.lists[g.blocks[q]] {
      if q !in h.live && h.blocks[q] == k && q != p {
        var i :| 0 <= i < |h.lists[k]| && h.lists[k][i] == q;
        assert h.lists[k][1..][i - 1] == q;
      }
    }
    AreasSame(h, g);
  }

  lemma TailFree(blocks: map<nat, nat>, live: set<nat>, k: nat, nodes: seq<nat>)
    requires Free(blocks, live, k, nodes) && nodes != []
    ensures Free(blocks, live + {nodes[0]}, k, nodes[1..])
  {
    forall p | p in nodes[1..] ensures p in nodes && p != nodes[0] {
      var i :| 0 <= i < |nodes[1..]| && nodes[1..][i] == p;
      assert nodes[i + 1] == p;
    }
  }

  lemma AreasSame(h: Heap, g: Heap)
    requires AreasOk(h) && g.blocks == h.blocks && g.start == h.start
    requires g.end == h.end && g.loose == h.loose && g.length == h.length
    ensures AreasOk(g)
  {
  }

  /** A block of list k that is in no list becomes the first of its list; its link
      word already leads to the next. */
  function Give(h: Heap, p: nat, k: nat): Heap
    requires k < |h.heads| == |h.lists|
  {
    h.(heads := h.heads[k := p], lists := h.lists[k := [p] + h.lists[k]], live := h.live - {p})
  }

  lemma GiveKeeps(h: Heap, p: nat, k: nat)
    requires Valid(h) && k < LISTS && p in h.live && p in h.blocks && h.blocks[p] == k
    requires Read(h.mem, p) == h.heads[k]
    ensures Valid(Give(h, p, k))
  {
    hide Total, AreasOk;
    var g := Give(h, p, k);
    forall j | 0 <= j < LISTS
      ensures Chain(g.mem, g.heads[j], g.lists[j]) && Free(g.blocks, g.live, j, g.lists[j])
    {
      assert Chain(h.mem, h.heads[j], h.lists[j]) && Free(h.blocks, h.live, j, h.lists[j]);
      if j == k { assert ([p] + h.lists[k])[1..] == h.lists[k]; }
    }
    AreasSame(h, g);
  }

  /** An area apart from everything becomes a block that a client holds. */
  function AddLive(h: Heap, p: nat, k: nat): Heap { h.(blocks := h.blocks[p := k], live := h.live + {p}) }

  /** The end of the chunk being divided becomes such a block. */
  function CutLoose(h: Heap, k: nat): Heap
    requires h.length >= Size(k)
  {
    AddLive(h.(length := h.length - Size(k)), h.loose + h.length - Size(k), k)
  }

  lemma BlocksAdd(blocks: map<nat, nat>, p: nat, k: nat)
    requires Disjoint(blocks) && OffBlocks(blocks, p, Size(k)) && 0 < p
    ensures p !in blocks && Disjoint(blocks[p := k])
  {
    assert p in blocks ==> Apart(p, Size(blocks[p]), p, Size(k));
  }

  lemma OffAdd(blocks: map<nat, nat>, p: nat, k: nat, q: nat, n: nat)
    requires OffBlocks(blocks, q, n) && Apart(p, Size(k), q, n)
    ensures OffBlocks(blocks[p := k], q, n)
  {
  }

  lemma OffPart(blocks: map<nat, nat>, q: nat, n: nat, q': nat, n': nat)
    requires OffBlocks(blocks, q, n) && q <= q' && q' + n' <= q + n
    ensures OffBlocks(blocks, q', n')
  {
  }

  lemma CutLooseKeeps(h: Heap, k: nat)
    requires Valid(h) && k < LISTS && h.length >= Size(k)
    ensures Valid(CutLoose(h, k)) && h.loose + h.length - Size(k) !in h.blocks
  {
    hide Total, Disjoint, OffBlocks, Chain;
    var p, g := h.loose + h.length - Size(k), CutLoose(h, k);
    OffPart(h.blocks, h.loose, h.length, p, Size(k));
    OffPart(h.blocks, h.loose, h.length, h.loose, h.length - Size(k));
    BlocksAdd(h.blocks, p, k);
    OffAdd(h.blocks, p, k, h.start, h.end - h.start);
    OffAdd(h.blocks, p, k, h.loose, h.length - Size(k));
    TotalAdd(h.blocks, p, k);
    AddLiveLists(h, p, k);
  }

  lemma AddLiveLists(h: Heap, p: nat, k: nat)
    requires ListsOk(h) && Complete(h) && p !in h.blocks && 0 < p && k < LISTS
    ensures ListsOk(AddLive(h, p, k)) && Complete(AddLive(h, p, k))
  {
    var g := AddLive(h, p, k);
    forall j | 0 <= j < LISTS
      ensures Chain(g.mem, g.heads[j], g.lists[j]) && Free(g.blocks, g.live, j, g.lists[j])
    {
      assert Chain(h.mem, h.heads[j], h.lists[j]) && Free(h.blocks, h.live, j, h.lists[j]);
    }
  }

  /** The first n bytes of the pool become the chunk to be divided. */
  function Cut(h: Heap, n: nat): Heap
    requires h.start + n <= h.end
  {
    h.(start := h.start + n, loose := h.start, length := n)
  }

  lemma CutKeeps(h: Heap, n: nat)
    requires Valid(h) && h.length == 0 && h.start + n <= h.end
    ensures Valid(Cut(h, n))
  {
    hide Total, Disjoint, OffBlocks, ListsOk, Chain;
    OffPart(h.blocks, h.start, h.end - h.start, h.start, n);
    OffPart(h.blocks, h.start, h.end - h.start, h.start + n, h.end - h.start - n);
    assert ListsOk(Cut(h, n)) by { ListsSame(h, Cut(h, n)); }
  }

  lemma ListsSame(h: Heap, g: Heap)
    requires ListsOk(h) && g.heads == h.heads && g.lists == h.lists
    requires g.mem == h.mem && g.blocks == h.blocks && g.live == h.live
    ensures ListsOk(g)
  {
  }

  /** The pool is empty and gets an area that is apart from everything. */
  function Grow(h: Heap, p: nat, n: nat): Heap { h.(start := p, end := p + n, size := h.size + n) }

  lemma GrowKeeps(h: Heap, p: nat, n: nat)
    requires Valid(h) && h.start == h.end && h.length == 0 && 0 < p && OffBlocks(h.blocks, p, n)
    ensures Valid(Grow(h, p, n))
  {
    hide Total, Disjoint, OffBlocks, ListsOk, Chain;
    assert ListsOk(Grow(h, p, n)) by { ListsSame(h, Grow(h, p, n)); }
    OffNothing(h.blocks, h.loose);
  }

  lemma OffNothing(blocks: map<nat, nat>, p: nat)
    ensures OffBlocks(blocks, p, 0)
  {
  }

  /** The pool is empty and gets a block that a client holds back. */
  function Reclaim(h: Heap, p: nat): Heap
    requires p in h.blocks
  {
    h.(start := p, end := p + Size(h.blocks[p]), blocks := h.blocks - {p}, live := h.live - {p})
  }

  lemma ReclaimKeeps(h: Heap, p: nat)
    requires Valid(h) && h.start == h.end && h.length == 0 && p in h.live && p in h.blocks
    ensures Valid(Reclaim(h, p))
  {
    hide Total, Chain;
    var g := Reclaim(h, p);
    TotalRemove(h.blocks, p);
    forall j | 0 <= j < LISTS
      ensures Chain(g.mem, g.heads[j], g.lists[j]) && Free(g.blocks, g.live, j, g.lists[j])
    {
      assert Chain(h.mem, h.heads[j], h.lists[j]) && Free(h.blocks, h.live, j, h.lists[j]);
    }
    forall q | q in g.blocks ensures Apart(q, Size(g.blocks[q]), p, Size(h.blocks[p])) {
      assert q in h.blocks && q != p;
    }
  }

  // ----- dividing a chunk into a block for the client and blocks for a list

  /** m times the size of the blocks of list k. */
  function Times(m: nat, k: nat): nat { if m == 0 then 0 else Times(m - 1, k) + Size(k) }

  /** The chunk's m blocks: the first goes to the client, the others to list k. */
  function Divide(h: Heap, k: nat, m: nat): Heap
    requires m > 0 && h.length == Times(m, k) && k < |h.heads| == |h.lists|
    decreases m
  {
    if m == 1 then CutLoose(h, k) else Divide(Give(CutLoose(h, k), h.loose + Times(m - 1, k), k), k, m - 1)
  }

  lemma DivideStep(h: Heap, k: nat, m: nat) returns (g: Heap)
    requires m > 1 && h.length == Times(m, k) && k < |h.heads| == |h.lists|
    ensures g.length == Times(m - 1, k) && g.loose == h.loose && |g.heads| == |g.lists| == |h.lists|
    ensures g.lists[k] == [h.loose + Times(m - 1, k)] + h.lists[k] && Divide(h, k, m) == Divide(g, k, m - 1)
  {
    hide Size;
    TimesLast(m, k);
    g := Give(CutLoose(h, k), h.loose + Times(m - 1, k), k);
  }

  lemma DivideOne(h: Heap, k: nat)
    requires h.length == Times(1, k) && k < |h.heads| == |h.lists|
    ensures Divide(h, k, 1).lists == h.lists
  {
    hide Size;
    TimesLast(1, k);
  }

  /** The blocks behind the first, in order, before what list k had. */
  lemma {:induction false} DivideLists(h: Heap, k: nat, m: nat)
    requires m > 0 && h.length == Times(m, k) && k < |h.heads| == |h.lists|
    ensures |Divide(h, k, m).lists| == |h.lists|
    ensures var l := Divide(h, k, m).lists[k];
      && |l| == m - 1 + |h.lists[k]| && (forall i :: 0 <= i < m - 1 ==> l[i] == h.loose + Times(i + 1, k))
      && (forall i :: m - 1 <= i < |l| ==> l[i] == h.lists[k][i - (m - 1)])
    decreases m
  {
    hide Times, Divide;
    if m > 1 {
      var g := DivideStep(h, k, m);
      DivideLists(g, k, m - 1);
    } else {
      DivideOne(h, k);
    }
  }

  lemma TimesLast(m: nat, k: nat)
    requires m > 0
    ensures Times(m, k) == Times(m - 1, k) + Size(k) && Times(0, k) == 0
  {}

  /** The links of blocks 1 to m - 1 are set: each to the next, the last to the list's old head. */
  predicate Linked(h: Heap, k: nat, m: nat)
    requires k < |h.heads|
  {
    && (forall j: nat :: 1 <= j < m - 1 ==> Read(h.mem, h.loose + Times(j, k)) == h.loose + Times(j + 1, k))
    && (m > 1 ==> Read(h.mem, h.loose + Times(m - 1, k)) == h.heads[k])
  }

  lemma LinkedLess(h: Heap, g: Heap, k: nat, m: nat)
    requires m > 1 && k < |h.heads| == |g.heads| && Linked(h, k, m) && g.mem == h.mem && g.loose == h.loose
    requires g.heads[k] == h.loose + Times(m - 1, k)
    ensures Linked(g, k, m - 1)
  {
    hide Read, Size;
  }

  /** The blocks of h are still there. */
  predicate Keeps(h: Heap, g: Heap) { forall p :: p in h.blocks ==> p in g.blocks && g.blocks[p] == h.blocks[p] }

  lemma {:induction false} DivideKeeps(h: Heap, k: nat, m: nat)
    requires Valid(h) && m > 0 && h.length == Times(m, k) && k < LISTS == |h.heads| == |h.lists| && Linked(h, k, m)
    ensures var g := Divide(h, k, m);
      && Valid(g) && g.mem == h.mem && g.start == h.start && g.end == h.end && g.size == h.size
      && g.loose == h.loose && g.length == 0
      && g.heads == (if m == 1 then h.heads else h.heads[k := h.loose + Size(k)])
      && g.live == h.live + {h.loose} && h.loose !in h.blocks && h.loose in g.blocks
      && g.blocks[h.loose] == k && Keeps(h, g)
    decreases m
  {
    hide Valid, Linked, Size;
    var p, c := h.loose + Times(m - 1, k), CutLoose(h, k);
    CutLooseKeeps(h, k);
    LiveIsBlock(h, p);
    if m > 1 {
      LinkedLast(h, k, m);
      GiveKeeps(c, p, k);
      var g := Give(c, p, k);
      LinkedLess(h, g, k, m);
      DivideKeeps(g, k, m - 1);
      assert g.live == h.live;
    }
  }

  lemma LinkedLast(h: Heap, k: nat, m: nat)
    requires m > 1 && k < |h.heads| && Linked(h, k, m)
    ensures Read(h.mem, h.loose + Times(m - 1, k)) == h.heads[k]
  {
  }

  lemma LiveIsBlock(h: Heap, p: nat)
    requires Valid(h)
    ensures p in h.live ==> p in h.blocks
  {
  }
}
