/** The pool allocator of mystl/my_default_stl_alloc.h. */
module PoolAlloc {
  import opened PoolState

  const ALIGN := 8
  const MAX_BYTES := 128
  const REFILL := 20

  function RoundUp(bytes: nat): nat { (bytes + 7) / 8 * 8 }

  function FreelistIndex(bytes: nat): nat
    requires bytes > 0
  {
    (bytes + 7) / 8 - 1
  }

  lemma IndexOf(bytes: nat)
    requires 0 < bytes <= MAX_BYTES
    ensures FreelistIndex(bytes) < LISTS && Size(FreelistIndex(bytes)) == RoundUp(bytes)
  {
  }

  lemma IndexOfSize(k: nat)
    ensures FreelistIndex(Size(k)) == k
  {
  }

  function BytesToGet(size: nat, nobjs: nat, heapSize: nat): nat { 2 * (size * nobjs) + RoundUp(heapSize / 16) }

  /** An area of n bytes: twice what is wanted and a sixteenth of what there is, in eights. */
  predicate Wanted(n: int, size: nat, nobjs: nat, heapSize: nat) {
    var more := n - 2 * (size * nobjs);
    more % 8 == 0 && heapSize / 16 <= more < heapSize / 16 + 8
  }

  lemma WantedIs(size: nat, nobjs: nat, heapSize: nat)
    ensures Wanted(BytesToGet(size, nobjs, heapSize), size, nobjs, heapSize)
    ensures BytesToGet(size, nobjs, heapSize) >= size * nobjs
  {}

  lemma Multiples(m: nat, k: nat, heapSize: nat)
    ensures Times(m, k) == Size(k) * m && Times(m, k) % 8 == 0
    ensures RoundUp(heapSize) % 8 == 0 && Size(k) % 8 == 0
  {
    hide RoundUp;
    if m > 0 {
      Multiples(m - 1, k, heapSize);
      assert Size(k) * m == Size(k) * (m - 1) + Size(k);
    }
    RoundUpMultiple(heapSize);
  }

  lemma Amounts(m: nat, k: nat, heapSize: nat)
    requires m > 0
    ensures Size(k) * m == Times(m, k) && Times(m, k) % 8 == 0 && Times(m, k) >= Size(k)
    ensures BytesToGet(Size(k), m, heapSize) % 8 == 0 && BytesToGet(Size(k), m, heapSize) >= Size(k)
  {
    hide RoundUp, Size;
    Multiples(m, k, heapSize / 16);
    TimesMonotone(1, m, k);
    TimesStep(0, k);
    EvenSum(Times(m, k), RoundUp(heapSize / 16));
  }

  lemma EvenSum(a: nat, b: nat)
    requires a % 8 == 0 && b % 8 == 0
    ensures (2 * a + b) % 8 == 0
  {
    var i, j := a / 8, b / 8;
    assert 2 * a + b == 8 * (2 * i + j);
  }

  lemma RoundUpMultiple(n: nat)
    ensures RoundUp(n) % 8 == 0
  {
  }

  /** Memory from outside: nothing, or an area without anything the allocator has. */
  predicate Offered(h: Heap, p: nat, n: nat)
    requires h.start <= h.end
  {
    p > 0 ==> OffBlocks(h.blocks, p, n) && Apart(h.start, h.end - h.start, p, n)
  }

  /** w lies in a block that a client holds. */
  predicate InLive(h: Heap, w: nat) { exists p :: p in h.live && p in h.blocks && p <= w < p + Size(h.blocks[p]) }

  /** The clients of h still hold their blocks in g, and what they have written is still there. */
  ghost predicate Later(h: Heap, g: Heap) {
    && (forall p :: p in h.live && p in h.blocks ==> p in g.live && p in g.blocks && g.blocks[p] == h.blocks[p])
    && (forall w: nat :: InLive(h, w) ==> Read(g.mem, w) == Read(h.mem, w))
  }

  lemma LaterSame(h: Heap)
    ensures Later(h, h)
  {
  }

  lemma LaterTrans(h: Heap, g: Heap, f: Heap)
    requires Later(h, g) && Later(g, f)
    ensures Later(h, f)
  {
    forall w: nat | InLive(h, w) ensures Read(f.mem, w) == Read(h.mem, w) {
      var p :| p in h.live && p in h.blocks && p <= w < p + Size(h.blocks[p]);
      assert p in g.live && p in g.blocks;
      assert InLive(g, w);
    }
  }

  lemma LaterKeeps(h: Heap, g: Heap)
    requires Keeps(h, g) && h.live <= g.live && g.mem == h.mem
    ensures Later(h, g)
  {
  }

  /** Writing to the pool or to the chunk being divided does not touch the clients' blocks. */
  lemma WriteIsLater(h: Heap, w: nat, v: nat)
    requires Valid(h) && (h.start <= w < h.end || h.loose <= w < h.loose + h.length)
    ensures Later(h, Write(h, w, v)) && Valid(Write(h, w, v))
  {
    hide Total, ListsOk, Complete, Conserved, Disjoint;
    UnlistedIsSafe(h, w);
    WriteKeeps(h, w, v);
    forall p | p in h.live && p in h.blocks ensures !(p <= w < p + Size(h.blocks[p])) {
      assert Apart(p, Size(h.blocks[p]), h.start, h.end - h.start);
      assert Apart(p, Size(h.blocks[p]), h.loose, h.length);
    }
  }

  /** What is left of the pool becomes a block of the list of its size. */
  function SaveLeftover(h: Heap, k: nat): Heap
    requires h.start + Size(k) == h.end && k < |h.heads| == |h.lists|
  {
    Give(CutLoose(Cut(Write(h, h.start, h.heads[k]), Size(k)), k), h.start, k)
  }

  lemma SaveLeftoverKeeps(h: Heap, k: nat)
    requires Valid(h) && h.length == 0 && h.start + Size(k) == h.end && k < LISTS == |h.heads| == |h.lists|
    ensures var g := SaveLeftover(h, k);
      && Valid(g) && Later(h, g) && g.live == h.live && g.start == g.end && g.length == 0
      && g.size == h.size && g.blocks == h.blocks[h.start := k]
      && g.heads == h.heads[k := h.start] && g.mem == h.mem[h.start := h.heads[k]]
      && forall j :: 0 <= j < LISTS && j != k ==> g.lists[j] == h.lists[j]
  {
    hide Valid, Later;
    var w := Write(h, h.start, h.heads[k]);
    WriteIsLater(h, h.start, h.heads[k]);
    var c := Cut(w, Size(k));
    CutKeeps(w, Size(k));
    CutLooseKeeps(c, k);
    LiveIsBlock(c, h.start);
    GiveKeeps(CutLoose(c, k), h.start, k);
    LaterKeeps(w, SaveLeftover(h, k));
    LaterTrans(h, w, SaveLeftover(h, k));
  }

  /** The first block of list k becomes the pool. */
  lemma TakeToPool(h: Heap, k: nat)
    requires Valid(h) && k < LISTS == |h.heads| == |h.lists| && h.lists[k] != [] && h.start == h.end && h.length == 0
    ensures h.lists[k][0] == h.heads[k] && h.heads[k] in h.blocks && h.blocks[h.heads[k]] == k
    ensures var g := Reclaim(Take(h, k), h.heads[k]); Valid(g) && Later(h, g) && g.live == h.live
  {
    hide ListsOk, Complete, AreasOk, Conserved;
    TakeKeeps(h, k);
    ReclaimKeeps(Take(h, k), h.heads[k]);
  }

  lemma NoPool(h: Heap)
    requires Valid(h) && h.start == h.end && h.length == 0
    ensures Valid(h.(start := 0, end := 0)) && Later(h, h.(start := 0, end := 0))
  {
    hide Total, Chain, Disjoint;
    ListsSame(h, h.(start := 0, end := 0));
  }

  lemma HeadOf(h: Heap, k: nat)
    requires Valid(h) && k < LISTS
    ensures |h.heads| == |h.lists| == LISTS && (h.heads[k] == 0 <==> h.lists[k] == [])
  {
    assert Chain(h.mem, h.heads[k], h.lists[k]);
  }

  /** List j is the first from k on that has a block. */
  predicate ReclaimedFrom(heads: seq<nat>, k: nat, j: nat) {
    k <= j < 16 == |heads| && heads[j] > 0 && forall i :: k <= i < j ==> heads[i] == 0
  }

  predicate Reclaimable(heads: seq<nat>, k: nat) { |heads| == 16 && exists j :: k <= j < 16 && heads[j] > 0 }

  lemma SameFrom(a: seq<nat>, b: seq<nat>, k: nat)
    requires |a| == |b| && forall j :: k <= j < |a| ==> a[j] == b[j]
    ensures Reclaimable(a, k) == Reclaimable(b, k)
  {
    if Reclaimable(a, k) {
      var j :| k <= j < 16 && a[j] > 0;
      assert b[j] > 0;
    }
  }

  /** As many blocks as there is room for, up to nobjs. */
  predicate AsMany(got: nat, nobjs: nat, size: nat, left: int) {
    && size * got <= left && got <= nobjs && (got == nobjs || size * (got + 1) > left)
    && (size * nobjs <= left ==> got == nobjs)
  }

  class Allocator {
    var freeList: seq<nat>
    var mem: map<nat, nat>
    var startFree: nat
    var endFree: nat
    var heapSize: nat
    ghost var heap: Heap

    constructor ()
      ensures Good() && heap.live == {} && heapSize == 0
    {
      freeList := seq(LISTS, _ => 0);
      mem := map[];
      startFree, endFree, heapSize := 0, 0, 0;
      heap := Heap(seq(LISTS, _ => 0), map[], 0, 0, 0, map[], {}, seq(LISTS, _ => []), 0, 0);
    }

    ghost predicate Lists()
      reads this
    {
      Valid(heap) && heap.heads == freeList && heap.mem == mem
      && heap.size == heapSize && |freeList| == LISTS == |heap.lists|
    }

    ghost predicate Consistent()
      reads this
    {
      Lists() && heap.start == startFree && heap.end == endFree
      && startFree <= endFree && (endFree - startFree) % 8 == 0
    }

    ghost predicate Good()
      reads this
    {
      Consistent() && heap.length == 0
    }

    /** Moves what is left of the pool to the list of its size. */
    method KeepLeftover(ghost p: nat, ghost q: nat, ghost n: nat)
      requires Good() && endFree - startFree < MAX_BYTES && Offered(heap, p, n) && Offered(heap, q, n)
      modifies this`freeList, this`mem, this`heap
      ensures Lists() && heap.start == heap.end && heap.length == 0
      ensures Later(old(heap), heap) && heap.live == old(heap.live)
      ensures forall j :: 0 <= j < LISTS && Size(j) > endFree - startFree ==> heap.lists[j] == old(heap.lists[j])
      ensures forall j :: 0 <= j < LISTS && Size(j) > endFree - startFree ==> freeList[j] == old(freeList[j])
      ensures Offered(heap, p, n) && Offered(heap, q, n)
    {
      hide Valid, Later;
      var left := endFree - startFree;
      LaterKeeps(heap, heap);
      if left > 0 {
        IndexOf(left);
        var k := FreelistIndex(left);
        ghost var h := heap;
        SaveLeftoverKeeps(heap, k);
        heap := SaveLeftover(heap, k);
        mem := mem[startFree := freeList[k]];
        freeList := freeList[k := startFree];
        if p > 0 { OffAdd(h.blocks, h.start, k, p, n); }
        if q > 0 { OffAdd(h.blocks, h.start, k, q, n); }
      }
    }

    /** Looks for a free block of at least `size` bytes and makes it the pool. */
    method ReclaimBlock(size: nat, ghost k: nat) returns (found: bool)
      requires Lists() && heap.start == heap.end && heap.length == 0 && size == Size(k) && k < LISTS
      requires heap.lists[k] == []
      modifies this`freeList, this`heap, this`startFree, this`endFree
      ensures Later(old(heap), heap) && heap.live == old(heap.live) && |heap.lists| == LISTS && heap.lists[k] == []
      ensures if found then Good() && endFree - startFree >= size else Lists() && heap == old(heap)
      ensures found ==> exists j: nat :: (ReclaimedFrom(old(freeList), k, j) && startFree == old(freeList[j])
        && endFree == startFree + 8 * (j + 1))
      ensures found == old(Reclaimable(freeList, k))
    {
      hide Valid, Later;
      var i: nat := size;
      ghost var j: nat := k;
      LaterKeeps(heap, heap);
      while i <= MAX_BYTES
        invariant k <= j <= LISTS && i == Size(j) && Lists() && heap == old(heap)
        invariant freeList == old(freeList) && forall l :: k <= l < j ==> freeList[l] == 0
      {
        IndexOfSize(j);
        HeadOf(heap, j);
        var p := freeList[FreelistIndex(i)];
        if p != 0 {
          TakeToPool(heap, j);
          freeList := freeList[FreelistIndex(i) := Read(mem, p)];
          startFree := p;
          endFree := startFree + i;
          heap := Reclaim(Take(heap, j), p);
          return true;
        }
        i := i + ALIGN;
        j := j + 1;
      }
      return false;
    }

    /** Fills the pool up, after its rest has been kept: with new memory, else with a
        free block.  fromMalloc and fromHandler are what `malloc` and the
        out-of-memory handler would deliver, 0 for nothing. */
    method FillPool(size: nat, bytesToGet: nat, fromMalloc: nat, fromHandler: nat, ghost k: nat) returns (filled: bool)
      requires Lists() && heap.start == heap.end && heap.length == 0 && size == Size(k) && k < LISTS
      requires heap.lists[k] == [] && bytesToGet >= size && bytesToGet % 8 == 0
      requires Offered(heap, fromMalloc, bytesToGet) && Offered(heap, fromHandler, bytesToGet)
      modifies this
      ensures Good() && Later(old(heap), heap) && heap.live == old(heap.live) && heap.lists[k] == []
      ensures filled ==> endFree - startFree >= size
      ensures !filled ==> fromMalloc == 0 && fromHandler == 0
      ensures fromMalloc > 0 ==>
        startFree == fromMalloc && endFree == fromMalloc + bytesToGet && heapSize == old(heapSize) + bytesToGet
      ensures fromMalloc == 0 && old(Reclaimable(freeList, k)) ==> heapSize == old(heapSize)
      ensures fromMalloc == 0 && fromHandler > 0 && !old(Reclaimable(freeList, k)) ==>
        startFree == fromHandler && endFree == fromHandler + bytesToGet && heapSize == old(heapSize) + bytesToGet
    {
      hide Valid, Later;
      startFree := fromMalloc;
      if startFree == 0 {
        var found := ReclaimBlock(size, k);
        if found { return true; }
        endFree := 0;
        startFree := fromHandler;
        if startFree == 0 {
          NoPool(heap);
          heap := heap.(start := 0, end := 0);
          return false;
        }
      }
      GrowKeeps(heap, startFree, bytesToGet);
      LaterKeeps(heap, Grow(heap, startFree, bytesToGet));
      heapSize := heapSize + bytesToGet;
      endFree := startFree + bytesToGet;
      heap := Grow(heap, startFree, bytesToGet);
      return true;
    }

    method CutOff(bytes: nat)
      requires Good() && 0 < bytes <= endFree - startFree && bytes % 8 == 0
      modifies this`startFree, this`heap
      ensures Consistent() && Later(old(heap), heap) && heap.loose == old(startFree) > 0 && heap.length == bytes
      ensures heap.lists == old(heap.lists) && heap.live == old(heap.live) && startFree == old(startFree) + bytes
    {
      hide ListsOk, Complete, Conserved, OffBlocks, Disjoint;
      CutKeeps(heap, bytes);
      heap := Cut(heap, bytes);
      startFree := startFree + bytes;
    }

    /** Takes memory for as many blocks as the pool has room for, up to `nobjs`. */
    method CutBlocks(size: nat, nobjs: nat, ghost k: nat) returns (result: nat, got: nat)
      requires Good() && nobjs > 0 && k < LISTS && size == Size(k) && endFree - startFree >= size
      modifies this`startFree, this`heap
      ensures Consistent() && Later(old(heap), heap) && heap.live == old(heap.live) && heap.lists == old(heap.lists)
      ensures result == old(startFree) == heap.loose > 0 && startFree == result + size * got
      ensures 1 <= got <= nobjs && heap.length == Times(got, k) && AsMany(got, nobjs, size, old(endFree - startFree))
    {
      hide Valid, Later, Times, RoundUp, AsMany, BytesToGet;
      var totalBytes := size * nobjs;
      var bytesLeft := endFree - startFree;
      Amounts(nobjs, k, heapSize);
      got := nobjs;
      if bytesLeft >= totalBytes {
        AllFit(nobjs, size, bytesLeft);
      } else {
        got := bytesLeft / size;
        Quotient(bytesLeft, size, nobjs);
        Amounts(got, k, heapSize);
        totalBytes := size * got;
      }
      result := startFree;
      CutOff(totalBytes);
    }

    /** The rest of the pool becomes a free block, and the pool is filled up. */
    method Replenish(size: nat, nobjs: nat, fromMalloc: nat, fromHandler: nat, ghost k: nat) returns (filled: bool)
      requires Good() && nobjs > 0 && k < LISTS && size == Size(k) && heap.lists[k] == [] && endFree - startFree < size
      requires var n := BytesToGet(size, nobjs, heapSize); Offered(heap, fromMalloc, n) && Offered(heap, fromHandler, n)
      modifies this
      ensures Good() && Later(old(heap), heap) && heap.live == old(heap.live) && heap.lists[k] == []
      ensures filled ==> endFree - startFree >= size
      ensures !filled ==> fromMalloc == 0 && fromHandler == 0
      ensures fromMalloc == 0 && old(Reclaimable(freeList, k)) ==> heapSize == old(heapSize)
      ensures fromMalloc > 0 || (fromHandler > 0 && !old(Reclaimable(freeList, k))) ==>
        && startFree == (if fromMalloc > 0 then fromMalloc else fromHandler) && endFree - startFree >= size * nobjs
        && heapSize == old(heapSize) + (endFree - startFree)
        && Wanted(endFree - startFree, size, nobjs, old(heapSize))
    {
      hide Valid, Later, Times, RoundUp, Offered, Wanted, BytesToGet, Reclaimable;
      var bytesToGet := BytesToGet(size, nobjs, heapSize);
      WantedIs(size, nobjs, heapSize);
      Amounts(nobjs, k, heapSize);
      ghost var h, heads := heap, freeList;
      KeepLeftover(fromMalloc, fromHandler, bytesToGet);
      SameFrom(heads, freeList, k);
      ghost var before := heap;
      filled := FillPool(size, bytesToGet, fromMalloc, fromHandler, k);
      LaterTrans(h, before, heap);
    }

    /** All nobjs blocks are cut off a new area, and the rest of it is the pool. */
    predicate New(area: nat, result: nat, got: nat, size: nat, nobjs: nat, before: nat)
      reads this
    {
      && result == area && got == nobjs && startFree == result + size * nobjs
      && heapSize == before + (endFree - result) && Wanted(endFree - result, size, nobjs, before)
    }

    /** Takes memory for up to `nobjs` blocks from the pool, which is filled up when
        it does not hold a single one.  The result 0 stands for the exception that
        the out-of-memory handler throws when it does not get memory either. */
    method ChunkAlloc(size: nat, nobjs: nat, fromMalloc: nat, fromHandler: nat, ghost k: nat)
      returns (result: nat, got: nat)
      requires Good() && nobjs > 0 && k < LISTS && size == Size(k) && heap.lists[k] == []
      requires endFree - startFree < size ==>
        var n := BytesToGet(size, nobjs, heapSize); Offered(heap, fromMalloc, n) && Offered(heap, fromHandler, n)
      modifies this
      ensures Consistent() && Later(old(heap), heap) && heap.live == old(heap.live) && heap.lists[k] == []
      ensures result == 0 ==> heap.length == 0
      ensures result > 0 ==> heap.loose == result && 1 <= got <= nobjs && heap.length == Times(got, k)
      ensures old(endFree - startFree) >= size || fromMalloc > 0 || fromHandler > 0 ==> result > 0
      ensures old(endFree - startFree) >= size ==>
        && result == old(startFree) && startFree == result + size * got && endFree == old(endFree)
        && heapSize == old(heapSize) && AsMany(got, nobjs, size, old(endFree - startFree))
      ensures old(endFree - startFree) < size && fromMalloc == 0 && old(Reclaimable(freeList, k)) ==>
        heapSize == old(heapSize)
      ensures old(endFree - startFree) < size && (fromMalloc > 0 || (fromHandler > 0 && !old(Reclaimable(freeList, k))))
        ==> New(if fromMalloc > 0 then fromMalloc else fromHandler, result, got, size, nobjs, old(heapSize))
      decreases if endFree - startFree >= size then 0 else 1
    {
      hide Valid, Later, Times, RoundUp, Offered, Wanted, BytesToGet, Reclaimable, AsMany;
      if endFree - startFree >= size {
        result, got := CutBlocks(size, nobjs, k);
      } else {
        ghost var h := heap;
        var filled := Replenish(size, nobjs, fromMalloc, fromHandler, k);
        if !filled { return 0, 0; }
        ghost var before, left := heap, endFree - startFree;
        result, got := ChunkAlloc(size, nobjs, 0, 0, k);
        LaterTrans(h, before, heap);
        if size * nobjs <= left { AllGot(got, nobjs, size, left); }
      }
    }

    /** The blocks of list k are those behind the client's. */
    ghost predicate Dealt(first: nat, n: nat, k: nat)
      requires |heap.lists| == LISTS && k < LISTS
      reads this
    {
      forall i :: 0 <= i < |heap.lists[k]| ==> heap.lists[k][i] == first + n * (i + 1)
    }

    /** Divides a chunk: the first block is for the client, the others fill list k. */
    method Refill(n: nat, fromMalloc: nat, fromHandler: nat, ghost k: nat) returns (result: nat)
      requires Good() && k < LISTS && n == Size(k) && freeList[k] == 0
      requires endFree - startFree < n ==>
        var b := BytesToGet(n, REFILL, heapSize); Offered(heap, fromMalloc, b) && Offered(heap, fromHandler, b)
      modifies this
      ensures Good() && Later(old(heap), heap)
      ensures result > 0 ==> Handed(old(heap), heap, result, k)
      ensures old(endFree - startFree) >= n || fromMalloc > 0 || fromHandler > 0 ==> result > 0
      ensures result > 0 ==> Dealt(result, n, k)
      ensures old(endFree - startFree) >= n ==>
        && result == old(startFree) && startFree == result + n * (|heap.lists[k]| + 1) && endFree == old(endFree)
        && heapSize == old(heapSize) && AsMany(|heap.lists[k]| + 1, 20, n, old(endFree - startFree))
      ensures old(endFree - startFree) < n && fromMalloc == 0 && old(Reclaimable(freeList, k)) ==>
        heapSize == old(heapSize)
      ensures old(endFree - startFree) < n && (fromMalloc > 0 || (fromHandler > 0 && !old(Reclaimable(freeList, k))))
        ==> New(if fromMalloc > 0 then fromMalloc else fromHandler, result, |heap.lists[k]| + 1, n, 20, old(heapSize))
    {
      hide Valid, Later, Times, Linked, Divide, BytesToGet, Offered, Keeps, Wanted, AsMany, Reclaimable;
      HeadOf(heap, k);
      ghost var h := heap;
      var chunk, nobjs := ChunkAlloc(n, REFILL, fromMalloc, fromHandler, k);
      if chunk == 0 { return 0; }
      HeadOf(heap, k);
      ghost var c := heap;
      if nobjs == 1 {
        LinkedOne(heap, k);
      } else {
        IndexOfSize(k);
        LinkBlocks(chunk, n, nobjs, k);
        freeList := freeList[FreelistIndex(n) := chunk + n];
        LaterTrans(h, c, heap);
      }
      c := heap;
      DivideKeeps(c, k, nobjs);
      DealtBy(c, k, nobjs, chunk, n);
      heap := Divide(c, k, nobjs);
      HeadOf(heap, k);
      LaterKeeps(c, heap);
      LaterHanded(h, c, heap, chunk, k);
      LaterTrans(h, c, heap);
      result := chunk;
    }

    /** Writes the links of the blocks behind the first. */
    method LinkBlocks(chunk: nat, n: nat, nobjs: nat, ghost k: nat)
      requires Consistent() && k < LISTS && n == Size(k) && heap.loose == chunk
      requires nobjs > 1 && heap.length == Times(nobjs, k)
      requires heap.heads[k] == 0 && heap.lists[k] == []
      modifies this`mem, this`heap
      ensures Consistent() && Later(old(heap), heap) && Linked(heap, k, nobjs)
      ensures heap == old(heap).(mem := heap.mem)
    {
      hide Valid, Later, Size, Times, Linked, LinkedUpTo, Read;
      LinkedNone(mem, chunk, k);
      var next: nat := chunk + n;
      var i := 1;
      TimesStep(0, k);
      LaterKeeps(heap, heap);
      while true
        invariant 1 <= i < nobjs && next == chunk + Times(i, k) && Consistent() && Later(old(heap), heap)
        invariant heap == old(heap).(mem := heap.mem)
        invariant LinkedUpTo(mem, chunk, k, i)
        decreases nobjs - i
      {
        var current: nat := next;
        next := next + n;
        TimesStep(i, k);
        TimesMonotone(i + 1, nobjs, k);
        ghost var before := heap;
        var link := if nobjs - 1 == i then 0 else next;
        LinkStep(mem, chunk, k, i, link);
        WriteIsLater(heap, current, link);
        mem := mem[current := link];
        heap := Write(heap, current, link);
        LaterTrans(old(heap), before, heap);
        if nobjs - 1 == i { break; }
        i := i + 1;
      }
      AllLinked(heap, k, nobjs);
    }

    /** A block for a client: at least n bytes that no other client holds.  A block above 128 bytes is
        `malloc`'s, or its handler's, alone. */
    method Allocate(n: nat, fromMalloc: nat, fromHandler: nat) returns (result: nat)
      requires Good() && 0 < n
      requires n <= 128 && endFree - startFree < RoundUp(n) ==>
        var b := BytesToGet(RoundUp(n), REFILL, heapSize); Offered(heap, fromMalloc, b) && Offered(heap, fromHandler, b)
      modifies this
      ensures Good() && Later(old(heap), heap)
      ensures n <= 128 && result > 0 ==>
        && Handed(old(heap), heap, result, FreelistIndex(n))
        && Size(FreelistIndex(n)) == RoundUp(n) && RoundUp(n) % 8 == 0 && n <= RoundUp(n) < n + 8
      ensures n <= 128 && (old(freeList[FreelistIndex(n)]) > 0 || old(endFree - startFree) >= RoundUp(n)
        || fromMalloc > 0 || fromHandler > 0)
        ==> result > 0
      ensures n <= 128 && old(freeList[FreelistIndex(n)]) > 0 ==>
        && result == old(freeList[FreelistIndex(n)])
        && heap.lists[FreelistIndex(n)] == old(heap.lists[FreelistIndex(n)])[1..]
        && startFree == old(startFree) && endFree == old(endFree) && heapSize == old(heapSize)
      ensures n <= 128 && old(freeList[FreelistIndex(n)]) == 0 ==>
        && (result > 0 ==> Dealt(result, RoundUp(n), FreelistIndex(n)))
        && (old(endFree - startFree) >= RoundUp(n) ==>
              && result == old(startFree) && heapSize == old(heapSize)
              && AsMany(|heap.lists[FreelistIndex(n)]| + 1, 20, RoundUp(n), old(endFree - startFree)))
        && (old(endFree - startFree) < RoundUp(n) && fromMalloc > 0 ==>
              New(fromMalloc, result, |heap.lists[FreelistIndex(n)]| + 1, RoundUp(n), 20, old(heapSize)))
      ensures n > 128 ==>
        result == (if fromMalloc > 0 then fromMalloc else fromHandler) && heap == old(heap) && mem == old(mem)
    {
      hide Valid, Later, BytesToGet, Offered, Wanted, AsMany, Reclaimable;
      if n > MAX_BYTES {
        result := if fromMalloc > 0 then fromMalloc else fromHandler;
        LaterSame(heap);
        return;
      }
      IndexOf(n);
      var k := FreelistIndex(n);
      HeadOf(heap, k);
      result := freeList[k];
      if result == 0 {
        result := Refill(RoundUp(n), fromMalloc, fromHandler, k);
        return;
      }
      TakeKeeps(heap, k);
      TakeHanded(heap, k);
      LaterKeeps(heap, Take(heap, k));
      freeList := freeList[k := Read(mem, result)];
      heap := Take(heap, k);
    }

    /** A client gives a block back; one above 128 bytes to `free`. */
    method Deallocate(p: nat, n: nat)
      requires Good() && 0 < n
      requires n <= 128 ==> p in heap.live && p in heap.blocks && heap.blocks[p] == FreelistIndex(n)
      modifies this`freeList, this`mem, this`heap
      ensures Good() && heap.blocks == old(heap.blocks)
      ensures heap.live == if n > 128 then old(heap.live) else old(heap.live) - {p}
      ensures n <= 128 ==>
        && freeList[FreelistIndex(n)] == p && heap.lists[FreelistIndex(n)] == [p] + old(heap.lists[FreelistIndex(n)])
        && forall j :: 0 <= j < LISTS && j != FreelistIndex(n) ==> heap.lists[j] == old(heap.lists[j])
      ensures n > 128 ==> freeList == old(freeList) && heap == old(heap)
      ensures forall w: nat :: InLive(heap, w) ==> Read(heap.mem, w) == old(Read(heap.mem, w))
    {
      hide Valid;
      if n > MAX_BYTES { return; }
      IndexOf(n);
      var k := FreelistIndex(n);
      HeadOf(heap, k);
      ghost var h := heap;
      LiveIsSafe(h, p, p, freeList[k]);
      mem := mem[p := freeList[k]];
      freeList := freeList[k := p];
      GiveKeeps(Write(h, p, h.heads[k]), p, k);
      heap := Give(Write(h, p, h.heads[k]), p, k);
      GivenIsDead(h, p);
    }

    /** A client writes to its block: whatever it writes, the allocator's lists stay intact. */
    method ClientWrite(p: nat, w: nat, v: nat)
      requires Good() && p in heap.live && p in heap.blocks && p <= w < p + Size(heap.blocks[p])
      modifies this`mem, this`heap
      ensures Good() && heap == Write(old(heap), w, v)
    {
      hide Valid;
      LiveIsSafe(heap, p, w, v);
      mem := mem[w := v];
      heap := Write(heap, w, v);
    }
  }

  /** Block p has been handed out: no client had it, and now one does. */
  ghost predicate Handed(h: Heap, g: Heap, p: nat, k: nat) {
    && p !in h.live && g.live == h.live + {p} && p in g.blocks && g.blocks[p] == k
    && forall q :: q in h.live && q in h.blocks ==> Apart(q, Size(h.blocks[q]), p, Size(k))
  }

  lemma LaterHanded(h: Heap, c: Heap, g: Heap, p: nat, k: nat)
    requires Valid(c) && Valid(g) && Later(h, c) && c.live == h.live && Later(c, g)
    requires g.live == c.live + {p} && p !in c.blocks && p in g.blocks && g.blocks[p] == k
    ensures Handed(h, g, p, k)
  {
    hide ListsOk, Conserved, OffBlocks;
    forall q | q in h.live && q in h.blocks ensures Apart(q, Size(h.blocks[q]), p, Size(k)) {
      assert q in c.live && q in c.blocks && q in g.blocks && g.blocks[q] == h.blocks[q];
    }
  }

  lemma TakeHanded(h: Heap, k: nat)
    requires Valid(h) && k < LISTS && |h.lists| == |h.heads| == LISTS && h.lists[k] != []
    ensures Handed(h, Take(h, k), h.heads[k], k) && h.heads[k] == h.lists[k][0]
  {
    hide ListsOk, Conserved, OffBlocks;
    TakeKeeps(h, k);
  }

  lemma LiveIsSafe(h: Heap, p: nat, w: nat, v: nat)
    requires Valid(h) && p in h.live && p in h.blocks && p <= w < p + Size(h.blocks[p])
    ensures Valid(Write(h, w, v))
  {
    hide Valid;
    UnlistedIsSafe(h, w);
    WriteKeeps(h, w, v);
  }

  lemma GivenIsDead(h: Heap, p: nat)
    requires Valid(h) && p in h.blocks
    ensures forall q :: q in h.live - {p} && q in h.blocks ==> !(q <= p < q + Size(h.blocks[q]))
  {
    hide ListsOk, Conserved, OffBlocks;
    forall q | q in h.live - {p} && q in h.blocks ensures !(q <= p < q + Size(h.blocks[q])) {
      assert Apart(q, Size(h.blocks[q]), p, Size(h.blocks[p]));
    }
  }

  /** Blocks 1 to i - 1 are linked, each to the next. */
  predicate LinkedUpTo(mem: map<nat, nat>, chunk: nat, k: nat, i: nat) {
    forall j: nat :: 1 <= j < i ==> Read(mem, chunk + Times(j, k)) == chunk + Times(j + 1, k)
  }

  lemma LinkedNone(mem: map<nat, nat>, chunk: nat, k: nat)
    ensures LinkedUpTo(mem, chunk, k, 1)
  {
  }

  lemma LinkStep(mem: map<nat, nat>, chunk: nat, k: nat, i: nat, link: nat)
    requires LinkedUpTo(mem, chunk, k, i) && i >= 1
    ensures var m := mem[chunk + Times(i, k) := link];
      && LinkedUpTo(m, chunk, k, i) && (link == chunk + Times(i + 1, k) ==> LinkedUpTo(m, chunk, k, i + 1))
      && Read(m, chunk + Times(i, k)) == link
  {
    hide Times;
    TimesIncreasing(i, k);
  }

  lemma AllLinked(h: Heap, k: nat, m: nat)
    requires m > 1 && k < |h.heads| && LinkedUpTo(h.mem, h.loose, k, m - 1)
    requires Read(h.mem, h.loose + Times(m - 1, k)) == h.heads[k]
    ensures Linked(h, k, m)
  {
    hide Times, Read;
  }

  lemma LinkedOne(h: Heap, k: nat)
    requires k < |h.heads|
    ensures Linked(h, k, 1)
  {
  }

  lemma DealtBy(h: Heap, k: nat, m: nat, first: nat, n: nat)
    requires m > 0 && h.length == Times(m, k) && k < |h.heads| == |h.lists| && h.lists[k] == []
    requires h.loose == first && n == Size(k)
    ensures |Divide(h, k, m).lists| == |h.lists|
    ensures var l := Divide(h, k, m).lists[k]; |l| == m - 1 && forall i :: 0 <= i < |l| ==> l[i] == first + n * (i + 1)
  {
    hide Divide, Times, Size;
    DivideLists(h, k, m);
    var l := Divide(h, k, m).lists[k];
    forall i | 0 <= i < |l| ensures l[i] == first + n * (i + 1) { Multiples(i + 1, k, 0); }
  }

  lemma TimesStep(m: nat, k: nat)
    ensures Times(m + 1, k) == Times(m, k) + Size(k) && Times(1, k) == Size(k) >= 8
  {
    assert Times(0, k) == 0;
  }

  lemma {:induction false} TimesMonotone(a: nat, b: nat, k: nat)
    requires a <= b
    ensures Times(a, k) <= Times(b, k)
    decreases b
  {
    if a < b { TimesMonotone(a, b - 1, k); }
  }

  lemma {:induction false} TimesIncreasing(i: nat, k: nat)
    ensures forall j: nat :: j < i ==> Times(j, k) < Times(i, k)
    decreases i
  {
    if i > 0 { TimesIncreasing(i - 1, k); }
  }

  lemma Quotient(a: nat, b: nat, n: nat)
    requires 0 < b <= a < b * n
    ensures 1 <= a / b <= n && b * (a / b) <= a && AsMany(a / b, n, b, a)
  {
    var q := a / b;
    assert a == b * q + a % b;
    MulLess(b, q, n);
  }

  lemma AllFit(nobjs: nat, size: nat, left: int)
    requires size * nobjs <= left
    ensures AsMany(nobjs, nobjs, size, left)
  {}

  lemma AllGot(got: nat, nobjs: nat, size: nat, left: int)
    requires AsMany(got, nobjs, size, left) && size * nobjs <= left
    ensures got == nobjs
  {}

  lemma MulLess(b: nat, q: nat, n: nat)
    requires b * q < b * n
    ensures q < n
  {
  }
}
