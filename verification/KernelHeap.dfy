/** The slab caches of kernel/mm/slab.c and kernel/mm/kmalloc.c in place: slab headers, and free lists
    threaded through the free objects. */
module KernelHeap {
  import opened Kernel
  import opened Slabs
  import opened Kmalloc
  import Blocks
  import BuddyOps
  import opened BuddyImpl
  import R = KmallocRuns

  /** slab_header_t; the pointer to the next slab is the position in the cache's sequence. */
  datatype Header = Header(start: nat, end: nat, objectCount: nat, objectSize: nat, freeCount: nat, order: nat, freeList: nat)

  /** The header and the words in memory hold the slab `s`. */
  ghost predicate Shows(mem: map<nat, nat>, hd: Header, s: Slab) {
    && s.size > 0
    && hd.start == Start(s.base) && hd.end == s.base + BLOCK && hd.order == SLAB_DEFAULT_ORDER
    && hd.objectSize == s.size && hd.objectCount == Count(s.size)
    && hd.freeCount == |s.free| && Chain(mem, hd.freeList, s.free)
  }

  ghost predicate AllShow(mem: map<nat, nat>, caches: seq<seq<Header>>, h: Heap) {
    && |caches| == |h| && (forall c :: 0 <= c < |h| ==> |caches[c]| == |h[c]|)
    && forall c: nat, i: nat :: InHeap(h, c, i) ==> Shows(mem, caches[c][i], h[c][i])
  }

  /** The two states of memory agree except at slots of one slab. */
  ghost predicate OnlySlotsOf(mem: map<nat, nat>, mem': map<nat, nat>, h: Heap, c: nat, i: nat) {
    forall x :: x in mem && !SlotOf(h, c, i, x) ==> x in mem' && mem'[x] == mem[x]
  }

  /** What is written in one slab leaves the free lists of all others alone. */
  lemma OthersShow(mem: map<nat, nat>, mem': map<nat, nat>, hd: Header, h: Heap, c: nat, i: nat, d: nat, j: nat)
    requires HeapOk(h) && InHeap(h, c, i) && InHeap(h, d, j) && (d != c || j != i)
    requires Shows(mem, hd, h[d][j]) && OnlySlotsOf(mem, mem', h, c, i)
    ensures Shows(mem', hd, h[d][j])
  {
    assert Placed(h[d][j], d);
    forall x | x in h[d][j].free && x in mem ensures x in mem' && mem'[x] == mem[x] {
      assert SlotOf(h, d, j, x);
      if SlotOf(h, c, i, x) {
        FreeFindsIssuer(h, c, i, x);
        FreeFindsIssuer(h, d, j, x);
      }
    }
    ChainFrame(mem, mem', hd.freeList, h[d][j].free);
  }

  /** Replacing one slab, its header, and words at its own slots. */
  lemma ReplaceShows(mem: map<nat, nat>, mem': map<nat, nat>, caches: seq<seq<Header>>, h: Heap, c: nat, i: nat, hd: Header, free: seq<nat>)
    requires HeapOk(h) && AllShow(mem, caches, h) && InHeap(h, c, i) && OnlySlotsOf(mem, mem', h, c, i)
    requires Shows(mem', hd, h[c][i].(free := free))
    ensures AllShow(mem', caches[c := caches[c][i := hd]], h[c := h[c][i := h[c][i].(free := free)]])
  {
    var g := h[c := h[c][i := h[c][i].(free := free)]];
    forall d: nat, j: nat | InHeap(g, d, j) ensures Shows(mem', caches[c := caches[c][i := hd]][d][j], g[d][j]) {
      assert InHeap(h, d, j);
      if d != c || j != i {
        OthersShow(mem, mem', caches[d][j], h, c, i, d, j);
      }
    }
  }

  /** Two states of memory agree on every four-byte word that does not meet the `n` bytes from `x` on. */
  ghost predicate OnlyBytes(mem: map<nat, nat>, mem': map<nat, nat>, x: nat, n: nat) {
    forall y :: y in mem && (y + 4 <= x || x + n <= y) ==> y in mem' && mem'[y] == mem[y]
  }

  /** Bytes that a caller writes inside an object it holds are no part of the link word of a free object. */
  lemma StoreShows(mem: map<nat, nat>, mem': map<nat, nat>, caches: seq<seq<Header>>, h: Heap, c: nat, i: nat, a: nat, x: nat, n: nat)
    requires HeapOk(h) && AllShow(mem, caches, h) && LiveIn(h, c, i, a) && a <= x && x + n <= a + SIZES[c]
    requires OnlyBytes(mem, mem', x, n)
    ensures AllShow(mem', caches, h)
  {
    forall d: nat, j: nat | InHeap(h, d, j) ensures Shows(mem', caches[d][j], h[d][j]) {
      assert Placed(h[d][j], d);
      assert Shows(mem, caches[d][j], h[d][j]);
      NewSlabHasSlots(0, d);
      forall b | b in h[d][j].free ensures b + 4 <= x || x + n <= b {
        assert SlotOf(h, d, j, b);
        if a == b {
          FreeFindsIssuer(h, c, i, a);
          FreeFindsIssuer(h, d, j, b);
        } else {
          ObjectsDisjoint(h, c, i, a, d, j, b);
        }
      }
      ChainFrame(mem, mem', caches[d][j].freeList, h[d][j].free);
    }
  }

  /** The word at slot `k` of a block holds `next`. */
  ghost predicate LinkAt(mem: map<nat, nat>, base: nat, size: nat, k: nat, next: nat) {
    SlotAddr(base, size, k) in mem && mem[SlotAddr(base, size, k)] == next
  }

  ghost predicate Onward(mem: map<nat, nat>, base: nat, size: nat, k: nat) {
    LinkAt(mem, base, size, k, SlotAddr(base, size, k + 1))
  }

  /** The first `n` slots are linked, each to its successor. */
  ghost predicate Linked(mem: map<nat, nat>, base: nat, size: nat, n: int) {
    forall k: nat :: k < n ==> Onward(mem, base, size, k)
  }

  lemma LinkNext(mem: map<nat, nat>, base: nat, size: nat, n: nat, v: nat)
    requires size > 0 && Linked(mem, base, size, n)
    ensures var m := mem[SlotAddr(base, size, n) := v];
      && Linked(m, base, size, n) && LinkAt(m, base, size, n, v)
      && (v == SlotAddr(base, size, n + 1) ==> Linked(m, base, size, n + 1))
  {
    var m := mem[SlotAddr(base, size, n) := v];
    forall k: nat | k < n ensures Onward(m, base, size, k) {
      assert Onward(mem, base, size, k);
      Apart(size, k, n);
    }
  }

  /** The free list that slab_add_cache_frame builds. */
  lemma {:induction false} BuiltChain(mem: map<nat, nat>, base: nat, size: nat, k: nat)
    requires size > 0 && k < Count(size)
    requires Linked(mem, base, size, Count(size) - 1) && LinkAt(mem, base, size, Count(size) - 1, 0)
    ensures Chain(mem, SlotAddr(base, size, k), AllSlots(base, size)[k..])
    decreases Count(size) - k
  {
    var l, p := AllSlots(base, size), SlotAddr(base, size, k);
    assert l[k..][0] == p && l[k..][1..] == l[k + 1..];
    if k + 1 < Count(size) {
      BuiltChain(mem, base, size, k + 1);
      assert Onward(mem, base, size, k);
    } else {
      assert l[k + 1..] == [];
    }
  }

  /** The two writes of slab_free, once the search has stopped before position `j` of the free list, with the
      pointer to be changed in the free object at `at` or, for 0, in the header. */
  lemma ThreadedShows(mem: map<nat, nat>, caches: seq<seq<Header>>, h: Heap, c: nat, i: nat, a: nat, j: nat, at: nat, next: nat)
    requires HeapOk(h) && AllShow(mem, caches, h) && LiveIn(h, c, i, a) && a > 0
    requires var l := h[c][i].free;
      && j <= |l| && Chain(mem, next, l[j..])
      && (if j == 0 then at == 0 else at == l[j - 1] && at > 0)
      && (forall k :: 0 <= k < j ==> l[k] <= a) && (j < |l| ==> a < l[j])
    ensures var hd, free := caches[c][i], Insert(h[c][i].free, a);
      var mem' := if at == 0 then mem[a := next] else mem[a := next][at := a];
      var hd' := hd.(freeCount := hd.freeCount + 1, freeList := if at == 0 then a else hd.freeList);
      var g := h[c := h[c][i := h[c][i].(free := free)]];
      HeapOk(g) && AllShow(mem', caches[c := caches[c][i := hd']], g)
  {
    hide HeapOk, AllShow, Insert, Chain, SlabOk;
    ShownAt(mem, caches, h, c, i);
    var s, hd := h[c][i], caches[c][i];
    SlabThreaded(mem, hd, s, a, j, at, next);
    SetFreeKeepsHeap(h, c, i, Insert(s.free, a));
    var mem' := if at == 0 then mem[a := next] else mem[a := next][at := a];
    var hd' := hd.(freeCount := hd.freeCount + 1, freeList := if at == 0 then a else hd.freeList);
    ReplaceShows(mem, mem', caches, h, c, i, hd', Insert(s.free, a));
  }

  lemma SlabThreaded(mem: map<nat, nat>, hd: Header, s: Slab, a: nat, j: nat, at: nat, next: nat)
    requires Shows(mem, hd, s) && SlabOk(s) && Live(s, a) && a > 0
    requires j <= |s.free| && Chain(mem, next, s.free[j..])
    requires if j == 0 then at == 0 else at == s.free[j - 1] && at > 0
    requires (forall k :: 0 <= k < j ==> s.free[k] <= a) && (j < |s.free| ==> a < s.free[j])
    ensures var mem' := if at == 0 then mem[a := next] else mem[a := next][at := a];
      var hd' := hd.(freeCount := hd.freeCount + 1, freeList := if at == 0 then a else hd.freeList);
      Shows(mem', hd', s.(free := Insert(s.free, a)))
    ensures SlabOk(s.(free := Insert(s.free, a))) && (at > 0 ==> IsSlot(s.base, s.size, at))
  {
    var l := s.free;
    PutBack(s, a);
    InsertIs(l, a);
    InsertAt(l, a, j);
    hide SlabOk, Insert, Count;
    if j == 0 {
      assert l[0..] == l;
      ChainPush(mem, l, a, next);
      assert l[..0] + [a] + l[0..] == [a] + l;
    } else {
      assert at in l;
      ChainInsert(mem, hd.freeList, l, j, a, next);
    }
  }

  lemma ShownAt(mem: map<nat, nat>, caches: seq<seq<Header>>, h: Heap, c: nat, i: nat)
    requires HeapOk(h) && AllShow(mem, caches, h) && InHeap(h, c, i)
    ensures c < |caches| && i < |caches[c]| && Shows(mem, caches[c][i], h[c][i]) && Placed(h[c][i], c)
  {
  }

  /** total_size and alloc_count say what the slabs of each cache take up. */
  ghost predicate Tallied(totalSize: seq<nat>, allocCount: seq<nat>, h: Heap) {
    && |totalSize| == |allocCount| == |h|
    && forall c :: 0 <= c < |h| ==> totalSize[c] == BLOCK * |h[c]| && allocCount[c] == 16 * |h[c]|
  }

  /** Both counts are of the same memory, sixteen pages for each slab. */
  lemma Tallies(totalSize: seq<nat>, allocCount: seq<nat>, h: Heap, c: nat)
    requires Tallied(totalSize, allocCount, h) && c < |h|
    ensures allocCount[c] == |h[c]| * Blocks.Size(SLAB_DEFAULT_ORDER) && totalSize[c] == allocCount[c] * PAGE_SIZE
  {
    assert Blocks.Size(SLAB_DEFAULT_ORDER) == 16;
  }

  class KernelHeap {
    const allocator: BuddyAllocator
    var caches: seq<seq<Header>>
    var totalSize: seq<nat>
    var allocCount: seq<nat>
    var mem: map<nat, nat>
    ghost var heap: Heap
    ghost var live: map<nat, nat>

    ghost predicate Valid()
      reads this
    {
      HeapOk(heap) && AllShow(mem, caches, heap) && Tallied(totalSize, allocCount, heap)
    }

    ghost function Now(): R.Memory
      reads this, allocator, allocator.order, allocator.invalid, allocator.uses
    {
      R.Memory(allocator.View(), heap, live)
    }

    /** Every slab lives in a block of the page allocator, and `live` is what callers hold. */
    ghost predicate Backed()
      reads this, allocator, allocator.order, allocator.invalid, allocator.uses, allocator.freeCount, allocator.nodes
    {
      allocator.Valid() && R.Inv(Now())
    }

    /** INIT_SLAB_CACHE for every class. */
    constructor (allocator: BuddyAllocator)
      requires allocator.Valid()
      ensures Valid() && Backed() && this.allocator == allocator && heap == seq(|SIZES|, _ => []) && live == map[]
    {
      R.BootInv(allocator.View());
      this.allocator := allocator;
      caches := seq(|SIZES|, _ => []);
      totalSize, allocCount := seq(|SIZES|, _ => 0), seq(|SIZES|, _ => 0);
      mem := map[];
      heap, live := seq(|SIZES|, _ => []), map[];
    }

    /** A caller writes `n` bytes from `x` on inside an object it holds; `after` is memory afterwards. */
    method Store(ghost c: nat, ghost i: nat, ghost a: nat, ghost x: nat, ghost n: nat, after: map<nat, nat>)
      requires Valid() && LiveIn(heap, c, i, a) && a <= x && x + n <= a + SIZES[c] && OnlyBytes(mem, after, x, n)
      modifies this`mem
      ensures Valid() && mem == after
    {
      StoreShows(mem, after, caches, heap, c, i, a, x, n);
      mem := after;
    }

    /** slab_alloc_from_slab. */
    method SlabAllocFromSlab(c: nat, i: nat) returns (a: nat)
      requires Valid() && InHeap(heap, c, i)
      modifies this`caches, this`totalSize, this`allocCount, this`mem, this`heap
      ensures Valid()
      ensures if old(heap)[c][i].free == [] then a == 0 && heap == old(heap)
              else a == old(heap)[c][i].free[0] && a > 0 && heap == TakeFrom(old(heap), c, i)
    {
      var hd := caches[c][i];
      assert Shows(mem, hd, heap[c][i]);
      if hd.freeCount == 0 {
        return 0;
      }
      assert hd.freeList != 0;   // the source's second test, for an empty list, never fires
      a := hd.freeList;
      var hd' := hd.(freeList := mem[hd.freeList], freeCount := hd.freeCount - 1);
      ReplaceShows(mem, mem, caches, heap, c, i, hd', heap[c][i].free[1..]);
      TakeEffect(heap, c, i);
      caches := caches[c := caches[c][i := hd']];
      heap := TakeFrom(heap, c, i);
    }

    /** slab_alloc_from_cache. */
    method SlabAllocFromCache(c: nat) returns (a: nat)
      requires Valid() && c < |heap|
      modifies this`caches, this`totalSize, this`allocCount, this`mem, this`heap
      ensures Valid()
      ensures var i := FirstFree(old(heap)[c]);
        if i == |old(heap)[c]| then a == 0 && heap == old(heap)
        else a == old(heap)[c][i].free[0] && a > 0 && heap == TakeFrom(old(heap), c, i)
    {
      var i := 0;
      while i < |caches[c]|
        invariant i <= |caches[c]| && Valid() && caches == old(caches) && heap == old(heap)
        invariant forall j :: 0 <= j < i ==> heap[c][j].free == []
      {
        assert Shows(mem, caches[c][i], heap[c][i]) by { assert InHeap(heap, c, i); }
        if caches[c][i].freeCount > 0 {
          a := SlabAllocFromSlab(c, i);
          return;
        }
        i := i + 1;
      }
      return 0;
    }

    /** The part of slab_add_cache_frame after page_alloc has given a block at address `base`. */
    method NewSlab(c: nat, base: nat)
      requires Valid() && c < |SIZES| && base > 0 && base % BLOCK == 0
      requires forall d: nat, j: nat :: InHeap(heap, d, j) ==> heap[d][j].base != base
      modifies this`caches, this`totalSize, this`allocCount, this`mem, this`heap
      ensures Valid()
      ensures heap == AddSlab(old(heap), c, base)
    {
      var size := SIZES[c];
      var count := (BLOCK - HEADER) / size;
      NewSlabHasSlots(base, c);
      var hd := Header(base + HEADER, base + BLOCK, count, size, count, SLAB_DEFAULT_ORDER, 0);
      hd, mem := ThreadSlots(mem, hd, base);
      totalSize := totalSize[c := totalSize[c] + BLOCK];
      allocCount := allocCount[c := allocCount[c] + 16];
      AddSlabKeepsHeap(heap, c, base);
      AddedShows(old(mem), mem, caches, heap, c, hd, base);
      caches := caches[c := caches[c] + [hd]];
      heap := AddSlab(heap, c, base);
    }

    /** slab_add_cache_frame: the cache gains a slab in a block of its own, unless page_alloc has none. */
    method SlabAddCacheFrame(c: nat)
      requires Valid() && Backed() && c < |SIZES|
      modifies this`caches, this`totalSize, this`allocCount, this`mem, this`heap, allocator, allocator.order, allocator.uses, allocator.freeCount, allocator.nodes
      ensures Valid() && allocator.Valid()
      ensures var (page, pages) := BuddyOps.Alloc(old(allocator.View()), SLAB_DEFAULT_ORDER);
        allocator.View() == pages && heap == if page.None? then old(heap) else AddSlab(old(heap), c, R.Addr(page.value))
    {
      hide HeapOk, AllShow, Tallied, R.Inv, BuddyOps.Alloc;
      R.BlockForSlab(Now(), c);
      var page := allocator.PageAlloc(SLAB_DEFAULT_ORDER);
      if page.Some? {
        NewSlab(c, KERNEL_START_VIRT + page.value * PAGE_SIZE);
      }
    }

    /** slab_malloc. */
    method SlabMalloc(c: nat) returns (a: nat)
      requires Valid() && Backed() && c < |SIZES|
      modifies this`caches, this`totalSize, this`allocCount, this`mem, this`heap, allocator, allocator.order, allocator.uses, allocator.freeCount, allocator.nodes
      ensures Valid() && allocator.Valid()
      ensures var i := FirstFree(old(heap)[c]);
        var (page, pages) := BuddyOps.Alloc(old(allocator.View()), SLAB_DEFAULT_ORDER);
        if i < |old(heap)[c]| then
          && a == old(heap)[c][i].free[0] && a > 0 && heap == TakeFrom(old(heap), c, i)
          && allocator.View() == old(allocator.View())
        else if page.None? then a == 0 && heap == old(heap) && allocator.View() == pages
        else
          var g := AddSlab(old(heap), c, R.Addr(page.value));
          g[c][i].free != [] && a == g[c][i].free[0] && a > 0 && heap == TakeFrom(g, c, i) && allocator.View() == pages
    {
      hide HeapOk, AllShow, Tallied, R.Inv, BuddyOps.Alloc;
      HeapSize(heap);
      a := SlabAllocFromCache(c);
      if a != 0 {
        return;
      }
      ghost var page := BuddyOps.Alloc(allocator.View(), SLAB_DEFAULT_ORDER).0;
      SlabAddCacheFrame(c);
      HeapSize(heap);
      if page.Some? {
        NewSlabHasSlots(R.Addr(page.value), c);
        NewIsFirstFree(old(heap), c, R.Addr(page.value));
      }
      a := SlabAllocFromCache(c);
    }

    /** kmalloc: exactly the step on values, page allocator included, with a null pointer for no result. */
    method Kmalloc(size: nat) returns (a: nat)
      requires Valid() && Backed()
      modifies this`caches, this`totalSize, this`allocCount, this`mem, this`heap, this`live, allocator, allocator.order, allocator.uses, allocator.freeCount, allocator.nodes
      ensures Valid() && Backed()
      ensures var (r, after) := R.Obtain(old(Now()), size);
        Now() == after && a == (if r.Some? then r.value else 0) && (r.Some? <==> a > 0)
    {
      hide HeapOk, AllShow, Tallied, R.Inv, BuddyOps.Alloc, ClassFor, FirstFree;
      R.KmallocEffect(Now(), size);
      R.ObtainIs(Now(), size);
      HeapSize(heap);
      var i := 0;
      while i < |SIZES|
        invariant i <= |SIZES| && Valid() && Backed() && Now() == old(Now()) && heap == old(heap)
        invariant forall j :: 0 <= j < i ==> size > SIZES[j]
      {
        if size <= SIZES[i] {
          ClassIs(size, i);
          a := SlabMalloc(i);
          if a != 0 {
            live := live[a := size];
          }
          return;
        }
        i := i + 1;
      }
      ClassIs(size, i);
      return 0;
    }

    /** slab_cache_has_addr. */
    method SlabCacheHasAddr(c: nat, a: nat) returns (found: bool)
      requires Valid() && c < |heap|
      ensures found == CacheHasAddr(heap[c], a)
      ensures found <==> exists i :: 0 <= i < |heap[c]| && heap[c][i].base + HEADER <= a < heap[c][i].base + BLOCK
    {
      var i := 0;
      while i < |caches[c]|
        invariant i <= |caches[c]|
        invariant forall j :: 0 <= j < i ==> !HasAddr(heap[c][j], a)
      {
        assert Shows(mem, caches[c][i], heap[c][i]) by { assert InHeap(heap, c, i); }
        if caches[c][i].start <= a < caches[c][i].end {
          return true;
        }
        i := i + 1;
      }
      return false;
    }

    /** slab_free's inner loop: thread the object into the ascending free list. The pointer to a pointer is
        the address of a free object, or 0 for the header's own field. */
    method Thread(c: nat, i: nat, a: nat)
      requires Valid() && LiveIn(heap, c, i, a) && a > 0
      modifies this`caches, this`totalSize, this`allocCount, this`mem, this`heap
      ensures Valid()
      ensures heap == old(heap)[c := old(heap)[c][i := old(heap)[c][i].(free := Insert(old(heap)[c][i].free, a))]]
    {
      ShownAt(mem, caches, heap, c, i);
      var hd := caches[c][i];
      ghost var l := heap[c][i].free;
      var at, next := 0, hd.freeList;
      ghost var j := 0;
      assert l[0..] == l;
      while next != 0 && a >= next
        invariant j <= |l| && Chain(mem, next, l[j..])
        invariant if j == 0 then at == 0 else at == l[j - 1] && at > 0
        invariant forall k :: 0 <= k < j ==> l[k] <= a
        decreases |l| - j
      {
        assert l[j..][1..] == l[j + 1..] && next == l[j];
        at, next := next, mem[next];
        j := j + 1;
      }
      assert j < |l| ==> l[j] == next;
      hide HeapOk, AllShow, Chain, LiveIn, Insert;
      ThreadedShows(mem, caches, heap, c, i, a, j, at, next);
      mem := mem[a := next];
      hd := hd.(freeCount := hd.freeCount + 1);
      if at == 0 {
        hd := hd.(freeList := a);
      } else {
        mem := mem[at := a];
      }
      caches := caches[c := caches[c][i := hd]];
      heap := heap[c := heap[c][i := heap[c][i].(free := Insert(l, a))]];
    }

    /** slab_free, of an object of this cache in use or of an address in none of its slabs. */
    method SlabFree(c: nat, a: nat) returns (ok: bool)
      requires Valid() && c < |heap|
      requires (exists i: nat :: LiveIn(heap, c, i, a)) || FindSlab(heap[c], a) == |heap[c]|
      modifies this`caches, this`totalSize, this`allocCount, this`mem, this`heap
      ensures Valid()
      ensures ok <==> exists i :: 0 <= i < |old(heap)[c]| && old(heap)[c][i].base + HEADER <= a < old(heap)[c][i].base + HEADER + BLOCK
      ensures var i := FindSlab(old(heap)[c], a);
        && ok == (i < |old(heap)[c]|)
        && heap == if ok then old(heap)[c := old(heap)[c][i := old(heap)[c][i].(free := Insert(old(heap)[c][i].free, a))]] else old(heap)
    {
      var k := 0;
      while k < |caches[c]|
        invariant k <= |caches[c]| && Valid() && heap == old(heap) && caches == old(caches)
        invariant forall j :: 0 <= j < k ==> !InFreeRange(heap[c][j], a)
      {
        assert Shows(mem, caches[c][k], heap[c][k]) by { assert InHeap(heap, c, k); }
        if caches[c][k].start <= a < caches[c][k].start + BLOCK {
          assert InFreeRange(heap[c][k], a);
          assert FindSlab(heap[c], a) == k;
          ghost var i: nat :| LiveIn(heap, c, i, a);
          FreeFindsIssuer(heap, c, i, a);
          Thread(c, k, a);
          return true;
        }
        k := k + 1;
      }
      return false;
    }

    /** kfree, of an object that is held or of an address that no cache knows: exactly the step on values. */
    method Kfree(a: nat) returns (ok: bool)
      requires Valid() && Backed() && (a in live || FindCache(heap, a) == |heap|)
      modifies this`caches, this`totalSize, this`allocCount, this`mem, this`heap, this`live
      ensures Valid() && Backed() && Now() == R.Apply(old(Now()), R.Give(a)) && ok == (a in old(live))
    {
      hide HeapOk, AllShow, Tallied, R.Inv, Release, LiveIn;
      R.KfreeEffect(Now(), a);
      R.HeldIsIssued(Now(), a);
      ok := FreeObject(a);
      live := live - {a};
    }

    /** The body of kfree. */
    method FreeObject(a: nat) returns (ok: bool)
      requires Valid()
      requires (exists c: nat, i: nat :: LiveIn(heap, c, i, a)) || FindCache(heap, a) == |heap|
      modifies this`caches, this`totalSize, this`allocCount, this`mem, this`heap
      ensures Valid() && (ok, heap) == Release(old(heap), a)
    {
      var c := 0;
      while c < |SIZES|
        invariant c <= |SIZES| && Valid() && heap == old(heap)
        invariant forall d :: 0 <= d < c ==> !CacheHasAddr(heap[d], a)
      {
        var here := SlabCacheHasAddr(c, a);
        if here {
          assert FindCache(heap, a) == c;
          ghost var d: nat, i: nat :| LiveIn(heap, d, i, a);
          FreeFindsIssuer(heap, d, i, a);
          var _ := SlabFree(c, a);
          return true;
        }
        c := c + 1;
      }
      return false;
    }
  }

  /** The loop of slab_add_cache_frame that threads every object onto the free list. */
  method ThreadSlots(mem: map<nat, nat>, hd: Header, ghost base: nat) returns (hd': Header, mem': map<nat, nat>)
    requires hd.objectSize > 0 && hd.objectCount == Count(hd.objectSize) && hd.objectCount > 0 && hd.start == Start(base)
    requires base > 0
    ensures hd' == hd.(freeList := hd.start)
    ensures Chain(mem', hd'.freeList, AllSlots(base, hd.objectSize))
    ensures forall x :: x in mem && !IsSlot(base, hd.objectSize, x) ==> x in mem' && mem'[x] == mem[x]
  {
    var size := hd.objectSize;
    hd', mem' := hd, mem;
    var prev, cur, i := 0, hd.start, 0;
    while i < hd.objectCount
      invariant i <= hd.objectCount && cur == SlotAddr(base, size, i)
      invariant if i == 0 then prev == 0 else prev == SlotAddr(base, size, i - 1) && IsSlot(base, size, prev)
      invariant hd' == if i == 0 then hd else hd.(freeList := hd.start)
      invariant Linked(mem', base, size, i - 1)
      invariant forall x :: x in mem && !IsSlot(base, size, x) ==> x in mem' && mem'[x] == mem[x]
    {
      if prev != 0 {
        LinkNext(mem', base, size, i - 1, cur);
        mem' := mem'[prev := cur];
      } else {
        hd' := hd'.(freeList := cur);
      }
      NextSlot(base, size, i);
      prev := cur;
      cur := cur + size;
      i := i + 1;
    }
    LinkNext(mem', base, size, i - 1, 0);
    mem' := mem'[prev := 0];
    BuiltChain(mem', base, size, 0);
    assert AllSlots(base, size)[0..] == AllSlots(base, size);
  }

  lemma NextSlot(base: nat, size: nat, i: nat)
    requires size > 0 && i < Count(size)
    ensures IsSlot(base, size, SlotAddr(base, size, i))
    ensures SlotAddr(base, size, i) + size == SlotAddr(base, size, i + 1)
  {
  }

  lemma AddedShows(mem: map<nat, nat>, mem': map<nat, nat>, caches: seq<seq<Header>>, h: Heap, c: nat, hd: Header, base: nat)
    requires HeapOk(h) && AllShow(mem, caches, h) && c < |SIZES| && HeapOk(AddSlab(h, c, base))
    requires Shows(mem', hd, Slab(base, SIZES[c], AllSlots(base, SIZES[c])))
    requires forall x :: x in mem && !IsSlot(base, SIZES[c], x) ==> x in mem' && mem'[x] == mem[x]
    ensures AllShow(mem', caches[c := caches[c] + [hd]], AddSlab(h, c, base))
  {
    var g, i := AddSlab(h, c, base), |h[c]|;
    assert InHeap(g, c, i);
    forall x | x in mem && !SlotOf(g, c, i, x) ensures x in mem' && mem'[x] == mem[x] {
      assert !IsSlot(base, SIZES[c], x);
    }
    forall d: nat, j: nat | InHeap(g, d, j) ensures Shows(mem', caches[c := caches[c] + [hd]][d][j], g[d][j]) {
      if d != c || j != i {
        assert InHeap(h, d, j);
        OthersShow(mem, mem', caches[d][j], g, c, i, d, j);
      }
    }
  }

  lemma HeapSize(h: Heap)
    requires HeapOk(h)
    ensures |h| == |SIZES|
  {
  }

  lemma ClassIs(size: nat, i: nat)
    requires i <= |SIZES| && (i < |SIZES| ==> size <= SIZES[i]) && forall j :: 0 <= j < i ==> size > SIZES[j]
    ensures ClassFor(size) == i
  {
  }

  lemma NewIsFirstFree(h: Heap, c: nat, base: nat)
    requires c < |h| == |SIZES| && FirstFree(h[c]) == |h[c]| && AllSlots(base, SIZES[c]) != []
    ensures FirstFree(AddSlab(h, c, base)[c]) == |h[c]|
  {
    var g := AddSlab(h, c, base)[c];
    var r := FirstFree(g);
    assert g[|h[c]|].free != [];
    assert forall j :: 0 <= j < |h[c]| ==> g[j] == h[c][j] && h[c][j].free == [];
  }
}
