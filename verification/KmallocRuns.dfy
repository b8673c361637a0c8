/** kmalloc and kfree together with the page allocator under them, over whole runs. */
module KmallocRuns {
  import opened Kernel
  import opened Blocks
  import opened Slabs
  import opened Kmalloc
  import Buddy
  import BuddyOps

  /** The page allocator, the slab caches, and the sizes that callers asked for at the addresses they
      hold. The last has no counterpart in the source, which records no sizes. */
  datatype Memory = Memory(pages: Buddy.State, heap: Heap, live: map<nat, nat>)

  /** PAGE_VA: the kernel address of a page. */
  function Addr(p: nat): nat { KERNEL_START_VIRT + p * PAGE_SIZE }

  /** The block of a slab that starts at page `p`. */
  predicate SlabAt(h: Heap, c: nat, i: nat, p: nat) { InHeap(h, c, i) && h[c][i].base == Addr(p) }

  ghost predicate IsSlabBlock(h: Heap, b: Buddy.Block) {
    b.order == SLAB_DEFAULT_ORDER && exists c: nat, i: nat :: SlabAt(h, c, i, b.pfn)
  }

  /** Slab `i` of cache `c` lives in a block that the page allocator has handed out. */
  ghost predicate Backed(s: Buddy.State, h: Heap, c: nat, i: nat) {
    exists p: nat :: SlabAt(h, c, i, p) && Buddy.IsUsed(s, p, SLAB_DEFAULT_ORDER)
  }

  ghost predicate Issued(h: Heap, c: nat, a: nat) { exists i: nat :: LiveIn(h, c, i, a) }

  /** Exactly the addresses held by callers are handed out, each by the cache of the class it needs. */
  ghost predicate Ledger(h: Heap, live: map<nat, nat>) {
    && (forall a :: a in live ==> Issued(h, ClassFor(live[a]), a))
    && (forall c: nat, i: nat, a: nat :: LiveIn(h, c, i, a) ==> a in live)
  }

  ghost predicate Inv(m: Memory) {
    && Buddy.Inv(m.pages) && HeapOk(m.heap)
    && (forall c: nat, i: nat :: InHeap(m.heap, c, i) ==> Backed(m.pages, m.heap, c, i))
    && Ledger(m.heap, m.live)
  }

  // ---------------------------------------------------------------- steps

  /** kmalloc, kfree, and page_alloc and page_free called by others. */
  datatype Op = Get(size: nat) | Give(a: nat) | GetPages(k: nat) | GivePages(p: nat, k: nat)

  /** Callers free only what they hold, or an address that no cache knows; pages under a slab belong to it. */
  ghost predicate Enabled(m: Memory, op: Op) {
    match op
    case Get(_) => true
    case Give(a) => a in m.live || FindCache(m.heap, a) == |m.heap|
    case GetPages(_) => true
    case GivePages(p, k) => Buddy.IsUsed(m.pages, p, k) && !IsSlabBlock(m.heap, Buddy.Block(p, k))
  }

  /** Does this request make slab_malloc add a slab? */
  predicate NeedsSlab(h: Heap, size: nat)
    requires |h| == |SIZES|
  {
    var c := ClassFor(size);
    c < |SIZES| && FirstFree(h[c]) == |h[c]|
  }

  /** kmalloc, with the page_alloc of slab_add_cache_frame. */
  ghost function Obtain(m: Memory, size: nat): (r: (Option<nat>, Memory))
    requires Inv(m)
  {
    var (page, pages) := if NeedsSlab(m.heap, size) then BuddyOps.Alloc(m.pages, SLAB_DEFAULT_ORDER) else (None, m.pages);
    var (a, heap) := Malloc(m.heap, size, if page.Some? then Some(Addr(page.value)) else None);
    (a, Memory(pages, heap, if a.Some? then m.live[a.value := size] else m.live))
  }

  ghost function Apply(m: Memory, op: Op): Memory
    requires Inv(m) && Enabled(m, op)
  {
    match op
    case Get(size) => Obtain(m, size).1
    case Give(a) => m.(heap := Release(m.heap, a).1, live := m.live - {a})
    case GetPages(k) => m.(pages := BuddyOps.Alloc(m.pages, k).1)
    case GivePages(p, k) => m.(pages := BuddyOps.Free(m.pages, p, k))
  }

  // ---------------------------------------------------------------- pages and addresses

  lemma AddrOrder(p: nat, q: nat)
    ensures p < q ==> Addr(p) + PAGE_SIZE <= Addr(q)
    ensures Addr(p) == Addr(q) <==> p == q
  {
  }

  /** A block of sixteen pages starts at a multiple of its length in bytes. */
  lemma BlockAddress(p: nat)
    requires Aligned(p, SLAB_DEFAULT_ORDER)
    ensures Addr(p) > 0 && Addr(p) % BLOCK == 0
  {
    DownIsMultiple(p, SLAB_DEFAULT_ORDER);
    assert Size(SLAB_DEFAULT_ORDER) == 16;
    var q := ShiftRight(p, SLAB_DEFAULT_ORDER);
    assert Addr(p) == BLOCK * (49152 + q);
  }

  lemma SamePages(s: Buddy.State, t: Buddy.State, h: Heap)
    requires forall c: nat, i: nat :: InHeap(h, c, i) ==> Backed(s, h, c, i)
    requires forall c: nat, i: nat, p: nat :: SlabAt(h, c, i, p) && Buddy.IsUsed(s, p, SLAB_DEFAULT_ORDER) ==> Buddy.IsUsed(t, p, SLAB_DEFAULT_ORDER)
    ensures forall c: nat, i: nat :: InHeap(h, c, i) ==> Backed(t, h, c, i)
  {
    forall c: nat, i: nat | InHeap(h, c, i) ensures Backed(t, h, c, i) {
      var p: nat :| SlabAt(h, c, i, p) && Buddy.IsUsed(s, p, SLAB_DEFAULT_ORDER);
      assert SlabAt(h, c, i, p);
    }
  }

  /** A heap whose slabs start where those of `h` do. */
  lemma SameBases(s: Buddy.State, h: Heap, g: Heap)
    requires forall c: nat, i: nat :: InHeap(h, c, i) ==> Backed(s, h, c, i)
    requires forall c: nat, i: nat :: InHeap(g, c, i) ==> InHeap(h, c, i) && g[c][i].base == h[c][i].base
    ensures forall c: nat, i: nat :: InHeap(g, c, i) ==> Backed(s, g, c, i)
  {
    forall c: nat, i: nat | InHeap(g, c, i) ensures Backed(s, g, c, i) {
      var p: nat :| SlabAt(h, c, i, p) && Buddy.IsUsed(s, p, SLAB_DEFAULT_ORDER);
      assert SlabAt(g, c, i, p);
    }
  }

  // ---------------------------------------------------------------- kmalloc

  /** kmalloc fails exactly for requests above the largest class and when a new slab is needed but no block
      of sixteen pages can be had; otherwise the caller gets an address nobody held. */
  lemma KmallocEffect(m: Memory, size: nat)
    requires Inv(m)
    ensures var (a, n) := Obtain(m, size);
      && Inv(n)
      && (a.None? <==> size > SIZES[|SIZES| - 1] || (NeedsSlab(m.heap, size) && !BuddyOps.CanCarve(m.pages, SLAB_DEFAULT_ORDER)))
      && (a.None? ==> n == m)
      && (a.Some? ==> a.value !in m.live && n.live == m.live[a.value := size])
  {
    hide Buddy.Inv, HeapOk, Ledger, LiveIn, Malloc, FirstFree, BuddyOps.Alloc, BuddyOps.CanCarve;
    var (a, n) := Obtain(m, size);
    var c := ClassFor(size);
    MallocFails(m.heap, size);
    BuddyOps.AllocEffect(m.pages, SLAB_DEFAULT_ORDER);
    if NeedsSlab(m.heap, size) && BuddyOps.CanCarve(m.pages, SLAB_DEFAULT_ORDER) {
      var (page, pages) := BuddyOps.Alloc(m.pages, SLAB_DEFAULT_ORDER);
      NewSlabBacked(m, c, page.value, pages);
      MallocEffect(m.heap, size, Some(Addr(page.value)));
      MallocBases(m.heap, size, Some(Addr(page.value)));
      SameBases(pages, AddSlab(m.heap, c, Addr(page.value)), n.heap);
    } else {
      MallocEffect(m.heap, size, None);
      MallocBases(m.heap, size, None);
      SameBases(m.pages, m.heap, n.heap);
    }
    if a.Some? {
      LedgerGrows(m.heap, n.heap, m.live, size, FirstFree(m.heap[c]), a.value);
    }
  }

  /** A block that page_alloc gives can take a new slab. */
  lemma BlockForSlab(m: Memory, c: nat)
    requires Inv(m) && c < |SIZES|
    ensures var (page, pages) := BuddyOps.Alloc(m.pages, SLAB_DEFAULT_ORDER);
      page.Some? ==>
        && Addr(page.value) > 0 && Addr(page.value) % BLOCK == 0
        && forall d: nat, j: nat :: InHeap(m.heap, d, j) ==> m.heap[d][j].base != Addr(page.value)
  {
    hide Buddy.Inv, HeapOk, Ledger, BuddyOps.Alloc;
    BuddyOps.AllocEffect(m.pages, SLAB_DEFAULT_ORDER);
    var (page, pages) := BuddyOps.Alloc(m.pages, SLAB_DEFAULT_ORDER);
    if page.Some? {
      NewSlabBacked(m, c, page.value, pages);
    }
  }

  /** kmalloc case by case. */
  lemma ObtainIs(m: Memory, size: nat)
    requires Inv(m)
    ensures |m.heap| == |SIZES|
    ensures var c := ClassFor(size);
      if c == |SIZES| then Obtain(m, size) == (None, m)
      else
        var i := FirstFree(m.heap[c]);
        var (page, pages) := BuddyOps.Alloc(m.pages, SLAB_DEFAULT_ORDER);
        if i < |m.heap[c]| then
          var a := m.heap[c][i].free[0];
          Obtain(m, size) == (Some(a), Memory(m.pages, TakeFrom(m.heap, c, i), m.live[a := size]))
        else if page.None? then Obtain(m, size) == (None, Memory(pages, m.heap, m.live))
        else
          var g := AddSlab(m.heap, c, Addr(page.value));
          g[c][i].free != [] && var a := g[c][i].free[0];
          Obtain(m, size) == (Some(a), Memory(pages, TakeFrom(g, c, i), m.live[a := size]))
  {
    hide Buddy.Inv, BuddyOps.Alloc;
    var page := BuddyOps.Alloc(m.pages, SLAB_DEFAULT_ORDER).0;
    if ClassFor(size) < |SIZES| && page.Some? {
      NewSlabHasSlots(Addr(page.value), ClassFor(size));
    }
  }

  lemma HeldIsIssued(m: Memory, a: nat)
    requires Inv(m)
    ensures a in m.live ==> exists c: nat, i: nat :: LiveIn(m.heap, c, i, a)
  {
    if a in m.live {
      var i: nat :| LiveIn(m.heap, ClassFor(m.live[a]), i, a);
    }
  }

  lemma MallocFails(h: Heap, size: nat)
    requires HeapOk(h)
    ensures |h| == |SIZES|
    ensures ClassFor(size) == |SIZES| <==> size > SIZES[|SIZES| - 1]
    ensures Malloc(h, size, None).0.None? <==> ClassFor(size) == |SIZES| || NeedsSlab(h, size)
    ensures forall b :: Malloc(h, size, Some(b)).0.None? <==> ClassFor(size) == |SIZES|
  {
  }

  /** The slabs after kmalloc: those there were and, if one was needed, a new one at the end. */
  lemma MallocBases(h: Heap, size: nat, block: Option<nat>)
    requires HeapOk(h)
    ensures var c := ClassFor(size);
      var f, g := if block.Some? && NeedsSlab(h, size) then AddSlab(h, c, block.value) else h, Malloc(h, size, block).1;
      forall d: nat, j: nat :: InHeap(g, d, j) ==> InHeap(f, d, j) && g[d][j].base == f[d][j].base
  {
  }

  lemma NewSlabBacked(m: Memory, c: nat, p: nat, pages: Buddy.State)
    requires Inv(m) && c < |SIZES| && Aligned(p, SLAB_DEFAULT_ORDER) && !Buddy.IsUsed(m.pages, p, SLAB_DEFAULT_ORDER)
    requires pages.used == m.pages.used + {Buddy.Block(p, SLAB_DEFAULT_ORDER)}
    ensures Addr(p) > 0 && Addr(p) % BLOCK == 0
    ensures forall d: nat, j: nat :: InHeap(m.heap, d, j) ==> m.heap[d][j].base != Addr(p)
    ensures var g := AddSlab(m.heap, c, Addr(p));
      forall d: nat, j: nat :: InHeap(g, d, j) ==> Backed(pages, g, d, j)
  {
    var h, g := m.heap, AddSlab(m.heap, c, Addr(p));
    BlockAddress(p);
    forall d: nat, j: nat | InHeap(h, d, j) ensures h[d][j].base != Addr(p) {
      var q: nat :| SlabAt(h, d, j, q) && Buddy.IsUsed(m.pages, q, SLAB_DEFAULT_ORDER);
      AddrOrder(p, q);
    }
    forall d: nat, j: nat | InHeap(g, d, j) ensures Backed(pages, g, d, j) {
      if InHeap(h, d, j) {
        var q: nat :| SlabAt(h, d, j, q) && Buddy.IsUsed(m.pages, q, SLAB_DEFAULT_ORDER);
        assert SlabAt(g, d, j, q);
      } else {
        assert SlabAt(g, d, j, p);
      }
    }
  }

  lemma LedgerGrows(h: Heap, g: Heap, live: map<nat, nat>, size: nat, i: nat, a: nat)
    requires Ledger(h, live) && ClassFor(size) < |SIZES|
    requires forall d: nat, j: nat, b: nat :: LiveIn(g, d, j, b) <==> LiveIn(h, d, j, b) || (d == ClassFor(size) && j == i && b == a)
    requires forall d: nat, j: nat :: !LiveIn(h, d, j, a)
    ensures a !in live && Ledger(g, live[a := size])
  {
    hide ClassFor, LiveIn;
    forall b | b in live ensures b != a && Issued(g, ClassFor(live[b]), b) {
      var j: nat :| LiveIn(h, ClassFor(live[b]), j, b);
      assert LiveIn(g, ClassFor(live[b]), j, b);
    }
    assert LiveIn(g, ClassFor(size), i, a);
  }

  // ---------------------------------------------------------------- kfree

  /** kfree of a held address gives up exactly that address; an unknown address changes nothing. */
  lemma KfreeEffect(m: Memory, a: nat)
    requires Inv(m) && Enabled(m, Give(a))
    ensures Release(m.heap, a).0 <==> a in m.live
    ensures Inv(Apply(m, Give(a)))
    ensures a !in m.live ==> Apply(m, Give(a)) == m
  {
    hide Buddy.Inv, HeapOk, LiveIn, Release, ClassFor, FindCache;
    var n := Apply(m, Give(a));
    if a in m.live {
      var c := ClassFor(m.live[a]);
      var i: nat :| LiveIn(m.heap, c, i, a);
      ReleaseEffect(m.heap, c, i, a);
      ReleaseBases(m.heap, a);
      SameBases(m.pages, m.heap, n.heap);
      KnownToCache(m.heap, c, i, a);
      LedgerShrinks(m.heap, n.heap, m.live, a);
    } else {
      ReleaseBases(m.heap, a);
      assert n.live == m.live;
    }
  }

  lemma KnownToCache(h: Heap, c: nat, i: nat, a: nat)
    requires HeapOk(h) && LiveIn(h, c, i, a)
    ensures FindCache(h, a) < |h|
  {
    FreeFindsIssuer(h, c, i, a);
  }

  lemma ReleaseBases(h: Heap, a: nat)
    ensures var g := Release(h, a).1;
      forall d: nat, j: nat :: InHeap(g, d, j) ==> InHeap(h, d, j) && g[d][j].base == h[d][j].base
    ensures FindCache(h, a) == |h| ==> Release(h, a) == (false, h)
  {
  }

  lemma LedgerShrinks(h: Heap, g: Heap, live: map<nat, nat>, a: nat)
    requires Ledger(h, live)
    requires forall d: nat, j: nat, b: nat :: LiveIn(g, d, j, b) <==> LiveIn(h, d, j, b) && b != a
    ensures Ledger(g, live - {a})
  {
    forall b | b in live - {a} ensures Issued(g, ClassFor(live[b]), b) {
      var j: nat :| LiveIn(h, ClassFor(live[b]), j, b);
      assert LiveIn(g, ClassFor(live[b]), j, b);
    }
  }

  // ---------------------------------------------------------------- with other users of the page allocator

  /** The blocks of all slabs are among those of `o`. */
  ghost predicate SlabsIn(h: Heap, o: set<Buddy.Block>) {
    forall c: nat, i: nat, p: nat :: SlabAt(h, c, i, p) ==> Buddy.Block(p, SLAB_DEFAULT_ORDER) in o
  }

  /** Whatever others do to the page allocator, the caches are sound as long as it leaves the slabs in use. */
  lemma PagesFollow(m: Memory, t: Buddy.State, o: set<Buddy.Block>)
    requires Inv(m) && Buddy.Inv(t) && SlabsIn(m.heap, o) && o <= t.used
    ensures Inv(m.(pages := t))
  {
    hide Buddy.Inv, HeapOk, Ledger;
    SamePages(m.pages, t, m.heap);
  }

  /** The blocks that others hold, with the one that kmalloc took for a new slab. */
  ghost function HeldAfter(m: Memory, size: nat, o: set<Buddy.Block>): set<Buddy.Block>
    requires Inv(m)
  {
    var page := BuddyOps.Alloc(m.pages, SLAB_DEFAULT_ORDER).0;
    if NeedsSlab(m.heap, size) && page.Some? then o + {Buddy.Block(page.value, SLAB_DEFAULT_ORDER)} else o
  }

  lemma ObtainPages(m: Memory, size: nat)
    requires Inv(m)
    ensures |m.heap| == |SIZES|
    ensures var (page, pages) := BuddyOps.Alloc(m.pages, SLAB_DEFAULT_ORDER);
      && Obtain(m, size).1.pages == (if NeedsSlab(m.heap, size) then pages else m.pages)
      && (NeedsSlab(m.heap, size) && Obtain(m, size).0.Some? ==> page.Some?)
  {
    hide Buddy.Inv, Ledger, BuddyOps.Alloc, FirstFree, ClassFor;
    MallocFails(m.heap, size);
  }

  lemma ObtainSlabs(m: Memory, size: nat, o: set<Buddy.Block>)
    requires Inv(m) && SlabsIn(m.heap, o)
    ensures SlabsIn(Obtain(m, size).1.heap, HeldAfter(m, size, o))
  {
    hide Buddy.Inv, HeapOk, Ledger, BuddyOps.Alloc, FirstFree, ClassFor;
    MallocFails(m.heap, size);
    var page := BuddyOps.Alloc(m.pages, SLAB_DEFAULT_ORDER).0;
    var block := if NeedsSlab(m.heap, size) && page.Some? then Some(Addr(page.value)) else None;
    MallocBases(m.heap, size, block);
    var g, c := Obtain(m, size).1.heap, ClassFor(size);
    forall d: nat, j: nat, p: nat | SlabAt(g, d, j, p)
      ensures Buddy.Block(p, SLAB_DEFAULT_ORDER) in HeldAfter(m, size, o)
    {
      if block.Some? {
        if InHeap(m.heap, d, j) {
          assert SlabAt(m.heap, d, j, p);
        } else {
          AddrOrder(p, page.value);
        }
      } else {
        assert SlabAt(m.heap, d, j, p);
      }
    }
  }

  lemma ReleaseSlabs(h: Heap, a: nat, o: set<Buddy.Block>)
    requires SlabsIn(h, o)
    ensures SlabsIn(Release(h, a).1, o)
  {
    ReleaseBases(h, a);
    var g := Release(h, a).1;
    forall c: nat, i: nat, p: nat | SlabAt(g, c, i, p) ensures Buddy.Block(p, SLAB_DEFAULT_ORDER) in o {
      assert SlabAt(h, c, i, p);
    }
  }

  /** kfree of what kmalloc gave puts the caches back as they were, but for a slab that had to be added. */
  lemma GetGive(m: Memory, size: nat)
    requires Inv(m) && Obtain(m, size).0.Some?
    ensures var (a, n) := Obtain(m, size); var page := BuddyOps.Alloc(m.pages, SLAB_DEFAULT_ORDER).0;
      && |m.heap| == |SIZES| && ClassFor(size) < |SIZES| && (NeedsSlab(m.heap, size) ==> page.Some?)
      && Release(n.heap, a.value).1 ==
           (if NeedsSlab(m.heap, size) then AddSlab(m.heap, ClassFor(size), Addr(page.value)) else m.heap)
      && n.live - {a.value} == m.live
  {
    hide Buddy.Inv, Ledger, BuddyOps.Alloc, FirstFree, ClassFor, HeapOk;
    KmallocEffect(m, size);
    MallocFails(m.heap, size);
    ObtainIs(m, size);
    var (a, n) := Obtain(m, size);
    var page := BuddyOps.Alloc(m.pages, SLAB_DEFAULT_ORDER).0;
    var c := ClassFor(size);
    ClassBound(size);
    var i := FirstFree(m.heap[c]);
    if NeedsSlab(m.heap, size) {
      var pages := BuddyOps.Alloc(m.pages, SLAB_DEFAULT_ORDER).1;
      BlockForSlab(m, c);
      AddSlabKeepsHeap(m.heap, c, Addr(page.value));
      TakePutBack(AddSlab(m.heap, c, Addr(page.value)), c, i);
    } else {
      TakePutBack(m.heap, c, i);
    }
    assert n.live - {a.value} == m.live;
  }

  lemma ClassBound(size: nat)
    ensures ClassFor(size) <= |SIZES|
  {
  }

  lemma TakePutBack(h: Heap, c: nat, i: nat)
    requires HeapOk(h) && InHeap(h, c, i) && h[c][i].free != []
    ensures Release(TakeFrom(h, c, i), h[c][i].free[0]).1 == h
  {
    var g, s := TakeFrom(h, c, i), h[c][i];
    var a := s.free[0];
    TakeEffect(h, c, i);
    FreeFindsIssuer(g, c, i, a);
    assert Placed(s, c);
    assert Insert(s.free[1..], a) == s.free by {
      assert s.free == [a] + s.free[1..];
    }
    assert Release(g, a).1[c] == h[c];
  }

  // ---------------------------------------------------------------- runs

  lemma StepKeepsInv(m: Memory, op: Op)
    requires Inv(m) && Enabled(m, op)
    ensures Inv(Apply(m, op))
  {
    match op
    case Get(size) => KmallocEffect(m, size);
    case Give(a) => KfreeEffect(m, a);
    case GetPages(k) =>
      BuddyOps.AllocEffect(m.pages, k);
      SamePages(m.pages, BuddyOps.Alloc(m.pages, k).1, m.heap);
    case GivePages(p, k) =>
      BuddyOps.FreeEffect(m.pages, p, k);
      SamePages(m.pages, BuddyOps.Free(m.pages, p, k), m.heap);
  }

  ghost predicate Legal(m: Memory, ops: seq<Op>)
    requires Inv(m)
    decreases |ops|
  {
    ops != [] ==> Enabled(m, ops[0]) && (StepKeepsInv(m, ops[0]); Legal(Apply(m, ops[0]), ops[1..]))
  }

  ghost function Run(m: Memory, ops: seq<Op>): Memory
    requires Inv(m) && Legal(m, ops)
    decreases |ops|
  {
    if ops == [] then m else
      StepKeepsInv(m, ops[0]);
      Run(Apply(m, ops[0]), ops[1..])
  }

  lemma {:induction false} RunKeepsInv(m: Memory, ops: seq<Op>)
    requires Inv(m) && Legal(m, ops)
    ensures Inv(Run(m, ops))
    decreases |ops|
  {
    if ops != [] {
      StepKeepsInv(m, ops[0]);
      RunKeepsInv(Apply(m, ops[0]), ops[1..]);
    }
  }

  /** At boot every cache is empty. */
  lemma BootInv(s: Buddy.State)
    requires Buddy.Inv(s)
    ensures Inv(Memory(s, seq(|SIZES|, _ => []), map[]))
  {
  }

  // ---------------------------------------------------------------- safety

  /** Two byte ranges do not meet. */
  predicate Clear(a: nat, m: nat, b: nat, n: nat) { a + m <= b || b + n <= a }

  /** The bytes set aside for a request: the whole slot. */
  function Extent(size: nat): nat {
    if ClassFor(size) < |SIZES| then SIZES[ClassFor(size)] else size
  }

  /** After any run: an object is at least as long as asked for and comes from the smallest class that
      fits, and objects at different addresses do not overlap. */
  lemma AllocationsSafe(m: Memory, ops: seq<Op>, a: nat, b: nat)
    requires Inv(m) && Legal(m, ops)
    requires a in Run(m, ops).live && b in Run(m, ops).live
    ensures var live := Run(m, ops).live;
      && Extent(live[a]) in SIZES && live[a] <= Extent(live[a])
      && (forall n :: n in SIZES && live[a] <= n ==> Extent(live[a]) <= n)
      && (a != b ==> Clear(a, Extent(live[a]), b, Extent(live[b])))
  {
    hide Buddy.Inv, SIZES;
    RunKeepsInv(m, ops);
    var n := Run(m, ops);
    var c, d := ClassFor(n.live[a]), ClassFor(n.live[b]);
    var i: nat :| LiveIn(n.heap, c, i, a);
    var j: nat :| LiveIn(n.heap, d, j, b);
    SmallestFit(n.live[a]);
    if a != b {
      ObjectsDisjoint(n.heap, c, i, a, d, j, b);
    }
  }

  /** The size classes are the powers of two from 8 to 32768: a request gets the least of them that holds it, and
      fails exactly above the last. */
  lemma PowerOfTwo(size: nat) returns (k: nat)
    ensures ClassFor(size) == |SIZES| <==> size > 32768
    ensures size <= 32768 ==> 3 <= k <= 15 && Extent(size) == Size(k) && size <= Size(k) && (k == 3 || Size(k - 1) < size)
  {
    k := ClassFor(size) + 3;
    PowersTo15();
    if size > 32768 {
      assert forall i :: 0 <= i < |SIZES| ==> SIZES[i] < size;
    } else {
      assert size <= SIZES[12];
      var c := ClassFor(size);
      assert c > 0 ==> SIZES[c - 1] < size && SIZES[c - 1] == Size(c - 1 + 3);
    }
  }

  lemma PowersTo15()
    ensures forall i :: 0 <= i < |SIZES| ==> SIZES[i] == Size(i + 3)
    ensures forall i :: 0 <= i < |SIZES| ==> SIZES[i] <= 32768
  {
    assert Size(0) == 1 && Size(1) == 2 && Size(2) == 4 && Size(3) == 8;
    var p := seq(16, i requires 0 <= i => Size(i));
    assert forall i :: 0 <= i < 15 ==> p[i + 1] == 2 * p[i];
    assert p[4] == 16 && p[5] == 32 && p[6] == 64 && p[7] == 128 && p[8] == 256 && p[9] == 512;
    assert p[10] == 1024 && p[11] == 2048 && p[12] == 4096 && p[13] == 8192 && p[14] == 16384 && p[15] == 32768;
    forall i | 0 <= i < |SIZES| ensures SIZES[i] == p[i + 3] {
    }
  }

  lemma SmallestFit(size: nat)
    requires ClassFor(size) < |SIZES|
    ensures Extent(size) in SIZES && size <= Extent(size)
    ensures forall n :: n in SIZES && size <= n ==> Extent(size) <= n
  {
    var c := ClassFor(size);
    assert forall i :: 0 <= i < c ==> SIZES[i] < size;
    forall i | c <= i < |SIZES| ensures SIZES[c] <= SIZES[i] {
    }
  }

  /** After any run, an object stays clear of every block that the page allocator handed to others and of
      every free page. */
  lemma ObjectsOffOtherPages(m: Memory, ops: seq<Op>, a: nat, x: nat)
    requires Inv(m) && Legal(m, ops) && a in Run(m, ops).live
    requires !Clear(a, Extent(Run(m, ops).live[a]), Addr(x), PAGE_SIZE)
    ensures var n := Run(m, ops);
      && x !in Buddy.FreePages(n.pages)
      && forall k: nat :: Buddy.IsUsed(n.pages, Down(x, k), k) ==> IsSlabBlock(n.heap, Buddy.Block(Down(x, k), k))
  {
    RunKeepsInv(m, ops);
    var n := Run(m, ops);
    var c := ClassFor(n.live[a]);
    var i: nat :| LiveIn(n.heap, c, i, a);
    var p: nat :| SlabAt(n.heap, c, i, p) && Buddy.IsUsed(n.pages, p, SLAB_DEFAULT_ORDER);
    SlotBounds(Addr(p), SIZES[c], a);
    assert Buddy.IsBlock(n.pages, p, SLAB_DEFAULT_ORDER);
    assert Size(SLAB_DEFAULT_ORDER) == 16;
    assert p <= x < p + 16;
    InBlock(x, p, SLAB_DEFAULT_ORDER);
    OnlyCover(n.pages, x, SLAB_DEFAULT_ORDER);
  }

  /** The block in use that covers a page is its only cover. */
  lemma OnlyCover(s: Buddy.State, x: nat, k: nat)
    requires Buddy.Inv(s) && Buddy.IsUsed(s, Down(x, k), k)
    ensures x !in Buddy.FreePages(s)
    ensures forall j: nat :: Buddy.IsUsed(s, Down(x, j), j) ==> j == k
  {
    assert Buddy.CoveredAt(s, x, k);
    forall j: nat | Buddy.IsBlock(s, Down(x, j), j) ensures j == k {
      assert Buddy.CoveredAt(s, x, j);
    }
    forall j: nat ensures !Buddy.FreeAt(s, x, j) {
      if Buddy.FreeAt(s, x, j) {
        assert Buddy.IsBlock(s, Down(x, j), j);
      }
    }
  }

  /** Once every object has been given back, in whatever order, each slab's free list is the one it
      started with. */
  lemma AllGivenBack(m: Memory, ops: seq<Op>, c: nat, i: nat)
    requires Inv(m) && Legal(m, ops) && Run(m, ops).live == map[]
    requires InHeap(Run(m, ops).heap, c, i)
    ensures var s := Run(m, ops).heap[c][i]; s.size > 0 && s.free == AllSlots(s.base, s.size)
  {
    RunKeepsInv(m, ops);
    var h := Run(m, ops).heap;
    assert Placed(h[c][i], c);
    forall a: nat ensures !Live(h[c][i], a) {
      assert !LiveIn(h, c, i, a);
    }
    AllFreeIsInitial(h[c][i]);
  }
}
