/** kernel/mm/vm.c together with the slab caches: an address space is an object from kmalloc and a tree of page
    tables, both of which take their memory from the same page allocator. */
module SpaceLife {
  import opened Kernel
  import opened Frames
  import opened PageTables
  import opened RefCounts
  import opened PtableOps
  import opened VmSpaces
  import Sequences
  import K = Kmalloc
  import R = KmallocRuns
  import Heaps = KernelHeap
  import Buddy
  import BuddyOps
  import BuddyCanonical

  const VM_SPACE_SIZE: nat := 16   // sizeof(struct vm_space)

  // ---------------------------------------------------------------- on values

  /** The pool that the page tables see once kmalloc has served the object. */
  ghost function PoolAfter(p: Pool, m: R.Memory): Pool
    requires R.Inv(m)
  {
    p.(free := Buddy.FreePages(R.Obtain(m, VM_SPACE_SIZE).1.pages))
  }

  /** kmalloc leaves the frames of the page tables alone; if it adds a slab, free frames become its block. */
  lemma ObjectTaken(m: R.Memory, p: Pool, o: set<Buddy.Block>)
    requires R.Inv(m) && Shows(m.pages, p, o) && R.SlabsIn(m.heap, o)
    ensures var n, q, h := R.Obtain(m, VM_SPACE_SIZE).1, PoolAfter(p, m), R.HeldAfter(m, VM_SPACE_SIZE, o);
      && Shows(n.pages, q, h) && R.SlabsIn(n.heap, h) && o <= h && q.free <= p.free
      && (R.NeedsSlab(m.heap, VM_SPACE_SIZE) && R.Obtain(m, VM_SPACE_SIZE).0.Some? ==> q.free != p.free)
  {
    hide R.Inv, BuddyOps.Alloc, Buddy.FreePages, K.FirstFree, K.ClassFor, R.Obtain;
    R.ObtainSlabs(m, VM_SPACE_SIZE, o);
    OthersTake(m.pages, p, o, K.SLAB_DEFAULT_ORDER);
    R.ObtainPages(m, VM_SPACE_SIZE);
    PoolIs(m.pages, p, o);
    var n, h := R.Obtain(m, VM_SPACE_SIZE).1, R.HeldAfter(m, VM_SPACE_SIZE, o);
    var page := BuddyOps.Alloc(m.pages, K.SLAB_DEFAULT_ORDER).0;
    if R.NeedsSlab(m.heap, VM_SPACE_SIZE) && page.Some? {
      PoolIs(n.pages, p.(free := p.free - Buddy.PagesOf(page.value, K.SLAB_DEFAULT_ORDER)), h);
    }
  }

  lemma PoolIs(s: Buddy.State, p: Pool, o: set<Buddy.Block>)
    requires Shows(s, p, o)
    ensures p.free == Buddy.FreePages(s)
  {
  }

  /** From vm_space_new to vm_space_destroy, the object included: the free pages of the page allocator are back
      to what they were, and each of its seven lists has the members it had, if and only if no page faulted
      twice and kmalloc had a free slot for the object. A slab added for it stays. */
  lemma LifetimeExact(m: R.Memory, p: Pool, l: Ledger, o: set<Buddy.Block>, d: nat, fs: seq<Fault>, z: Snapshot, b: Buddy.State)
    requires R.Inv(m) && Shows(m.pages, p, o) && R.SlabsIn(m.heap, o) && R.Obtain(m, VM_SPACE_SIZE).0.Some?
    requires Lived(Snapshot(PoolAfter(p, m), l), d, fs, z) && Shows(b, z.pool, R.HeldAfter(m, VM_SPACE_SIZE, o))
    ensures |m.heap| == |K.SIZES| && z.ledger == l
    ensures Buddy.FreePages(b) == Buddy.FreePages(m.pages) <==> Sequences.NoDup(Pages(fs)) && !R.NeedsSlab(m.heap, VM_SPACE_SIZE)
    ensures BuddyCanonical.SameLists(m.pages, b) <==> Sequences.NoDup(Pages(fs)) && !R.NeedsSlab(m.heap, VM_SPACE_SIZE)
  {
    hide R.Obtain, R.Inv, BuddyOps.Alloc, Buddy.FreePages, Lived, K.FirstFree, K.ClassFor, Pages, BuddyCanonical.SameLists, Shows;
    ObjectTaken(m, p, o);
    R.ObtainPages(m, VM_SPACE_SIZE);
    var n, q, h := R.Obtain(m, VM_SPACE_SIZE).1, PoolAfter(p, m), R.HeldAfter(m, VM_SPACE_SIZE, o);
    LifetimeConserves(Snapshot(q, l), d, fs, z);
    LifetimeRestoresLists(Snapshot(q, l), d, fs, z, n.pages, b, h);
    PoolIs(m.pages, p, o);
    PoolIs(n.pages, q, h);
    PoolIs(b, z.pool, h);
    ShownInv(m.pages, p, o);
    ShownInv(b, z.pool, h);
    BuddyCanonical.ListsIffFreePages(m.pages, b);
  }

  lemma ShownInv(s: Buddy.State, p: Pool, o: set<Buddy.Block>)
    requires Shows(s, p, o)
    ensures Buddy.Inv(s) && o <= s.used
  {
  }

  lemma CountedPool(p: Pool, q: Pool, l: Ledger)
    requires Counted(p, l) && q.uses == p.uses && q.free <= p.free
    ensures Counted(q, l)
  {
  }

  // ---------------------------------------------------------------- page tables and slab caches together

  /** The page tables and the slab caches work on one page allocator, and each knows the other's blocks as taken. */
  ghost predicate Joined(tables: PageTableMemory, heap: Heaps.KernelHeap)
    reads tables, heap, tables.allocator, tables.allocator.order, tables.allocator.invalid, tables.allocator.uses
    reads tables.allocator.freeCount, tables.allocator.nodes
  {
    && heap.allocator == tables.allocator
    && tables.Wired() && tables.Backed() && heap.Valid() && heap.Backed() && R.SlabsIn(heap.heap, tables.outside)
  }

  /** After the page tables have used the page allocator the caches are still sound. */
  lemma HeapFollows(tables: PageTableMemory, heap: Heaps.KernelHeap, m: R.Memory)
    requires heap.allocator == tables.allocator && tables.Backed()
    requires R.Inv(m) && heap.heap == m.heap && heap.live == m.live && R.SlabsIn(m.heap, tables.outside)
    ensures heap.Backed()
  {
    hide R.Inv, Shows;
    tables.BackedShows();
    ShownInv(tables.allocator.View(), tables.pool, tables.outside);
    R.PagesFollow(m, tables.allocator.View(), tables.outside);
  }

  /** vm_space_new: no space without memory for the object; otherwise an empty directory. There is a page for
      that, as the source does not look. */
  method VmSpaceNew(tables: PageTableMemory, heap: Heaps.KernelHeap) returns (space: AddressSpace?)
    requires Joined(tables, heap) && Counted(tables.pool, tables.ledger)
    requires Buddy.FreePages(R.Obtain(heap.Now(), VM_SPACE_SIZE).1.pages) != {}
    modifies tables, heap, tables.allocator, tables.allocator.order, tables.allocator.uses, tables.allocator.freeCount, tables.allocator.nodes
    ensures Joined(tables, heap) && Counted(tables.pool, tables.ledger)
    ensures var (a, n) := R.Obtain(old(heap.Now()), VM_SPACE_SIZE);
      && heap.heap == n.heap && heap.live == n.live && (space == null <==> a.None?)
      && (space == null ==> heap.Now() == old(heap.Now()) && tables.ledger == old(tables.ledger))
      && (space != null ==>
            && fresh(space) && space.tables == tables && space.self == a.value && space.mappings == []
            && space.Valid() && Private(tables.ledger, space.pgd)
            && space.pgd in PoolAfter(old(tables.pool), old(heap.Now())).free
            && space.Now() == Born(Snapshot(PoolAfter(old(tables.pool), old(heap.Now())), old(tables.ledger)), space.pgd)
            && tables.outside == R.HeldAfter(old(heap.Now()), VM_SPACE_SIZE, old(tables.outside)))
  {
    hide Agree, Counted, Private, PageTableMemory.Backed, Shows, Born;
    hide K.HeapOk, Heaps.AllShow, Heaps.Tallied, R.Inv, BuddyOps.Alloc, R.Obtain, R.SlabsIn, R.HeldAfter, Buddy.FreePages;
    ghost var m, p, o := heap.Now(), tables.pool, tables.outside;
    tables.BackedShows();
    ObjectTaken(m, p, o);
    R.KmallocEffect(m, VM_SPACE_SIZE);
    var a := heap.Kmalloc(VM_SPACE_SIZE);
    ghost var q := PoolAfter(p, m);
    FreeableKept(tables, p, q);
    tables.Follow(q, R.HeldAfter(m, VM_SPACE_SIZE, o));
    CountedPool(p, q, tables.ledger);
    if a == 0 {
      return null;
    }
    ghost var n := heap.Now();
    space := new AddressSpace(tables, a);
    HeapFollows(tables, heap, n);
  }

  lemma FreeableKept(tables: PageTableMemory, p: Pool, q: Pool)
    requires Freeable(p, tables.allocator.kernelStart, tables.allocator.kernelEnd) && q.uses == p.uses && q.free <= p.free
    ensures Freeable(q, tables.allocator.kernelStart, tables.allocator.kernelEnd)
  {
  }

  /** vm_space_destroy: the page tables go, and then the object. */
  method VmSpaceDestroy(space: AddressSpace, heap: Heaps.KernelHeap)
    requires Joined(space.tables, heap) && space.Valid() && space.self in heap.live
    modifies space.tables`pool, space.tables`ledger, heap, space.tables.allocator, space.tables.allocator.order, space.tables.allocator.uses, space.tables.allocator.freeCount, space.tables.allocator.nodes
    ensures Joined(space.tables, heap) && Counted(space.tables.pool, space.tables.ledger)
    ensures space.tables.ledger == WithoutDir(old(space.tables.ledger), space.pgd)
    ensures Settled(old(space.tables.pool), old(space.tables.ledger), space.tables.pool, space.tables.ledger)
    ensures heap.heap == K.Release(old(heap.heap), space.self).1 && heap.live == old(heap.live) - {space.self}
  {
    hide Agree, Counted, Settled, WithoutDir, PageTableMemory.Backed, Shows;
    hide K.HeapOk, Heaps.AllShow, Heaps.Tallied, R.Inv, K.Release, R.SlabsIn;
    ghost var m := heap.Now();
    space.FreeTables();
    HeapFollows(space.tables, heap, m);
    R.ReleaseSlabs(heap.heap, space.self, space.tables.outside);
    var _ := heap.Kfree(space.self);
  }

  /** From the first mapping to the end: all that an address space does in its life. */
  method LiveAndDie(space: AddressSpace, heap: Heaps.KernelHeap, maps: seq<VmMap>, addrs: seq<nat>, ghost s: Snapshot)
    returns (ghost fs: seq<Fault>)
    requires Joined(space.tables, heap) && space.Valid() && space.self in heap.live && space.mappings == []
    requires Counted(s.pool, s.ledger) && Keyed(s.ledger) && space.pgd in s.pool.free && space.Now() == Born(s, space.pgd)
    requires Private(space.tables.ledger, space.pgd) && |space.tables.pool.free| > 2 * |addrs|
    requires forall i :: 0 <= i < |addrs| ==> addrs[i] < KERNEL_START_VIRT
    modifies space`mappings, space.tables`pool, space.tables`memory, space.tables`ledger, heap, space.tables.allocator, space.tables.allocator.order, space.tables.allocator.uses, space.tables.allocator.freeCount, space.tables.allocator.nodes
    ensures Joined(space.tables, heap) && Counted(space.tables.pool, space.tables.ledger)
    ensures Lived(s, space.pgd, fs, Snapshot(space.tables.pool, space.tables.ledger)) && Pages(fs) == Touched(maps, addrs)
    ensures heap.heap == K.Release(old(heap.heap), space.self).1 && heap.live == old(heap.live) - {space.self}
  {
    hide Agree, Counted, Private, PageTableMemory.Backed, FaultOk, ApplyFault, FaultsOk, ApplyFaults, Shows, Touched, Covered, Pages, Born;
    hide K.HeapOk, Heaps.AllShow, Heaps.Tallied, R.Inv, K.Release, R.SlabsIn, Settled, WithoutDir;
    ghost var m := heap.Now();
    space.AddMaps(maps);
    TouchedSame(space.mappings, maps, addrs);
    fs := space.Touch(addrs);
    HeapFollows(space.tables, heap, m);
    VmSpaceDestroy(space, heap);
  }

  /** vm_space_new, vm_space_add_map for each mapping, faults at the given addresses, and vm_space_destroy, with
      frames enough for them. Without memory for the object nothing happens. Otherwise other address spaces and
      the live objects are as before, and the free pages and free lists of the page allocator are back to what
      they were if and only if no two of the covered addresses lie in one page and the cache of the object had
      a free slot. If it had, the caches are as they were. */
  method LifeCycle(tables: PageTableMemory, heap: Heaps.KernelHeap, maps: seq<VmMap>, addrs: seq<nat>) returns (made: bool)
    requires Joined(tables, heap) && Counted(tables.pool, tables.ledger)
    requires forall i :: 0 <= i < |addrs| ==> addrs[i] < KERNEL_START_VIRT
    requires |Buddy.FreePages(R.Obtain(heap.Now(), VM_SPACE_SIZE).1.pages)| > 2 * |addrs| + 1
    modifies tables, heap, tables.allocator, tables.allocator.order, tables.allocator.uses, tables.allocator.freeCount, tables.allocator.nodes
    ensures Joined(tables, heap) && Counted(tables.pool, tables.ledger)
    ensures tables.ledger == old(tables.ledger) && heap.live == old(heap.live)
    ensures made == R.Obtain(old(heap.Now()), VM_SPACE_SIZE).0.Some?
    ensures !made ==> heap.Now() == old(heap.Now())
    ensures |old(heap.heap)| == |K.SIZES|
    ensures made ==>
      var before, after := old(tables.allocator.View()), tables.allocator.View();
      var restored := Sequences.NoDup(Touched(maps, addrs)) && !R.NeedsSlab(old(heap.heap), VM_SPACE_SIZE);
      && (Buddy.FreePages(after) == Buddy.FreePages(before) <==> restored)
      && (BuddyCanonical.SameLists(before, after) <==> restored)
    ensures made && !R.NeedsSlab(old(heap.heap), VM_SPACE_SIZE) ==> heap.heap == old(heap.heap)
  {
    hide Agree, Counted, Private, PageTableMemory.Backed, Shows, Touched, Pages, Lived, BuddyCanonical.SameLists, K.Release;
    hide K.HeapOk, Heaps.AllShow, Heaps.Tallied, R.Inv, BuddyOps.Alloc, R.Obtain, R.SlabsIn, R.HeldAfter, Buddy.FreePages, Settled, R.NeedsSlab;
    ghost var m, p, l, o := heap.Now(), tables.pool, tables.ledger, tables.outside;
    tables.BackedShows();
    KeyedNow(tables.memory, tables.ledger);
    R.ObtainPages(m, VM_SPACE_SIZE);
    R.KmallocEffect(m, VM_SPACE_SIZE);
    ObjectTaken(m, p, o);
    CountedPool(p, PoolAfter(p, m), l);
    var space := VmSpaceNew(tables, heap);
    if space == null {
      return false;
    }
    ghost var fs := LiveAndDie(space, heap, maps, addrs, Snapshot(PoolAfter(p, m), l));
    tables.BackedShows();
    R.GetGive(m, VM_SPACE_SIZE);
    LifetimeExact(m, p, l, o, space.pgd, fs, Snapshot(tables.pool, tables.ledger), tables.allocator.View());
    return true;
  }
}
