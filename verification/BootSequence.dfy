/** The order in which arch/x86/kernel/init.c brings memory up: the kernel's page directory, the page
    structures, the hand-over to the page allocator; then the slab caches and page tables can start. */
module BootSequence {
  import opened Kernel
  import opened Blocks
  import Boot
  import opened BootHandoff
  import Buddy
  import BuddyCanonical
  import opened BuddyImpl
  import opened KernelMap
  import Frames
  import PageTables
  import PtableOps
  import K = KernelHeap
  import R = KmallocRuns
  import SpaceLife

  const PAGE_STRUCT_SIZE: nat := 24   // sizeof(struct page)

  /** No byte of page `x` is in the span. */
  predicate Clear(x: nat, span: Boot.Span) {
    span.start + span.size <= x * PAGE_SIZE || (x + 1) * PAGE_SIZE <= span.start || span.size == 0
  }

  /** A free page of the page allocator has no byte of the kernel image or of any boot allocation. */
  ghost predicate HandedOver(s: Buddy.State, issued: seq<Boot.Span>, im: Boot.Image) {
    forall x :: x in Buddy.FreePages(s) ==>
      && !(x * PAGE_SIZE < im.end && im.start < (x + 1) * PAGE_SIZE)
      && forall y :: 0 <= y < |issued| ==> Clear(x, issued[y])
  }

  lemma LeftOverClear(b: Boot.State, im: Boot.Image, s: Buddy.State)
    requires Boot.Inv(b, im) && Boot.ValidImage(im)
    requires forall x: nat :: x in Buddy.FreePages(s) <==> LeftOver(b.regions, b.count, x)
    ensures HandedOver(s, b.issued, im)
  {
    forall x | x in Buddy.FreePages(s)
      ensures !(x * PAGE_SIZE < im.end && im.start < (x + 1) * PAGE_SIZE)
      ensures forall y :: 0 <= y < |b.issued| ==> Clear(x, b.issued[y])
    {
      PageClear(b, im, x);
    }
  }

  lemma PageClear(b: Boot.State, im: Boot.Image, x: nat)
    requires Boot.Inv(b, im) && Boot.ValidImage(im) && LeftOver(b.regions, b.count, x)
    ensures !(x * PAGE_SIZE < im.end && im.start < (x + 1) * PAGE_SIZE)
    ensures forall y :: 0 <= y < |b.issued| ==> Clear(x, b.issued[y])
  {
    var i :| 0 <= i < b.count && WholePage(b.regions[i], x);
    assert Boot.RegionOk(b.regions[i], im);
    Boot.KernelBounds(im);
    Boot.RegionsOrdered(b.regions, b.count, b.highest, im);
    forall y | 0 <= y < |b.issued| ensures Clear(x, b.issued[y]) {
      Boot.SpanBelowRegion(b.regions, b.count, b.issued, y, i);
    }
  }

  /** A page table's frame is a whole boot allocation, so it is not handed over. */
  lemma TablesKept(s: Buddy.State, issued: seq<Boot.Span>, im: Boot.Image, taken: set<nat>)
    requires HandedOver(s, issued, im) && FromBoot(issued, taken)
    ensures taken !! Buddy.FreePages(s)
  {
    forall f | f in taken ensures f !in Buddy.FreePages(s) {
      var y :| 0 <= y < |issued| && issued[y] == Boot.Span(f * PAGE_SIZE, PAGE_SIZE, 12);
      assert f in Buddy.FreePages(s) ==> Clear(f, issued[y]);
    }
  }

  lemma PrefixFrom(a: seq<Boot.Span>, b: seq<Boot.Span>, taken: set<nat>)
    requires a <= b && FromBoot(a, taken)
    ensures FromBoot(b, taken)
  {
    assert forall x :: x in a ==> x in b;
  }

  /** The page structures of buddy_init come from boot memory like any other allocation. */
  lemma PageAreaTaken(s: Boot.State, im: Boot.Image, size: nat)
    requires Boot.Inv(s, im)
    ensures var (p, t) := Boot.Alloc(s, size, 0);
      && Boot.Inv(t, im) && t.count == s.count && t.highest == s.highest && s.issued <= t.issued
      && (p.Some? ==> |t.issued| == |s.issued| + 1 && t.issued[|s.issued|] == Boot.Span(p.value, size, 0))
  {
    Boot.RegionsOrdered(s.regions, s.count, s.highest, im);
    forall i | 0 <= i < s.count ensures s.regions[i].start + Size(0) <= WORD {
      assert Boot.RegionOk(s.regions[i], im);
    }
    Boot.AllocKeepsInv(s, im, size, 0);
  }

  /** paging_init, buddy_init and bootmem_mark_free, after any registrations and boot allocations. On success the
      kernel's addresses translate as they should, and what the page allocator has to give has no byte of the
      kernel image, of the kernel's page tables, of the page structures or of any other boot allocation. */
  method StartMemory(boot: BootMemory, directory: KernelDirectory, pse: bool, pge: bool)
    returns (ok: bool, buddy: BuddyAllocator?, ghost tables: map<nat, nat>)
    requires directory.Ready(boot, map[]) && Boot.ValidImage(boot.image) && Aligned(boot.highest, Buddy.ORDER_MAX)
    modifies directory`mem, directory.pgd, boot`issued, boot.regions
    ensures directory.pgd[..TABLE_START] == old(directory.pgd[..TABLE_START])
    ensures ok <==> buddy != null
    ensures ok ==>
      && buddy.Valid() && fresh(buddy) && buddy.used == {}
      && buddy.kernelStart == boot.image.start && buddy.kernelEnd == boot.image.end
      && Boot.Inv(boot.View(), boot.image) && old(boot.issued) <= boot.issued
      && (forall x: nat :: x in Buddy.FreePages(buddy.View()) <==> LeftOver(boot.View().regions, boot.count, x))
      && HandedOver(buddy.View(), boot.issued, boot.image)
      && tables.Values !! Buddy.FreePages(buddy.View())
      && AllDone(pse, pge, directory.pgd[..], directory.mem, tables, TABLE_START, PageTables.ENTRIES)
      && forall va: nat :: KERNEL_START_VIRT <= va < WORD ==>
           Translate(pse, directory.pgd[..], directory.mem, va) == if va < KMAP_START_VIRT then Some(va - KERNEL_START_VIRT) else None
  {
    hide Boot.Inv, Boot.Alloc, Buddy.Inv, Translate, AllDone, FromBoot, HandedOver;
    buddy := null;
    ok, tables := directory.SetupKernelPgd(boot, pse, pge);
    if !ok {
      return;
    }
    PageAreaTaken(boot.View(), boot.image, boot.highest * PAGE_STRUCT_SIZE);
    ghost var before := boot.issued;
    var area := boot.Alloc(boot.highest * PAGE_STRUCT_SIZE, 0);
    PrefixFrom(before, boot.issued, tables.Values);
    if area.None? {
      return false, null, tables;
    }
    var b := new BuddyAllocator(boot.highest, boot.image.start, boot.image.end);
    BuddyCanonical.InitialInv(boot.highest);
    var rv, _ := boot.MarkFree(b);
    if rv != E_SUCCESS {
      return false, null, tables;
    }
    LeftOverClear(boot.View(), boot.image, b.View());
    TablesKept(b.View(), boot.issued, boot.image, tables.Values);
    return true, b, tables;
  }

  /** Under the kernel's direct map the kernel address of a page is that page, byte by byte. */
  lemma PageAddressTranslates(pse: bool, pge: bool, pgd: seq<nat>, mem: PageTables.Memory, tables: map<nat, nat>, p: nat, offset: nat)
    requires |pgd| == PageTables.ENTRIES && AllDone(pse, pge, pgd, mem, tables, TABLE_START, PageTables.ENTRIES)
    requires offset < PAGE_SIZE && R.Addr(p) < KMAP_START_VIRT
    ensures Translate(pse, pgd, mem, R.Addr(p) + offset) == Some(p * PAGE_SIZE + offset)
  {
    var va := R.Addr(p) + offset;
    assert va < KMAP_START_VIRT;
    assert TABLE_START <= va / LARGE < PageTables.ENTRIES;
    SlotTranslates(pse, pge, pgd, mem, tables, va);
  }

  /** With the page allocator up, the slab caches and the page tables start on it together. */
  method StartHeapAndTables(boot: BootMemory, buddy: BuddyAllocator, kernel: seq<nat>)
    returns (tables: PtableOps.PageTableMemory, heap: K.KernelHeap)
    requires Boot.Inv(boot.View(), boot.image) && Boot.ValidImage(boot.image) && buddy.Valid() && buddy.used == {}
    requires buddy.kernelStart == boot.image.start && buddy.kernelEnd == boot.image.end
    requires forall x: nat :: x in Buddy.FreePages(buddy.View()) <==> LeftOver(boot.View().regions, boot.count, x)
    requires |kernel| == PageTables.ENTRIES && forall i :: 0 <= i < PageTables.USER_DIRS ==> !PageTables.Exists(kernel[i])
    ensures SpaceLife.Joined(tables, heap) && tables.allocator == buddy
    ensures tables.ledger == PageTables.Ledger({}, map[], map[]) && heap.live == map[]
  {
    PtableOps.BootPool(boot.View(), boot.image, buddy.View());
    hide Boot.Inv, Buddy.Inv, Frames.Shows, R.Inv;
    tables := new PtableOps.PageTableMemory(buddy, Frames.Pool(Buddy.FreePages(buddy.View()), map[]), {}, kernel);
    heap := new K.KernelHeap(buddy);
  }
}
