/** kernel/mm/bootmem.c in the source's own form, and the hand-over of what boot left to the buddy
    allocator. */
module BootHandoff {
  import opened Kernel
  import opened Blocks
  import opened Boot
  import Buddy
  import BuddyOps
  import BuddyCanonical
  import BuddyImpl

  /** Slots are filled from the front, and a filled slot has a non-zero start address. */
  ghost predicate Slots(s: State) {
    && |s.regions| == MAX_MEM_REGIONS && s.count <= MAX_MEM_REGIONS
    && (forall i :: 0 <= i < s.count ==> s.regions[i].start != 0)
    && (forall i :: s.count <= i < MAX_MEM_REGIONS ==> s.regions[i] == EMPTY)
  }

  /** The two nested calls that split a region round the kernel just store their arguments. */
  lemma NestedCallsStore(s: State, im: Image, a: nat, b: nat, kind: nat)
    requires ValidImage(im) && Slots(s) && a % PAGE_SIZE == 0 && b % PAGE_SIZE == 0 && b < WORD
    requires a < KernelStart(im) && KernelEnd(im) < b && (kind == MEM_REGION_RESERVED || kind == MEM_REGION_AVAILABLE)
    ensures s.count < MAX_MEM_REGIONS ==> Register(s, im, a, KernelStart(im), kind) == (E_SUCCESS, Store(s, a, KernelStart(im), kind))
    ensures s.count < MAX_MEM_REGIONS ==> Register(s, im, KernelEnd(im), b, kind) == (E_SUCCESS, Store(s, KernelEnd(im), b, kind))
  {
    KernelBounds(im);
    PageMultiple(a);
    PageMultiple(b);
    PageMultiple(KernelStart(im));
    PageMultiple(KernelEnd(im));
  }

  /** The two self-calls, one after the other, have the effect of the split; their arguments are page
      aligned and so are met again as they are. */
  lemma SplitCalls(s: State, im: Image, start: nat, end: nat, kind: nat)
    requires ValidImage(im) && Slots(s) && s.count < MAX_MEM_REGIONS && 0 < start && start + PAGE_SIZE <= WORD && end < WORD
    requires kind == MEM_REGION_RESERVED || kind == MEM_REGION_AVAILABLE
    requires PageUp(start) < KernelStart(im) && KernelEnd(im) < PageDown(end)
    ensures var a, b, ks, ke := PageUp(start), PageDown(end), KernelStart(im), KernelEnd(im);
      && 0 < a && 0 < ke && a + PAGE_SIZE <= WORD && ke + PAGE_SIZE <= WORD && ks < WORD && b < WORD
      && PageUp(a) == a && PageDown(ks) == ks && PageUp(ke) == ke && PageDown(b) == b
      && var t := Register(s, im, a, ks, kind).1;
         && |t.regions| == MAX_MEM_REGIONS && t.count <= MAX_MEM_REGIONS
         && Register(s, im, start, end, kind) == (E_SUCCESS, Register(t, im, ke, b, kind).1)
  {
    var a, b, ks, ke := PageUp(start), PageDown(end), KernelStart(im), KernelEnd(im);
    KernelBounds(im);
    PageUpExact(start);
    PageMultiple(a);
    PageMultiple(b);
    PageMultiple(ks);
    PageMultiple(ke);
    hide PageUp, PageDown, KernelStart, KernelEnd;
    NestedCallsStore(s, im, a, b, kind);
    var t := Store(s, a, ks, kind);
    if t.count < MAX_MEM_REGIONS {
      StoreKeepsSlots(s, a, ks, kind);
      NestedCallsStore(t, im, a, b, kind);
    }
  }

  lemma StoreKeepsSlots(s: State, a: nat, b: nat, kind: nat)
    requires Slots(s) && s.count < MAX_MEM_REGIONS && a > 0
    ensures Slots(Store(s, a, b, kind))
  {
  }

  lemma PageMultiple(a: nat)
    requires a % PAGE_SIZE == 0 && a < WORD
    ensures PageUp(a) == a && PageDown(a) == a && a + PAGE_SIZE <= WORD
  {
    PageUpExact(a);
  }

  // ---------------------------------------------------------------- the pages that boot left over

  /** Page `x` lies entirely in what is left of region `r`. */
  predicate WholePage(r: Region, x: nat) {
    r.start <= x * PAGE_SIZE && (x + 1) * PAGE_SIZE <= r.end
  }

  /** Page `x` lies entirely in what is left of one of the first `n` regions. */
  predicate LeftOver(rs: seq<Region>, n: nat, x: nat)
    requires n <= |rs|
  {
    exists i :: 0 <= i < n && WholePage(rs[i], x)
  }

  /** Pages of different regions are different. */
  lemma PagesApart(rs: seq<Region>, n: nat, highest: nat, im: Image, i: nat, x: nat)
    requires RegionsOk(rs, n, highest, im) && i < n && WholePage(rs[i], x)
    ensures !LeftOver(rs, i, x) && x < highest
  {
    assert RegionOk(rs[i], im);
    forall j | 0 <= j < i ensures !WholePage(rs[j], x) {
      assert Disjoint(rs[j].orig, rs[j].end, rs[i].orig, rs[i].end);
    }
  }

  lemma LeftOverStep(rs: seq<Region>, i: nat, x: nat)
    requires i < |rs|
    ensures LeftOver(rs, i + 1, x) <==> LeftOver(rs, i, x) || WholePage(rs[i], x)
  {
    if LeftOver(rs, i + 1, x) {
      var j :| 0 <= j < i + 1 && WholePage(rs[j], x);
    }
  }

  /** A page is whole in what is left of a region exactly when all of its bytes are. */
  lemma WholePageBytes(r: Region, x: nat)
    ensures WholePage(r, x) <==> forall a: nat :: OnPage(a, x) ==> r.start <= a < r.end
  {
    var first, last := x * PAGE_SIZE, x * PAGE_SIZE + (PAGE_SIZE - 1);
    assert OnPage(first, x) && OnPage(last, x);
  }

  /** The hand-over is safe: a page that is handed over contains no byte of the kernel image and no
      byte of any boot allocation, and page_free will not mistake it for a kernel page. */
  lemma LeftOverSafe(s: State, im: Image, x: nat, a: nat)
    requires Inv(s, im) && ValidImage(im) && LeftOver(s.regions, s.count, x)
    requires x * PAGE_SIZE <= a < (x + 1) * PAGE_SIZE
    ensures !(im.start <= a < im.end)
    ensures forall y :: 0 <= y < |s.issued| ==> !(s.issued[y].start <= a < s.issued[y].start + s.issued[y].size)
    ensures !BuddyImpl.Critical(im.start, im.end, x)
  {
    var i :| 0 <= i < s.count && WholePage(s.regions[i], x);
    assert RegionOk(s.regions[i], im);
    KernelBounds(im);
    RegionsOrdered(s.regions, s.count, s.highest, im);
    forall y | 0 <= y < |s.issued| ensures !(s.issued[y].start <= a < s.issued[y].start + s.issued[y].size) {
      SpanBelowRegion(s.regions, s.count, s.issued, y, i);
    }
  }

  /** The buddy allocator has been given exactly the pages of `free`. */
  ghost predicate Given(b: Buddy.State, free: set<nat>) {
    Buddy.Inv(b) && b.used == {} && Buddy.FreePages(b) == free
  }

  /** Among such states a page is invalid exactly when it has not been given. */
  lemma GivenInvalid(b: Buddy.State, free: set<nat>, x: nat)
    requires Given(b, free) && x < |b.order|
    ensures b.invalid[x] <==> x !in free
  {
    BuddyCanonical.FreeIsValidUnused(b, x);
  }

  /** The page loop of bootmem_mark_free runs over exactly the whole pages of the region. */
  lemma WholePagesAre(r: Region)
    requires r.start <= r.end < WORD && r.end % PAGE_SIZE == 0
    ensures forall x: nat :: WholePage(r, x) <==> PageUp(r.start) / PAGE_SIZE <= x < PageDown(r.end) / PAGE_SIZE
  {
    PageUpExact(r.start);
  }

  class BootMemory {
    const image: Image
    const regions: array<Region>
    var count: nat
    var highest: nat
    ghost var issued: seq<Span>

    ghost function View(): State
      reads this, regions
    {
      State(regions[..], count, highest, issued)
    }

    /** bootmem_reset. */
    constructor (image: Image)
      ensures View() == START && fresh(regions) && this.image == image
    {
      this.image := image;
      regions := new Region[MAX_MEM_REGIONS](_ => EMPTY);
      count, highest, issued := 0, 0, [];
      new;
      assert regions[..] == START.regions;
    }

    /** bootmem_add_mem_region. */
    method AddMemRegion(start: nat, end: nat, kind: nat) returns (rv: int)
      requires Slots(View()) && ValidImage(image)
      requires 0 < start && start + PAGE_SIZE <= WORD && end < WORD
      modifies this, regions
      ensures (rv, View()) == Register(old(View()), image, start, end, kind) && Slots(View())
      decreases PageUp(start) < KernelStart(image) && KernelEnd(image) < PageDown(end)
    {
      var a, b := PageUp(start), PageDown(end);
      var ks, ke := KernelStart(image), KernelEnd(image);
      KernelBounds(image);
      PageUpExact(start);
      if count == MAX_MEM_REGIONS { return E_ERROR; }
      if a >= ks && b < ke { return E_ERROR; }
      if kind != MEM_REGION_RESERVED && kind != MEM_REGION_AVAILABLE { return E_ERROR; }
      if a > b { return E_ERROR; }
      if a == b || b - a < PAGE_SIZE { return E_ERROR; }
      if a < ks && b > ke {
        SplitCalls(View(), image, start, end, kind);
        var _ := AddMemRegion(a, ks, kind);
        var _ := AddMemRegion(ke, b, kind);
        return E_SUCCESS;
      } else if a < ks && b > ks {
        b := ks;
      } else if a < ke && b > ke {
        a := ke;
      }
      StoreRegion(a, b, kind);
      return E_SUCCESS;
    }

    /** The tail of bootmem_add_mem_region: note the highest page and fill the first empty slot. */
    method StoreRegion(a: nat, b: nat, kind: nat)
      requires Slots(View()) && count < MAX_MEM_REGIONS && a > 0
      modifies this, regions
      ensures View() == Store(old(View()), a, b, kind) && Slots(View())
    {
      var pfn := b / PAGE_SIZE;
      if pfn > highest { highest := pfn; }
      var i := 0;
      while i < MAX_MEM_REGIONS
        invariant i <= count
      {
        if regions[i].start == 0 {
          regions[i] := Region(a, b, a, kind);
          count := count + 1;
          return;
        }
        i := i + 1;
      }
      assert false;
    }

    /** bootmem_alloc; the result is the physical address. */
    method Alloc(size: nat, align: nat) returns (p: Option<nat>)
      requires regions.Length == MAX_MEM_REGIONS
      modifies this`issued, regions
      ensures (p, View()) == Boot.Alloc(old(View()), size, align)
    {
      for i := 0 to MAX_MEM_REGIONS
        invariant regions[..] == old(regions[..]) && issued == old(issued)
        invariant FirstFit(regions[..], size, align, 0) == FirstFit(regions[..], size, align, i)
      {
        var r := regions[i];
        if r.kind != MEM_REGION_AVAILABLE { continue; }
        var a := AlignUp(r.start, align);
        if a >= r.end { continue; }
        if r.end - a >= size {
          regions[i] := r.(start := a + size);
          issued := issued + [Span(a, size, align)];
          return Some(a);
        }
      }
      return None;
    }

    /** One page: clear PF_INVALID and call page_initial_free. */
    method MarkPage(buddy: BuddyImpl.BuddyAllocator, pfn: nat, ghost free: set<nat>)
      requires buddy.Valid() && Given(buddy.View(), free) && pfn !in free && pfn < buddy.order.Length
      modifies buddy, buddy.order, buddy.invalid, buddy.freeCount, buddy.nodes
      ensures buddy.Valid() && Given(buddy.View(), free + {pfn})
    {
      GivenInvalid(buddy.View(), free, pfn);
      BuddyOps.InitialFreeEffect(buddy.View(), pfn);
      buddy.MarkFree(pfn);
    }

    /** The inner loop of bootmem_mark_free. */
    method MarkRegion(buddy: BuddyImpl.BuddyAllocator, r: Region, ghost free: set<nat>)
      returns (n: nat, ghost after: set<nat>)
      requires RegionOk(r, image) && buddy.Valid() && Given(buddy.View(), free)
      requires forall x: nat :: WholePage(r, x) ==> x !in free && x < buddy.order.Length
      modifies buddy, buddy.order, buddy.invalid, buddy.freeCount, buddy.nodes
      ensures buddy.Valid() && Given(buddy.View(), after)
      ensures forall x: nat :: x in after <==> x in free || WholePage(r, x)
      ensures |after| == |free| + n
    {
      WholePagesAre(r);
      var first, end := PageUp(r.start) / PAGE_SIZE, PageDown(r.end) / PAGE_SIZE;
      n, after := 0, free;
      var pfn := first;
      while pfn < end
        invariant first <= pfn
        invariant buddy.Valid() && Given(buddy.View(), after)
        invariant forall x: nat :: x in after <==> x in free || (first <= x < pfn && x < end)
        invariant |after| == |free| + n
      {
        assert WholePage(r, pfn);
        MarkPage(buddy, pfn, after);
        after := after + {pfn};
        pfn := pfn + 1;
        n := n + 1;
      }
    }

    /** bootmem_mark_free: the buddy lists receive exactly the whole pages left in the regions. */
    method MarkFree(buddy: BuddyImpl.BuddyAllocator) returns (rv: int, freed: nat)
      requires ValidImage(image) && Inv(View(), image)
      requires buddy.Valid() && Given(buddy.View(), {}) && highest <= buddy.order.Length
      modifies buddy, buddy.order, buddy.invalid, buddy.freeCount, buddy.nodes
      ensures buddy.Valid()
      ensures rv == E_ERROR <==> count == 0 || highest == 0
      ensures rv == E_ERROR ==> buddy.View() == old(buddy.View())
      ensures rv == E_SUCCESS ==>
        && buddy.used == {}
        && (forall x: nat :: x in Buddy.FreePages(buddy.View()) <==> LeftOver(View().regions, count, x))
        && freed == |Buddy.FreePages(buddy.View())| == BuddyCanonical.CountedFrom(buddy.lists, 0)
    {
      freed := 0;
      if count == 0 || highest == 0 { return E_ERROR, 0; }
      ghost var rs := regions[..];
      ghost var free: set<nat> := {};
      for i := 0 to count
        invariant buddy.Valid() && Given(buddy.View(), free)
        invariant forall x: nat :: x in free <==> LeftOver(rs, i, x)
        invariant freed == |free| && View() == old(View()) && regions[..] == rs
      {
        if regions[i].start == 0 { continue; }
        forall x: nat | WholePage(rs[i], x) ensures x !in free && x < buddy.order.Length {
          PagesApart(rs, count, highest, image, i, x);
        }
        var n;
        n, free := MarkRegion(buddy, regions[i], free);
        freed := freed + n;
        forall x: nat ensures x in free <==> LeftOver(rs, i + 1, x) {
          LeftOverStep(rs, i, x);
        }
      }
      BuddyCanonical.PageAccounting(buddy.View());
      return E_SUCCESS, freed;
    }
  }
}
