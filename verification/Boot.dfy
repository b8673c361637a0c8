/** The boot memory allocator of kernel/mm/bootmem.c on values: region registration round the
    kernel image, and bump allocation. Addresses are physical and 32 bits wide. */
module Boot {
  import opened Kernel
  import opened Blocks

  const MAX_MEM_REGIONS: nat := 16
  const MEM_REGION_RESERVED: nat := 0
  const MEM_REGION_AVAILABLE: nat := 1

  datatype Region = Region(start: nat, end: nat, orig: nat, kind: nat)

  const EMPTY: Region := Region(0, 0, 0, 0)

  /** Memory handed out by bootmem_alloc, with the alignment 2^`align` it was asked for. */
  datatype Span = Span(start: nat, size: nat, align: nat)

  /** The kernel image as the linker script places it, from KERNEL_PHYS_START up to KERNEL_PHYS_END. */
  datatype Image = Image(start: nat, end: nat)

  /** mem_regions, region_count and highest_pfn; `issued` is the ledger of boot allocations. */
  datatype State = State(regions: seq<Region>, count: nat, highest: nat, issued: seq<Span>)

  const START: State := State(seq(MAX_MEM_REGIONS, _ => EMPTY), 0, 0, [])

  // ---------------------------------------------------------------- alignment

  /** PAGE_ALIGN and PAGE_ALIGN_DOWN in 32-bit arithmetic. */
  function PageUp(a: nat): nat { PageDown((a + (PAGE_SIZE - 1)) % WORD) }
  function PageDown(a: nat): nat { a - a % PAGE_SIZE }

  /** ALIGN to 2^`k`, in 32-bit arithmetic. */
  function AlignUp(a: nat, k: nat): nat { Down((a + (Size(k) - 1)) % WORD, k) }

  /** Short of the top of the address space AlignUp is an aligned address at or above `a`; it is the
      least one, by AlignUpLeast. */
  lemma AlignUpExact(a: nat, k: nat)
    requires a + Size(k) <= WORD
    ensures Aligned(AlignUp(a, k), k) && a <= AlignUp(a, k) < a + Size(k)
  {
    var c := a + (Size(k) - 1);
    assert c % WORD == c;
    DownDown(c, k, k);
    DownBounds(c, k);
  }

  lemma AlignUpLeast(a: nat, k: nat, b: nat)
    requires a + Size(k) <= WORD && a <= b && Aligned(b, k)
    ensures AlignUp(a, k) <= b
  {
    AlignUpExact(a, k);
    if b < AlignUp(a, k) {
      NextAligned(b, AlignUp(a, k), k);
    }
  }

  /** Distinct aligned addresses are at least 2^k apart. */
  lemma {:induction false} NextAligned(a: nat, b: nat, k: nat)
    requires Aligned(a, k) && Aligned(b, k) && a < b
    ensures a + Size(k) <= b
  {
    InBlock(b, a, k);
  }

  // ---------------------------------------------------------------- operations

  predicate ValidImage(im: Image) {
    im.start % PAGE_SIZE == 0 && im.start < im.end && im.end + PAGE_SIZE <= WORD
  }

  function KernelStart(im: Image): nat { PageUp(im.start) }
  function KernelEnd(im: Image): nat { PageUp(im.end) }

  function Max(a: nat, b: nat): nat { if a < b then b else a }

  /** The tail of bootmem_add_mem_region: record the region in the first empty slot. */
  function Store(s: State, a: nat, b: nat, kind: nat): State
    requires |s.regions| == MAX_MEM_REGIONS && s.count < MAX_MEM_REGIONS
  {
    s.(regions := s.regions[s.count := Region(a, b, a, kind)],
       count := s.count + 1,
       highest := Max(s.highest, b / PAGE_SIZE))
  }

  /** bootmem_add_mem_region: its result and the new state. A region round the kernel is split in
      two; when only one slot is left the upper part is dropped silently. */
  function Register(s: State, im: Image, start: nat, end: nat, kind: nat): (int, State)
    requires |s.regions| == MAX_MEM_REGIONS && s.count <= MAX_MEM_REGIONS
  {
    var a, b, ks, ke := PageUp(start), PageDown(end), KernelStart(im), KernelEnd(im);
    if s.count == MAX_MEM_REGIONS then (E_ERROR, s)
    else if a >= ks && b < ke then (E_ERROR, s)
    else if kind != MEM_REGION_RESERVED && kind != MEM_REGION_AVAILABLE then (E_ERROR, s)
    else if a > b then (E_ERROR, s)
    else if a == b || b - a < PAGE_SIZE then (E_ERROR, s)
    else if a < ks && b > ke then
      var t := Store(s, a, ks, kind);
      (E_SUCCESS, if t.count == MAX_MEM_REGIONS then t else Store(t, ke, b, kind))
    else if a < ks && b > ks then (E_SUCCESS, Store(s, a, ks, kind))
    else if a < ke && b > ke then (E_SUCCESS, Store(s, ke, b, kind))
    else (E_SUCCESS, Store(s, a, b, kind))
  }

  predicate Fits(r: Region, size: nat, k: nat) {
    && r.kind == MEM_REGION_AVAILABLE
    && AlignUp(r.start, k) < r.end
    && r.end - AlignUp(r.start, k) >= size
  }

  /** The first region at or after slot `i` that can serve the request. */
  function FirstFit(regions: seq<Region>, size: nat, k: nat, i: nat): (j: nat)
    requires i <= |regions|
    ensures i <= j <= |regions|
    ensures forall h :: i <= h < j ==> !Fits(regions[h], size, k)
    ensures j < |regions| ==> Fits(regions[j], size, k)
    decreases |regions| - i
  {
    if i == |regions| || Fits(regions[i], size, k) then i else FirstFit(regions, size, k, i + 1)
  }

  /** bootmem_alloc of `size` bytes aligned to 2^`k`. */
  function Alloc(s: State, size: nat, k: nat): (Option<nat>, State) {
    var i := FirstFit(s.regions, size, k, 0);
    if i == |s.regions| then (None, s)
    else
      var a := AlignUp(s.regions[i].start, k);
      (Some(a), s.(regions := s.regions[i := s.regions[i].(start := a + size)],
                   issued := s.issued + [Span(a, size, k)]))
  }

  // ---------------------------------------------------------------- the invariant

  predicate Disjoint(a: nat, b: nat, c: nat, d: nat) { b <= c || d <= a }

  /** A registered region lies outside the kernel and is page aligned except for its moving start. */
  predicate RegionOk(r: Region, im: Image) {
    && 0 < r.orig <= r.start <= r.end < WORD
    && r.orig % PAGE_SIZE == 0 && r.end % PAGE_SIZE == 0
    && Disjoint(r.orig, r.end, KernelStart(im), KernelEnd(im))
  }

  /** An allocation was cut from the front of region `r`, which is available memory. */
  predicate Within(x: Span, r: Region) {
    r.kind == MEM_REGION_AVAILABLE && r.orig <= x.start && x.start + x.size <= r.start
  }

  /** `highest` is the largest end of a region, as a page number. */
  ghost predicate HighestEnd(regions: seq<Region>, count: nat, highest: nat)
    requires count <= |regions|
  {
    && (forall i :: 0 <= i < count ==> regions[i].end / PAGE_SIZE <= highest)
    && (if count == 0 then highest == 0 else exists i :: 0 <= i < count && EndsAt(regions[i], highest))
  }

  predicate EndsAt(r: Region, page: nat) { r.end / PAGE_SIZE == page }

  /** Registered regions fill the slots from the front and do not overlap. */
  ghost predicate RegionsOk(regions: seq<Region>, count: nat, highest: nat, im: Image) {
    && |regions| == MAX_MEM_REGIONS && count <= MAX_MEM_REGIONS
    && (forall i :: count <= i < MAX_MEM_REGIONS ==> regions[i] == EMPTY)
    && (forall i :: 0 <= i < count ==> RegionOk(regions[i], im))
    && HighestEnd(regions, count, highest)
    && Apart(regions, count)
  }

  ghost predicate Apart(regions: seq<Region>, count: nat)
    requires count <= |regions|
  {
    forall i, j :: 0 <= i < j < count ==> Disjoint(regions[i].orig, regions[i].end, regions[j].orig, regions[j].end)
  }

  ghost predicate HasHome(x: Span, regions: seq<Region>, count: nat)
    requires count <= |regions|
  {
    exists i :: 0 <= i < count && Within(x, regions[i])
  }

  /** Allocations are aligned, cut from the fronts of the regions, and do not overlap. */
  ghost predicate IssuedOk(regions: seq<Region>, count: nat, issued: seq<Span>)
    requires count <= |regions|
  {
    && (forall x :: 0 <= x < |issued| ==> Aligned(issued[x].start, issued[x].align))
    && (forall x :: 0 <= x < |issued| ==> HasHome(issued[x], regions, count))
    && (forall x, y :: 0 <= x < y < |issued| ==>
          Disjoint(issued[x].start, issued[x].start + issued[x].size, issued[y].start, issued[y].start + issued[y].size))
  }

  ghost predicate Inv(s: State, im: Image) {
    RegionsOk(s.regions, s.count, s.highest, im) && IssuedOk(s.regions, s.count, s.issued)
  }

  /** What the caller of bootmem_add_mem_region must respect: a non-zero start, since slot emptiness
      is start_addr == 0, and no overlap with a region registered before. */
  ghost predicate FreshRange(s: State, start: nat, end: nat) {
    && 0 < start && start + PAGE_SIZE <= WORD && end < WORD
    && (forall i :: 0 <= i < s.count && i < |s.regions| ==> Disjoint(start, end, s.regions[i].orig, s.regions[i].end))
  }

  /** The one range that slips through the kernel checks: it starts inside the kernel image and
      ends exactly at its page-aligned end. */
  predicate SlipsThrough(im: Image, start: nat, end: nat) {
    KernelStart(im) <= PageUp(start) < PageDown(end) == KernelEnd(im)
  }

  /** Regions only ever grow at the front they have given away. */
  lemma HomeStays(x: Span, rs: seq<Region>, n: nat, ts: seq<Region>, m: nat)
    requires n <= |rs| && n <= m <= |ts| && HasHome(x, rs, n)
    requires forall i :: 0 <= i < n ==> ts[i].orig == rs[i].orig && ts[i].start >= rs[i].start && ts[i].kind == rs[i].kind
    ensures HasHome(x, ts, m)
  {
    var i :| 0 <= i < n && Within(x, rs[i]);
    assert Within(x, ts[i]);
  }

  lemma StoreKeepsInv(s: State, im: Image, a: nat, b: nat, kind: nat)
    requires Inv(s, im) && s.count < MAX_MEM_REGIONS
    requires RegionOk(Region(a, b, a, kind), im)
    requires forall i :: 0 <= i < s.count ==> Disjoint(a, b, s.regions[i].orig, s.regions[i].end)
    ensures Inv(Store(s, a, b, kind), im)
  {
    StoreKeepsRegions(s.regions, s.count, s.highest, im, Region(a, b, a, kind));
    StoreKeepsIssued(s.regions, s.count, s.issued, Region(a, b, a, kind));
  }

  lemma StoreKeepsRegions(rs: seq<Region>, n: nat, highest: nat, im: Image, r: Region)
    requires RegionsOk(rs, n, highest, im) && n < MAX_MEM_REGIONS && RegionOk(r, im)
    requires forall i :: 0 <= i < n ==> Disjoint(r.orig, r.end, rs[i].orig, rs[i].end)
    ensures RegionsOk(rs[n := r], n + 1, Max(highest, r.end / PAGE_SIZE), im)
  {
    var ts := rs[n := r];
    assert forall i :: 0 <= i < n ==> ts[i] == rs[i];
    assert EndsAt(ts[n], r.end / PAGE_SIZE);
    if n > 0 {
      var j :| 0 <= j < n && EndsAt(rs[j], highest);
      assert EndsAt(ts[j], highest);
    }
  }

  lemma StoreKeepsIssued(rs: seq<Region>, n: nat, issued: seq<Span>, r: Region)
    requires n < |rs| && IssuedOk(rs, n, issued)
    ensures IssuedOk(rs[n := r], n + 1, issued)
  {
    forall x | 0 <= x < |issued| ensures HasHome(issued[x], rs[n := r], n + 1) {
      HomeStays(issued[x], rs, n, rs[n := r], n + 1);
    }
  }

  lemma PageUpExact(a: nat)
    requires a + PAGE_SIZE <= WORD
    ensures PageUp(a) % PAGE_SIZE == 0 && a <= PageUp(a) < a + PAGE_SIZE
  {
  }

  lemma PageDownExact(a: nat)
    ensures PageDown(a) % PAGE_SIZE == 0 && PageDown(a) <= a < PageDown(a) + PAGE_SIZE
  {
  }

  lemma KernelBounds(im: Image)
    requires ValidImage(im)
    ensures KernelStart(im) == im.start && im.end <= KernelEnd(im) < im.end + PAGE_SIZE && KernelStart(im) < KernelEnd(im)
    ensures KernelEnd(im) % PAGE_SIZE == 0 && KernelStart(im) % PAGE_SIZE == 0 && KernelEnd(im) < WORD
  {
    PageUpExact(im.start);
    PageUpExact(im.end);
  }

  /** Registration keeps the invariant, and so keeps the kernel out of the regions, for every range
      but the one that slips through. */
  lemma RegisterKeepsInv(s: State, im: Image, start: nat, end: nat, kind: nat)
    requires Inv(s, im) && ValidImage(im) && FreshRange(s, start, end)
    requires !SlipsThrough(im, start, end)
    ensures Inv(Register(s, im, start, end, kind).1, im)
  {
    var a, b, ks, ke := PageUp(start), PageDown(end), KernelStart(im), KernelEnd(im);
    PageUpExact(start);
    KernelBounds(im);
    if Register(s, im, start, end, kind).0 == E_SUCCESS {
      if a < ks && b > ke {
        StoreKeepsInv(s, im, a, ks, kind);
        var t := Store(s, a, ks, kind);
        if t.count < MAX_MEM_REGIONS {
          StoreKeepsInv(t, im, ke, b, kind);
        }
      } else if a < ks && b > ks {
        StoreKeepsInv(s, im, a, ks, kind);
      } else if a < ke && b > ke {
        StoreKeepsInv(s, im, ke, b, kind);
      } else {
        StoreKeepsInv(s, im, a, b, kind);
      }
    }
  }

  /** Registration succeeds if and only if a slot is free, the type is known, the range has a whole page, and it
      does not lie inside the kernel, short of its end. */
  lemma RegisterSucceedsIff(s: State, im: Image, start: nat, end: nat, kind: nat)
    requires |s.regions| == MAX_MEM_REGIONS && s.count <= MAX_MEM_REGIONS && start + PAGE_SIZE <= WORD
    ensures Register(s, im, start, end, kind).0 == E_SUCCESS <==>
      && s.count < MAX_MEM_REGIONS && (kind == MEM_REGION_RESERVED || kind == MEM_REGION_AVAILABLE)
      && PageUp(start) < PageDown(end)
      && !(KernelStart(im) <= PageUp(start) && PageDown(end) < KernelEnd(im))
    ensures Register(s, im, start, end, kind).0 != E_SUCCESS ==> Register(s, im, start, end, kind) == (E_ERROR, s)
  {
    PageUpExact(start);
    PageDownExact(end);
  }

  /** Address `x` is in one of the regions stored from slot `from` on. */
  predicate InRegions(s: State, from: nat, x: nat)
    requires s.count <= |s.regions|
  {
    exists i :: from <= i < s.count && s.regions[i].orig <= x < s.regions[i].end
  }

  /** The other case that goes wrong: a range round the kernel, with one slot left for its two parts. */
  predicate LosesUpperPart(s: State, im: Image, start: nat, end: nat) {
    s.count + 1 == MAX_MEM_REGIONS && PageUp(start) < KernelStart(im) && KernelEnd(im) < PageDown(end)
  }

  /** A successful registration adds exactly the whole pages of the range that are not in the kernel, if
      and only if the range does not slip through and does not lose its upper part. */
  lemma RegisterCarvesKernel(s: State, im: Image, start: nat, end: nat, kind: nat)
    requires Inv(s, im) && ValidImage(im) && FreshRange(s, start, end)
    requires Register(s, im, start, end, kind).0 == E_SUCCESS
    ensures var t := Register(s, im, start, end, kind).1;
      && t.count <= |t.regions|
      && ((forall x: nat :: InRegions(t, s.count, x) <==>
              PageUp(start) <= x < PageDown(end) && !(KernelStart(im) <= x < KernelEnd(im)))
          <==> !SlipsThrough(im, start, end) && !LosesUpperPart(s, im, start, end))
  {
    var t := Register(s, im, start, end, kind).1;
    var a, b, ks, ke := PageUp(start), PageDown(end), KernelStart(im), KernelEnd(im);
    PageUpExact(start);
    KernelBounds(im);
    if SlipsThrough(im, start, end) {
      assert t.regions[s.count] == Region(a, b, a, kind);
      assert InRegions(t, s.count, a);
    } else if LosesUpperPart(s, im, start, end) {
      assert t.regions[s.count] == Region(a, ks, a, kind);
      assert !InRegions(t, s.count, ke);
    } else {
      forall x: nat ensures InRegions(t, s.count, x) <==> a <= x < b && !(ks <= x < ke) {
        if a <= x < b && !(ks <= x < ke) {
          var i := if a < ks && b > ke && x >= ke then s.count + 1 else s.count;
          assert t.regions[i].orig <= x < t.regions[i].end;
        }
      }
    }
  }

  /** Every earlier span is disjoint from the unused front of every region. */
  lemma SpanBelowRegion(regions: seq<Region>, count: nat, issued: seq<Span>, x: nat, i: nat)
    requires count <= |regions| && Apart(regions, count) && IssuedOk(regions, count, issued)
    requires forall h :: 0 <= h < count ==> regions[h].orig <= regions[h].start <= regions[h].end
    requires x < |issued| && i < count
    ensures Disjoint(issued[x].start, issued[x].start + issued[x].size, regions[i].start, regions[i].end)
  {
    var h := SpanRegion(regions, count, issued, x);
    if h < i {
      assert Disjoint(regions[h].orig, regions[h].end, regions[i].orig, regions[i].end);
    } else if i < h {
      assert Disjoint(regions[i].orig, regions[i].end, regions[h].orig, regions[h].end);
    }
  }

  lemma CutKeepsRegions(regions: seq<Region>, count: nat, highest: nat, im: Image, i: nat, a: nat)
    requires RegionsOk(regions, count, highest, im) && i < count && regions[i].start <= a <= regions[i].end
    ensures RegionsOk(regions[i := regions[i].(start := a)], count, highest, im)
  {
    assert RegionOk(regions[i], im);
    var j :| 0 <= j < count && EndsAt(regions[j], highest);
    assert EndsAt(regions[i := regions[i].(start := a)][j], highest);
  }

  lemma CutKeepsIssued(regions: seq<Region>, count: nat, issued: seq<Span>, i: nat, x: Span)
    requires count <= |regions| && Apart(regions, count) && IssuedOk(regions, count, issued)
    requires forall h :: 0 <= h < count ==> regions[h].orig <= regions[h].start <= regions[h].end
    requires i < count && Aligned(x.start, x.align) && regions[i].kind == MEM_REGION_AVAILABLE
    requires regions[i].start <= x.start && x.start + x.size <= regions[i].end
    ensures IssuedOk(regions[i := regions[i].(start := x.start + x.size)], count, issued + [x])
  {
    var rs, xs := regions[i := regions[i].(start := x.start + x.size)], issued + [x];
    forall y | 0 <= y < |xs| ensures HasHome(xs[y], rs, count) {
      if y == |issued| {
        assert Within(xs[y], rs[i]);
      } else {
        HomeStays(issued[y], regions, count, rs, count);
      }
    }
    forall y | 0 <= y < |issued|
      ensures Disjoint(issued[y].start, issued[y].start + issued[y].size, x.start, x.start + x.size)
    {
      SpanBelowRegion(regions, count, issued, y, i);
    }
  }

  lemma FitIsRegistered(rs: seq<Region>, n: nat, highest: nat, im: Image, size: nat, k: nat, i: nat)
    requires RegionsOk(rs, n, highest, im) && i < |rs| && Fits(rs[i], size, k)
    ensures i < n
  {
  }

  /** Allocation keeps the invariant: the new span is aligned, inside the unused front of one region,
      and hence disjoint from every earlier span, from every other region and from the kernel. */
  lemma AllocKeepsInv(s: State, im: Image, size: nat, k: nat)
    requires Inv(s, im)
    requires forall i :: 0 <= i < s.count ==> s.regions[i].start + Size(k) <= WORD
    ensures Inv(Alloc(s, size, k).1, im)
  {
    hide AlignUp, Size, Aligned, RegionOk, Disjoint;
    var i := FirstFit(s.regions, size, k, 0);
    if i < |s.regions| {
      FitIsRegistered(s.regions, s.count, s.highest, im, size, k, i);
      AlignUpExact(s.regions[i].start, k);
      var a := AlignUp(s.regions[i].start, k);
      RegionsOrdered(s.regions, s.count, s.highest, im);
      CutKeepsRegions(s.regions, s.count, s.highest, im, i, a + size);
      CutKeepsIssued(s.regions, s.count, s.issued, i, Span(a, size, k));
    }
  }

  /** Address `a` in region `r` can serve the request. */
  predicate Serves(r: Region, a: nat, size: nat, k: nat) {
    r.kind == MEM_REGION_AVAILABLE && Aligned(a, k) && r.start <= a < r.end && a + size <= r.end
  }

  /** The least address that can serve is the one the code tries. */
  lemma FitsIff(r: Region, im: Image, size: nat, k: nat)
    requires RegionOk(r, im) && r.start + Size(k) <= WORD
    ensures Fits(r, size, k) <==> exists a: nat :: Serves(r, a, size, k)
    ensures Fits(r, size, k) ==> Serves(r, AlignUp(r.start, k), size, k)
    ensures forall a: nat :: Serves(r, a, size, k) ==> AlignUp(r.start, k) <= a
  {
    AlignUpExact(r.start, k);
    hide Aligned, AlignUp;
    forall a: nat | Serves(r, a, size, k) ensures AlignUp(r.start, k) <= a {
      AlignUpLeast(r.start, k, a);
    }
    if Fits(r, size, k) {
      assert Serves(r, AlignUp(r.start, k), size, k);
    }
  }

  /** Region `i` is the first that can serve, `a` is its least address that can, and exactly that is taken. */
  ghost predicate ServedFrom(s: State, t: State, i: nat, a: nat, size: nat, k: nat) {
    && i < |s.regions| && Serves(s.regions[i], a, size, k)
    && (forall b: nat :: Serves(s.regions[i], b, size, k) ==> a <= b)
    && (forall j, b: nat :: 0 <= j < i ==> !Serves(s.regions[j], b, size, k))
    && t == s.(regions := s.regions[i := s.regions[i].(start := a + size)], issued := s.issued + [Span(a, size, k)])
  }

  /** bootmem_alloc serves a request if and only if some available region has room for it at an aligned address.
      It then takes the least such address of the first such region, uses that region up to the end of the
      allocation and no further, and leaves all others as they are. */
  lemma AllocExact(s: State, im: Image, size: nat, k: nat)
    requires Inv(s, im)
    requires forall i :: 0 <= i < s.count ==> s.regions[i].start + Size(k) <= WORD
    ensures var (p, t) := Alloc(s, size, k);
      && (p.Some? <==> exists i, a: nat :: 0 <= i < s.count && Serves(s.regions[i], a, size, k))
      && (p.None? ==> t == s)
      && (p.Some? ==> exists i :: 0 <= i < s.count && ServedFrom(s, t, i, p.value, size, k))
  {
    hide Size, Aligned, AlignUp;
    var i := FirstFit(s.regions, size, k, 0);
    forall j | 0 <= j < s.count
      ensures Fits(s.regions[j], size, k) <==> exists a: nat :: Serves(s.regions[j], a, size, k)
      ensures Fits(s.regions[j], size, k) ==> Serves(s.regions[j], AlignUp(s.regions[j].start, k), size, k)
      ensures forall a: nat :: Serves(s.regions[j], a, size, k) ==> AlignUp(s.regions[j].start, k) <= a
    {
      assert RegionOk(s.regions[j], im);
      FitsIff(s.regions[j], im, size, k);
    }
    if i < |s.regions| {
      FitIsRegistered(s.regions, s.count, s.highest, im, size, k, i);
      assert ServedFrom(s, Alloc(s, size, k).1, i, AlignUp(s.regions[i].start, k), size, k);
    }
  }

  // ---------------------------------------------------------------- boot runs

  datatype Op = Add(start: nat, end: nat, kind: nat) | Take(size: nat, align: nat)

  ghost predicate Enabled(s: State, im: Image, op: Op) {
    match op
    case Add(start, end, _) => FreshRange(s, start, end) && !SlipsThrough(im, start, end)
    case Take(_, k) => forall i :: 0 <= i < s.count && i < |s.regions| ==> s.regions[i].start + Size(k) <= WORD
  }

  function Apply(s: State, im: Image, op: Op): State
    requires |s.regions| == MAX_MEM_REGIONS && s.count <= MAX_MEM_REGIONS
  {
    match op
    case Add(start, end, kind) => Register(s, im, start, end, kind).1
    case Take(size, k) => Alloc(s, size, k).1
  }

  ghost predicate Legal(s: State, im: Image, ops: seq<Op>)
    decreases |ops|
  {
    ops != [] ==>
      && |s.regions| == MAX_MEM_REGIONS && s.count <= MAX_MEM_REGIONS
      && Enabled(s, im, ops[0]) && Legal(Apply(s, im, ops[0]), im, ops[1..])
  }

  ghost function Run(s: State, im: Image, ops: seq<Op>): State
    requires Legal(s, im, ops)
    decreases |ops|
  {
    if ops == [] then s else Run(Apply(s, im, ops[0]), im, ops[1..])
  }

  lemma StepKeepsInv(s: State, im: Image, op: Op)
    requires ValidImage(im) && Inv(s, im) && Enabled(s, im, op)
    ensures Inv(Apply(s, im, op), im)
  {
    match op
    case Add(start, end, kind) => RegisterKeepsInv(s, im, start, end, kind);
    case Take(size, k) => AllocKeepsInv(s, im, size, k);
  }

  /** What bootmem_reset leaves. */
  lemma StartInv(im: Image)
    ensures Inv(START, im)
  {
  }

  /** After any registrations and allocations, in any order: allocations are aligned, pairwise
      disjoint and outside the kernel image, and no byte of any of them is left in a region. */
  lemma {:induction false} BootRunsSafe(s: State, im: Image, ops: seq<Op>)
    requires ValidImage(im) && Inv(s, im) && Legal(s, im, ops)
    ensures Inv(Run(s, im, ops), im)
    decreases |ops|
  {
    if ops != [] {
      StepKeepsInv(s, im, ops[0]);
      BootRunsSafe(Apply(s, im, ops[0]), im, ops[1..]);
    }
  }

  /** A region is part of the whole pages of a range that was registered with its type. */
  predicate From(r: Region, op: Op) {
    op.Add? && r.kind == op.kind && PageUp(op.start) <= r.orig && r.end <= PageDown(op.end)
  }

  ghost predicate Registered(s: State, ops: seq<Op>) {
    && s.count <= |s.regions|
    && forall i :: 0 <= i < s.count ==> exists j :: 0 <= j < |ops| && From(s.regions[i], ops[j])
  }

  /** Over every run no region appears from nowhere or changes its type. */
  lemma {:induction false} RegionsRegistered(s: State, im: Image, done: seq<Op>, ops: seq<Op>)
    requires ValidImage(im) && Inv(s, im) && Legal(s, im, ops) && Registered(s, done)
    ensures Registered(Run(s, im, ops), done + ops)
    decreases |ops|
  {
    hide Inv, Registered, Enabled, Apply;
    if ops == [] {
      assert done + ops == done;
    } else {
      var op, t := ops[0], Apply(s, im, ops[0]);
      StepRegistered(s, im, done, op);
      StepKeepsInv(s, im, op);
      RegionsRegistered(t, im, done + [op], ops[1..]);
      assert done + [op] + ops[1..] == done + ops;
    }
  }

  lemma StepRegistered(s: State, im: Image, done: seq<Op>, op: Op)
    requires ValidImage(im) && Inv(s, im) && Enabled(s, im, op) && Registered(s, done)
    ensures Registered(Apply(s, im, op), done + [op])
  {
    var t, more := Apply(s, im, op), done + [op];
    KernelBounds(im);
    assert more[|done|] == op;
    forall i | 0 <= i < t.count ensures exists j :: 0 <= j < |more| && From(t.regions[i], more[j]) {
      if i < s.count {
        var j :| 0 <= j < |done| && From(s.regions[i], done[j]);
        assert more[j] == done[j];
        assert From(t.regions[i], more[j]);
      } else {
        hide KernelStart, KernelEnd, PageUp, PageDown;
        assert From(t.regions[i], more[|done|]);
      }
    }
  }

  /** What the invariant says about one allocation, byte by byte. */
  lemma IssuedIsolated(s: State, im: Image, x: nat, a: nat)
    requires Inv(s, im) && ValidImage(im) && x < |s.issued|
    requires s.issued[x].start <= a < s.issued[x].start + s.issued[x].size
    ensures !(im.start <= a < im.end)
    ensures exists i :: 0 <= i < s.count && s.regions[i].kind == MEM_REGION_AVAILABLE && s.regions[i].orig <= a < s.regions[i].end
    ensures forall i :: 0 <= i < s.count ==> !(s.regions[i].start <= a < s.regions[i].end)
    ensures forall y :: 0 <= y < |s.issued| && y != x ==> !(s.issued[y].start <= a < s.issued[y].start + s.issued[y].size)
  {
    var h := SpanRegion(s.regions, s.count, s.issued, x);
    assert RegionOk(s.regions[h], im);
    KernelBounds(im);
    forall i | 0 <= i < s.count ensures !(s.regions[i].start <= a < s.regions[i].end) {
      assert RegionOk(s.regions[i], im);
      RegionsOrdered(s.regions, s.count, s.highest, im);
      SpanBelowRegion(s.regions, s.count, s.issued, x, i);
    }
    forall y | 0 <= y < |s.issued| && y != x
      ensures !(s.issued[y].start <= a < s.issued[y].start + s.issued[y].size)
    {
      SpansDisjoint(s.regions, s.count, s.issued, x, y);
    }
  }

  lemma SpanRegion(regions: seq<Region>, count: nat, issued: seq<Span>, x: nat) returns (h: nat)
    requires count <= |regions| && IssuedOk(regions, count, issued) && x < |issued|
    ensures h < count && Within(issued[x], regions[h])
  {
    assert HasHome(issued[x], regions, count);
    h :| 0 <= h < count && Within(issued[x], regions[h]);
  }

  lemma RegionsOrdered(regions: seq<Region>, count: nat, highest: nat, im: Image)
    requires RegionsOk(regions, count, highest, im)
    ensures forall h :: 0 <= h < count ==> regions[h].orig <= regions[h].start <= regions[h].end
  {
    assert forall h :: 0 <= h < count ==> RegionOk(regions[h], im);
  }

  lemma SpansDisjoint(regions: seq<Region>, count: nat, issued: seq<Span>, x: nat, y: nat)
    requires count <= |regions| && IssuedOk(regions, count, issued) && x < |issued| && y < |issued| && x != y
    ensures Disjoint(issued[x].start, issued[x].start + issued[x].size, issued[y].start, issued[y].start + issued[y].size)
  {
  }
}
