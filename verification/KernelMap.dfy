/** The kernel's own page directory, set up by arch/x86/kernel/paging.c from 4 MB pages or from page tables
    out of boot memory. */
module KernelMap {
  import opened Kernel
  import opened Blocks
  import opened PageTables
  import Boot
  import BootHandoff

  const KMAP_START_VIRT: nat := 0xF000_0000
  const LARGE: nat := 0x40_0000   // what one directory entry covers
  const TABLE_START: nat := 768   // PAGE_DIRECTORY_INDEX(KERNEL_START_VIRT)
  const TABLE_KMAP: nat := 960    // PAGE_DIRECTORY_INDEX(KMAP_START_VIRT)
  const PAGE_SIZE_4M: nat := 0x80
  const GLOBAL: nat := 0x100

  /** The processor's translation of an address, section 4.3 of the Intel SDM, Volume 3A: the page-size bit
      counts only if page-size extensions are on. */
  function Translate(pse: bool, pgd: seq<nat>, mem: Memory, va: nat): Option<nat> {
    if va / LARGE >= |pgd| then None
    else
      var pde := pgd[va / LARGE];
      if !Exists(pde) then None
      else if pse && IsHuge(pde) then Some(pde - pde % LARGE + va % LARGE)
      else if !IsTable(mem, FrameOf(pde)) then None
      else
        var pte := mem[FrameOf(pde)][va / PAGE_SIZE % ENTRIES];
        if Exists(pte) then Some(pte - pte % PAGE_SIZE + va % PAGE_SIZE) else None
  }

  // ---------------------------------------------------------------- entries

  function Global(pge: bool): nat { if pge then GLOBAL else 0 }

  function LargeEntry(i: nat, pge: bool): nat {
    MakeEntry(i * LARGE, PRESENT + WRITABLE + PAGE_SIZE_4M + Global(pge))
  }

  function SmallEntry(i: nat, j: nat, pge: bool): nat {
    MakeEntry(i * LARGE + j * PAGE_SIZE, PRESENT + WRITABLE + Global(pge))
  }

  function DirEntry(f: nat, pge: bool): nat {
    MakeEntry(f * PAGE_SIZE, PRESENT + WRITABLE + Global(pge))
  }

  /** What the processor reads off a kernel mapping: present, writable, not for user code, and global exactly
      if global pages are on. */
  predicate KernelFlags(e: nat, pge: bool) {
    Exists(e) && IsWritable(e) && !IsUser(e) && (IsGlobal(e) <==> pge)
  }

  lemma LargeFields(i: nat, pge: bool)
    ensures var e := LargeEntry(i, pge); KernelFlags(e, pge) && IsHuge(e) && e - e % LARGE == i * LARGE
  {
    hide MakeEntry;
    var flags := PRESENT + WRITABLE + PAGE_SIZE_4M + Global(pge);
    assert i * LARGE == (1024 * i) * PAGE_SIZE;
    EntryOf(1024 * i, flags);
    FlagBits(1024 * i, flags);
    FlagValues(flags);
    LowPart(LARGE, i, flags);
  }

  lemma SmallFields(i: nat, j: nat, pge: bool)
    ensures var e := SmallEntry(i, j, pge); KernelFlags(e, pge) && e - e % PAGE_SIZE == i * LARGE + j * PAGE_SIZE
  {
    hide MakeEntry;
    assert i * LARGE + j * PAGE_SIZE == (1024 * i + j) * PAGE_SIZE;
    EntryOf(1024 * i + j, 3 + Global(pge));
    FlagBits(1024 * i + j, 3 + Global(pge));
    FlagValues(3 + Global(pge));
  }

  lemma DirFields(f: nat, pge: bool)
    ensures var e := DirEntry(f, pge); KernelFlags(e, pge) && !IsHuge(e) && FrameOf(e) == f
  {
    hide MakeEntry;
    EntryOf(f, 3 + Global(pge));
    FlagBits(f, 3 + Global(pge));
    FlagValues(3 + Global(pge));
  }

  lemma FlagValues(flags: nat)
    requires flags == 3 || flags == 3 + GLOBAL || flags == 3 + PAGE_SIZE_4M || flags == 3 + PAGE_SIZE_4M + GLOBAL
    ensures Exists(flags) && IsWritable(flags) && !IsUser(flags)
    ensures IsGlobal(flags) <==> flags >= GLOBAL
    ensures IsHuge(flags) <==> flags % GLOBAL >= PAGE_SIZE_4M
  {
  }

  // ---------------------------------------------------------------- what the loops leave

  /** A page table that maps slot `i` of the kernel's half directly. */
  function DirectTable(i: nat, pge: bool): seq<nat> {
    seq(ENTRIES, j requires 0 <= j => SmallEntry(i, j, pge))
  }

  function EmptyTable(): seq<nat> { seq(ENTRIES, _ => 0) }

  /** Directory slot `d` points at a table with these contents. */
  ghost predicate PointsAt(pgd: seq<nat>, mem: Memory, d: nat, table: seq<nat>, pge: bool, f: nat) {
    d < |pgd| && pgd[d] == DirEntry(f, pge) && f in mem && mem[f] == table
  }

  /** Directory slot `d` is set up; `tables` says in which frame its page table is. */
  ghost predicate SlotDone(pse: bool, pge: bool, pgd: seq<nat>, mem: Memory, tables: map<nat, nat>, d: nat) {
    if d < TABLE_KMAP && pse then d < |pgd| && d >= TABLE_START && pgd[d] == LargeEntry(d - TABLE_START, pge)
    else
      && d >= TABLE_START && d in tables
      && PointsAt(pgd, mem, d, if d < TABLE_KMAP then DirectTable(d - TABLE_START, pge) else EmptyTable(), pge, tables[d])
  }

  ghost predicate AllDone(pse: bool, pge: bool, pgd: seq<nat>, mem: Memory, tables: map<nat, nat>, from: nat, to: nat) {
    && (forall d: nat :: from <= d < to ==> SlotDone(pse, pge, pgd, mem, tables, d))
    && (forall d :: d in tables ==> d < to)
  }

  /** Setting up one more slot; a table in a frame of its own leaves the others as they are. */
  lemma OneMoreLarge(pge: bool, pgd: seq<nat>, mem: Memory, tables: map<nat, nat>, d: nat)
    requires |pgd| == ENTRIES && TABLE_START <= d < TABLE_KMAP && AllDone(true, pge, pgd, mem, tables, TABLE_START, d)
    ensures AllDone(true, pge, pgd[d := LargeEntry(d - TABLE_START, pge)], mem, tables, TABLE_START, d + 1)
  {
    hide LargeEntry;
    var pgd' := pgd[d := LargeEntry(d - TABLE_START, pge)];
    forall e: nat | TABLE_START <= e < d + 1 ensures SlotDone(true, pge, pgd', mem, tables, e) {
      assert e < d ==> SlotDone(true, pge, pgd, mem, tables, e);
    }
  }

  lemma OneMoreTable(pse: bool, pge: bool, pgd: seq<nat>, mem: Memory, tables: map<nat, nat>, d: nat, f: nat, table: seq<nat>)
    requires |pgd| == ENTRIES && TABLE_START <= d < ENTRIES && AllDone(pse, pge, pgd, mem, tables, TABLE_START, d)
    requires f !in tables.Values && !(d < TABLE_KMAP && pse)
    requires table == if d < TABLE_KMAP then DirectTable(d - TABLE_START, pge) else EmptyTable()
    ensures AllDone(pse, pge, pgd[d := DirEntry(f, pge)], mem[f := table], tables[d := f], TABLE_START, d + 1)
    ensures tables[d := f].Values == tables.Values + {f}
  {
    hide LargeEntry, DirEntry, DirectTable;
    var pgd', mem', tables' := pgd[d := DirEntry(f, pge)], mem[f := table], tables[d := f];
    forall e: nat | TABLE_START <= e < d + 1 ensures SlotDone(pse, pge, pgd', mem', tables', e) {
      if e < d {
        assert SlotDone(pse, pge, pgd, mem, tables, e);
        assert e in tables ==> tables[e] in tables.Values && tables'[e] == tables[e];
      }
    }
    forall x ensures x in tables'.Values <==> x in tables.Values + {f} {
      if x == f {
        assert tables'[d] == f;
      } else if x in tables.Values {
        var e :| e in tables && tables[e] == x;
        assert tables'[e] == x;
      }
    }
  }

  /** A slot that is set up translates every address it covers to the address less KERNEL_START_VIRT, or to
      nothing in the kmap area, whichever of the two kinds of page it is made of. */
  lemma SlotTranslates(pse: bool, pge: bool, pgd: seq<nat>, mem: Memory, tables: map<nat, nat>, va: nat)
    requires |pgd| == ENTRIES && KERNEL_START_VIRT <= va < WORD && SlotDone(pse, pge, pgd, mem, tables, va / LARGE)
    ensures Translate(pse, pgd, mem, va) == if va < KMAP_START_VIRT then Some(va - KERNEL_START_VIRT) else None
  {
    var d := va / LARGE;
    var i, j := d - TABLE_START, va / PAGE_SIZE % ENTRIES;
    if d < TABLE_KMAP && pse {
      LargeFields(i, pge);
    } else {
      DirFields(tables[d], pge);
      if d < TABLE_KMAP {
        SmallFields(i, j, pge);
        assert mem[tables[d]][j] == SmallEntry(i, j, pge);
        assert va == LARGE * d + PAGE_SIZE * j + va % PAGE_SIZE;
      }
    }
  }

  // ---------------------------------------------------------------- frames from boot memory

  /** Every frame of `taken` is a page that bootmem_alloc handed out. */
  ghost predicate FromBoot(issued: seq<Boot.Span>, taken: set<nat>) {
    forall f :: f in taken ==> Boot.Span(f * PAGE_SIZE, PAGE_SIZE, 12) in issued
  }

  /** A further page is a frame that was not handed out before. */
  lemma NewFrame(s: Boot.State, im: Boot.Image, taken: set<nat>)
    requires Boot.Inv(s, im) && FromBoot(s.issued, taken)
    ensures var (p, t) := Boot.Alloc(s, PAGE_SIZE, 12);
      && Boot.Inv(t, im) && (p.None? ==> t == s)
      && (p.Some? ==>
            && p.value % PAGE_SIZE == 0 && p.value / PAGE_SIZE !in taken
            && FromBoot(t.issued, taken + {p.value / PAGE_SIZE}))
  {
    hide Boot.Alloc, Boot.Inv, FromBoot;
    PageStarts(s, im);
    Boot.AllocKeepsInv(s, im, PAGE_SIZE, 12);
    LastIssued(s);
    var (p, t) := Boot.Alloc(s, PAGE_SIZE, 12);
    if p.Some? {
      assert t.issued[..|t.issued| - 1] == s.issued;
      NewIsApart(t, im, taken);
      FromBootGrows(s.issued, taken, p.value / PAGE_SIZE);
    }
  }

  lemma FromBootGrows(issued: seq<Boot.Span>, taken: set<nat>, f: nat)
    requires FromBoot(issued, taken)
    ensures FromBoot(issued + [Boot.Span(f * PAGE_SIZE, PAGE_SIZE, 12)], taken + {f})
  {
    var longer := issued + [Boot.Span(f * PAGE_SIZE, PAGE_SIZE, 12)];
    assert longer[|issued|] == Boot.Span(f * PAGE_SIZE, PAGE_SIZE, 12);
    assert forall x :: x in issued ==> x in longer;
  }

  lemma PageStarts(s: Boot.State, im: Boot.Image)
    requires Boot.Inv(s, im)
    ensures s.count <= |s.regions|
    ensures forall i :: 0 <= i < s.count ==> s.regions[i].start + Size(12) <= WORD
  {
    PageOrder();
    forall i | 0 <= i < s.count ensures s.regions[i].start + Size(12) <= WORD {
      assert Boot.RegionOk(s.regions[i], im);
    }
  }

  lemma PageOrder()
    ensures Size(12) == PAGE_SIZE
  {
    assert Size(4) == 16 && Size(8) == 256;
  }

  lemma LastIssued(s: Boot.State)
    ensures var (p, t) := Boot.Alloc(s, PAGE_SIZE, 12);
      if p.Some? then t.issued == s.issued + [Boot.Span(p.value, PAGE_SIZE, 12)] else t == s
  {
  }

  /** The last page handed out is none of those handed out before. */
  lemma NewIsApart(t: Boot.State, im: Boot.Image, taken: set<nat>)
    requires Boot.Inv(t, im) && |t.issued| > 0
    requires FromBoot(t.issued[..|t.issued| - 1], taken)
    requires t.issued[|t.issued| - 1].size == PAGE_SIZE && t.issued[|t.issued| - 1].align == 12
    ensures var a := t.issued[|t.issued| - 1].start;
      a % PAGE_SIZE == 0 && a == a / PAGE_SIZE * PAGE_SIZE && a / PAGE_SIZE !in taken
  {
    var n := |t.issued| - 1;
    var a := t.issued[n].start;
    PageOrder();
    assert Aligned(a, 12);
    DownIsMultiple(a, 12);
    var f := ShiftRight(a, 12);
    LowPart(PAGE_SIZE, f, 0);
    forall y | 0 <= y < n ensures t.issued[..n][y] != Boot.Span(a, PAGE_SIZE, 12) {
      Boot.SpansDisjoint(t.regions, t.count, t.issued, y, n);
    }
  }

  class KernelDirectory {
    const pgd: array<nat>
    var mem: Memory

    constructor ()
      ensures pgd.Length == ENTRIES && fresh(pgd)
    {
      pgd := new nat[ENTRIES](_ => 0);
      mem := map[];
    }

    /** What the loops need and keep. */
    ghost predicate Ready(boot: BootHandoff.BootMemory, tables: map<nat, nat>)
      reads this, pgd, boot, boot.regions
    {
      && pgd.Length == ENTRIES && {this, pgd} !! {boot, boot.regions}
      && boot.regions.Length == Boot.MAX_MEM_REGIONS && Boot.Inv(boot.View(), boot.image)
      && FromBoot(boot.View().issued, tables.Values)
    }

    /** Take a page of boot memory, fill it and hang it into slot `d`. */
    method HangTable(boot: BootHandoff.BootMemory, d: nat, table: seq<nat>, pge: bool, ghost tables: map<nat, nat>)
      returns (ok: bool, ghost f: nat)
      requires Ready(boot, tables) && d < ENTRIES
      modifies this`mem, pgd, boot`issued, boot.regions
      ensures !ok ==> Boot.Alloc(boot.View(), PAGE_SIZE, 12).0.None?
      ensures old(boot.issued) <= boot.issued
      ensures Ready(boot, tables) && (ok ==> FromBoot(boot.View().issued, tables.Values + {f}) && f !in tables.Values)
      ensures pgd[..] == if ok then old(pgd[..])[d := DirEntry(f, pge)] else old(pgd[..])
      ensures mem == if ok then old(mem)[f := table] else old(mem)
    {
      hide Boot.Inv, Boot.Alloc, MakeEntry;
      LastIssued(boot.View());
      NewFrame(boot.View(), boot.image, tables.Values);
      var p := boot.Alloc(PAGE_SIZE, 12);
      if p.None? {
        return false, 0;
      }
      f := p.value / PAGE_SIZE;
      assert p.value == f * PAGE_SIZE;
      mem := mem[p.value / PAGE_SIZE := table];
      pgd[d] := MakeEntry(p.value, PRESENT + WRITABLE + Global(pge));
      ok := true;
    }

    /** The inner loop of the 4 KB branch. */
    method FillTable(i: nat, pge: bool) returns (table: seq<nat>)
      ensures table == DirectTable(i, pge)
    {
      var pte := new nat[ENTRIES];
      var page := 0;
      while page < ENTRIES
        invariant page <= ENTRIES && forall j :: 0 <= j < page ==> pte[j] == SmallEntry(i, j, pge)
      {
        pte[page] := MakeEntry(i * LARGE + page * PAGE_SIZE, PRESENT + WRITABLE + Global(pge));
        page := page + 1;
      }
      table := pte[..];
    }

    /** The 4 MB branch. */
    method LargePages(pge: bool)
      requires pgd.Length == ENTRIES
      modifies pgd
      ensures AllDone(true, pge, pgd[..], mem, map[], TABLE_START, TABLE_KMAP)
      ensures pgd[..TABLE_START] == old(pgd[..TABLE_START])
    {
      var d := TABLE_START;
      while d < TABLE_KMAP
        invariant TABLE_START <= d <= TABLE_KMAP && AllDone(true, pge, pgd[..], mem, map[], TABLE_START, d)
        invariant pgd[..TABLE_START] == old(pgd[..TABLE_START])
      {
        OneMoreLarge(pge, pgd[..], mem, map[], d);
        ghost var was := pgd[..];
        pgd[d] := MakeEntry((d - TABLE_START) * LARGE, PRESENT + WRITABLE + PAGE_SIZE_4M + Global(pge));
        assert pgd[..] == was[d := LargeEntry(d - TABLE_START, pge)];
        d := d + 1;
      }
    }

    /** The 4 KB branch and the loop for the kmap area: hang tables into the slots from `start` up to `end`. */
    method Tables(boot: BootHandoff.BootMemory, start: nat, end: nat, pse: bool, pge: bool, ghost tables: map<nat, nat>)
      returns (ok: bool, ghost tables': map<nat, nat>)
      requires TABLE_START <= start <= end <= ENTRIES && (pse ==> TABLE_KMAP <= start)
      requires Ready(boot, tables) && AllDone(pse, pge, pgd[..], mem, tables, TABLE_START, start)
      modifies this`mem, pgd, boot`issued, boot.regions
      ensures old(boot.issued) <= boot.issued
      ensures Ready(boot, tables') && (ok ==> AllDone(pse, pge, pgd[..], mem, tables', TABLE_START, end))
      ensures !ok ==> Boot.Alloc(boot.View(), PAGE_SIZE, 12).0.None?
      ensures pgd[..TABLE_START] == old(pgd[..TABLE_START])
    {
      var d := start;
      tables' := tables;
      while d < end
        invariant start <= d <= end && Ready(boot, tables') && AllDone(pse, pge, pgd[..], mem, tables', TABLE_START, d)
        invariant pgd[..TABLE_START] == old(pgd[..TABLE_START]) && old(boot.issued) <= boot.issued
      {
        hide AllDone, Boot.Inv, FromBoot, Boot.Alloc, DirEntry, DirectTable, EmptyTable;
        var table;
        if d < TABLE_KMAP {
          table := FillTable(d - TABLE_START, pge);
        } else {
          table := EmptyTable();   // memset
        }
        ghost var was, mem0 := pgd[..], mem;
        ghost var f;
        ok, f := HangTable(boot, d, table, pge, tables');
        if !ok {
          return;
        }
        OneMoreTable(pse, pge, was, mem0, tables', d, f, table);
        tables' := tables'[d := f];
        d := d + 1;
      }
      ok := true;
    }

    /** paging_setup_kernel_pgd: with or without 4 MB pages, every address of the kernel's half below the kmap
        area translates to that address less KERNEL_START_VIRT, and the kmap area to nothing yet; it fails only
        when boot memory runs out, and leaves the user half alone. `tables` says which frame of boot memory each
        page table is in. */
    method SetupKernelPgd(boot: BootHandoff.BootMemory, pse: bool, pge: bool) returns (ok: bool, ghost tables: map<nat, nat>)
      requires Ready(boot, map[])
      modifies this`mem, pgd, boot`issued, boot.regions
      ensures Boot.Inv(boot.View(), boot.image) && pgd[..TABLE_START] == old(pgd[..TABLE_START])
      ensures old(boot.issued) <= boot.issued && FromBoot(boot.issued, tables.Values)
      ensures ok ==> AllDone(pse, pge, pgd[..], mem, tables, TABLE_START, ENTRIES)
      ensures !ok ==> Boot.Alloc(boot.View(), PAGE_SIZE, 12).0.None?
      ensures ok ==> forall va: nat :: KERNEL_START_VIRT <= va < WORD ==>
        Translate(pse, pgd[..], mem, va) == if va < KMAP_START_VIRT then Some(va - KERNEL_START_VIRT) else None
    {
      tables := map[];
      if pse {
        LargePages(pge);
      } else {
        ok, tables := Tables(boot, TABLE_START, TABLE_KMAP, pse, pge, tables);
        if !ok {
          return;
        }
      }
      ok, tables := Tables(boot, TABLE_KMAP, ENTRIES, pse, pge, tables);
      if !ok {
        return;
      }
      hide Translate;
      forall va: nat | KERNEL_START_VIRT <= va < WORD
        ensures Translate(pse, pgd[..], mem, va) == if va < KMAP_START_VIRT then Some(va - KERNEL_START_VIRT) else None
      {
        SlotTranslates(pse, pge, pgd[..], mem, tables, va);
      }
    }
  }
}
