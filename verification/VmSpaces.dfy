/** Address spaces of kernel/mm/vm.c: page faults fill a directory on demand, and tearing the space down
    gives every frame back. */
module VmSpaces {
  import opened Kernel
  import opened Frames
  import opened PageTables
  import opened RefCounts
  import opened PtableOps
  import Sequences
  import Buddy
  import BuddyCanonical

  /** What all page tables together look like at one moment. */
  datatype Snapshot = Snapshot(pool: Pool, ledger: Ledger)

  /** A resolved fault: the page, the frame it got, the frame of a new page table if one was needed, and
      the entry written. */
  datatype Fault = Fault(page: nat, frame: nat, table: Option<nat>, entry: nat)

  ghost predicate FaultOk(s: Snapshot, d: nat, f: Fault) {
    && d in s.ledger.dirs && f.page < USER_PAGES && f.frame in s.pool.free
    && Exists(f.entry) && FrameOf(f.entry) == f.frame
    && (if (d, DirOf(f.page)) in s.ledger.tabs then f.table == None
        else f.table.Some? && f.table.value in s.pool.free && f.table.value != f.frame)
  }

  /** vm_space_map_page: take a frame, perhaps a table, and write the entry. */
  function ApplyFault(s: Snapshot, d: nat, f: Fault): Snapshot {
    var p := Take(s.pool, f.frame);
    if f.table == None
    then Snapshot(p, s.ledger.(leaves := s.ledger.leaves[(d, f.page) := f.entry]))
    else Snapshot(Take(p, f.table.value),
                  s.ledger.(tabs := s.ledger.tabs[(d, DirOf(f.page)) := f.table.value],
                            leaves := s.ledger.leaves[(d, f.page) := f.entry]))
  }

  /** Every frame that `d` maps is mapped by one entry only. */
  ghost predicate Private(l: Ledger, d: nat) {
    forall k :: k in l.leaves && k.0 == d ==> Users(l.leaves, FrameOf(l.leaves[k])) == {k}
  }

  /** The frame that a fault strands: the one a present entry for that page mapped before. */
  function Stranded(s: Snapshot, d: nat, f: Fault): set<nat> {
    if (d, f.page) in s.ledger.leaves then {FrameOf(s.ledger.leaves[(d, f.page)])} else {}
  }

  // ---------------------------------------------------------------- one fault

  lemma TakeCommutes(p: Pool, x: nat, y: nat)
    requires x != y
    ensures Take(Take(p, x), y) == Take(Take(p, y), x)
  {
    assert p.uses[x := 1][y := 1] == p.uses[y := 1][x := 1];
  }

  lemma TakeTotal(p: Pool, x: nat)
    requires x in p.free
    ensures Take(p, x).free + Take(p, x).uses.Keys == p.free + p.uses.Keys
  {
  }

  lemma FaultAccounts(s: Snapshot, d: nat, f: Fault)
    requires Counted(s.pool, s.ledger) && Private(s.ledger, d) && FaultOk(s, d, f)
    ensures var t := ApplyFault(s, d, f);
      && Counted(t.pool, t.ledger)
      && Outside(t.pool, t.ledger) == Outside(s.pool, s.ledger) + Stranded(s, d, f)
      && Stranded(s, d, f) !! Outside(s.pool, s.ledger)
      && t.pool.free + t.pool.uses.Keys == s.pool.free + s.pool.uses.Keys
  {
    hide Counted, Outside;
    var p, l := s.pool, s.ledger;
    if f.table.Some? {
      TakeTable(p, l, f.table.value, (d, DirOf(f.page)));
      TakeCommutes(p, f.frame, f.table.value);
      TakeTotal(p, f.table.value);
      p, l := Take(p, f.table.value), l.(tabs := l.tabs[(d, DirOf(f.page)) := f.table.value]);
    }
    TakeTotal(p, f.frame);
    if (d, f.page) in l.leaves {
      assert Users(l.leaves, FrameOf(l.leaves[(d, f.page)])) == {(d, f.page)};
      OverwriteLeaf(p, l, f.frame, (d, f.page), f.entry);
    } else {
      TakeLeaf(p, l, f.frame, (d, f.page), f.entry);
    }
    assert ApplyFault(s, d, f) == Snapshot(Take(p, f.frame), l.(leaves := l.leaves[(d, f.page) := f.entry]));
  }

  lemma FaultKeepsPrivate(s: Snapshot, d: nat, f: Fault)
    requires Counted(s.pool, s.ledger) && Private(s.ledger, d) && FaultOk(s, d, f)
    ensures Private(ApplyFault(s, d, f).ledger, d)
  {
    var a, b := s.ledger.leaves, ApplyFault(s, d, f).ledger.leaves;
    var key := (d, f.page);
    assert forall j :: j in a ==> FrameOf(a[j]) in LeafFrames(a);
    assert f.frame !in LeafFrames(a);
    forall k | k in b && k.0 == d ensures Users(b, FrameOf(b[k])) == {k} {
      if k == key {
        forall j | j in b && FrameOf(b[j]) == f.frame ensures j == key {
        }
      } else {
        assert FrameOf(a[k]) in LeafFrames(a);
        assert Users(a, FrameOf(a[k])) == {k};
        forall j | j in b && FrameOf(b[j]) == FrameOf(b[k]) ensures j == k {
          if j != key { assert j in Users(a, FrameOf(a[k])); }
        }
      }
    }
  }

  lemma FaultStaysInside(s: Snapshot, d: nat, f: Fault)
    requires FaultOk(s, d, f)
    ensures WithoutDir(ApplyFault(s, d, f).ledger, d) == WithoutDir(s.ledger, d)
  {
    var a, b := WithoutDir(s.ledger, d), WithoutDir(ApplyFault(s, d, f).ledger, d);
    assert a.tabs == b.tabs && a.leaves == b.leaves;
  }

  // ---------------------------------------------------------------- any number of faults

  ghost predicate FaultsOk(s: Snapshot, d: nat, fs: seq<Fault>)
    decreases |fs|
  {
    fs != [] ==> FaultOk(s, d, fs[0]) && FaultsOk(ApplyFault(s, d, fs[0]), d, fs[1..])
  }

  function ApplyFaults(s: Snapshot, d: nat, fs: seq<Fault>): Snapshot
    decreases |fs|
  {
    if fs == [] then s else ApplyFaults(ApplyFault(s, d, fs[0]), d, fs[1..])
  }

  /** One more fault at the end. */
  lemma {:induction false} FaultsGrow(s: Snapshot, d: nat, fs: seq<Fault>, f: Fault)
    requires FaultsOk(s, d, fs) && FaultOk(ApplyFaults(s, d, fs), d, f)
    ensures FaultsOk(s, d, fs + [f]) && ApplyFaults(s, d, fs + [f]) == ApplyFault(ApplyFaults(s, d, fs), d, f)
    decreases |fs|
  {
    hide FaultOk, ApplyFault;
    var gs := fs + [f];
    if fs != [] {
      FaultsGrow(ApplyFault(s, d, fs[0]), d, fs[1..], f);
      assert gs[0] == fs[0] && gs[1..] == fs[1..] + [f];
    } else {
      assert gs == [f] && gs[1..] == [];
    }
  }

  /** No fault is on a page that is mapped already. */
  predicate FirstTouches(leaves: map<Key, nat>, d: nat, fs: seq<Fault>) {
    && (forall i :: 0 <= i < |fs| ==> (d, fs[i].page) !in leaves)
    && (forall i, j :: 0 <= i < j < |fs| ==> fs[i].page != fs[j].page)
  }

  /** After any faults, the frames that nothing accounts for are those from before and those stranded;
      none is stranded exactly when every fault touched its page for the first time. */
  lemma {:induction false} FaultsAccount(s: Snapshot, d: nat, fs: seq<Fault>) returns (stranded: set<nat>)
    requires Counted(s.pool, s.ledger) && Private(s.ledger, d) && FaultsOk(s, d, fs)
    ensures var t := ApplyFaults(s, d, fs);
      && Counted(t.pool, t.ledger)
      && Outside(t.pool, t.ledger) == Outside(s.pool, s.ledger) + stranded
      && stranded !! Outside(s.pool, s.ledger)
      && t.pool.free + t.pool.uses.Keys == s.pool.free + s.pool.uses.Keys
      && WithoutDir(t.ledger, d) == WithoutDir(s.ledger, d)
    ensures stranded == {} <==> FirstTouches(s.ledger.leaves, d, fs)
    decreases |fs|
  {
    hide Counted, Outside, Private;
    if fs == [] {
      stranded := {};
    } else {
      var t := ApplyFault(s, d, fs[0]);
      FaultAccounts(s, d, fs[0]);
      FaultKeepsPrivate(s, d, fs[0]);
      FaultStaysInside(s, d, fs[0]);
      var rest := FaultsAccount(t, d, fs[1..]);
      stranded := Stranded(s, d, fs[0]) + rest;
      FirstTouchesStep(s, d, fs);
    }
  }

  lemma FirstTouchesStep(s: Snapshot, d: nat, fs: seq<Fault>)
    requires fs != []
    ensures FirstTouches(s.ledger.leaves, d, fs) <==>
      (d, fs[0].page) !in s.ledger.leaves && FirstTouches(ApplyFault(s, d, fs[0]).ledger.leaves, d, fs[1..])
  {
    var a, b := s.ledger.leaves, ApplyFault(s, d, fs[0]).ledger.leaves;
    assert b == a[(d, fs[0].page) := fs[0].entry];
    if FirstTouches(b, d, fs[1..]) && (d, fs[0].page) !in a {
      forall i | 0 <= i < |fs| ensures (d, fs[i].page) !in a && (i > 0 ==> fs[0].page != fs[i].page) {
        if i > 0 { assert fs[1..][i - 1] == fs[i]; }
      }
      forall i, j | 0 <= i < j < |fs| ensures fs[i].page != fs[j].page {
        if i > 0 { assert fs[1..][i - 1] == fs[i] && fs[1..][j - 1] == fs[j]; }
      }
    }
  }

  /** The pages of the faults, in order. */
  function Pages(fs: seq<Fault>): seq<nat> {
    seq(|fs|, i requires 0 <= i < |fs| => fs[i].page)
  }

  /** What vm_space_new does once it has frame `d` for the directory. */
  function Born(s: Snapshot, d: nat): Snapshot {
    Snapshot(Take(s.pool, d), s.ledger.(dirs := s.ledger.dirs + {d}))
  }

  /** From `s` to `z` an address space with directory `d` was made, took the faults `fs`, and was destroyed. */
  ghost predicate Lived(s: Snapshot, d: nat, fs: seq<Fault>, z: Snapshot) {
    && Counted(s.pool, s.ledger) && Keyed(s.ledger) && d in s.pool.free && FaultsOk(Born(s, d), d, fs)
    && var last := ApplyFaults(Born(s, d), d, fs);
       z.ledger == WithoutDir(last.ledger, d) && Counted(z.pool, z.ledger) && Settled(last.pool, last.ledger, z.pool, z.ledger)
  }

  /** Conservation over a whole lifetime: from vm_space_new through any faults to vm_space_destroy, the
      other address spaces are untouched, no frame is created, and the set of free frames returns to what
      it was if and only if no fault was on a page that was mapped already. */
  lemma LifetimeConserves(s: Snapshot, d: nat, fs: seq<Fault>, z: Snapshot)
    requires Lived(s, d, fs, z)
    ensures z.ledger == s.ledger && z.pool.free <= s.pool.free
    ensures z.pool.free == s.pool.free <==> Sequences.NoDup(Pages(fs))
  {
    hide Counted, Outside, Owned, FaultsOk, ApplyFaults;
    var born := Born(s, d);
    TakeDir(s.pool, s.ledger, d);
    FreeNotDir(s.pool, s.ledger, d);
    TakeTotal(s.pool, d);
    NoKeys(s.ledger, d);
    var stranded := FaultsAccount(born, d, fs);
    FirstTouchesOfNew(born.ledger.leaves, d, fs);
    assert z.ledger == s.ledger by { WithoutNew(s.ledger, d); }
    var o := Outside(s.pool, s.ledger);
    assert z.pool.uses.Keys == o + stranded + Owned(s.ledger) by { KeysSplit(z.pool, z.ledger); }
    assert s.pool.uses.Keys == o + Owned(s.ledger) by { KeysSplit(s.pool, s.ledger); }
    assert z.pool.free + z.pool.uses.Keys == s.pool.free + s.pool.uses.Keys;
    assert stranded !! s.pool.uses.Keys by { StrandedNew(z.pool, z.ledger, stranded, o); }
    CountedApart(s.pool, s.ledger);
    CountedApart(z.pool, z.ledger);
    FreeSplit(s.pool.free, s.pool.uses.Keys, z.pool.free, z.pool.uses.Keys, stranded);
  }

  /** The same as the page allocator sees it: its free pages are back to what they were, and each of its seven
      lists has the members it had, if and only if no fault was on a page that was mapped already. */
  lemma LifetimeRestoresLists(s: Snapshot, d: nat, fs: seq<Fault>, z: Snapshot, a: Buddy.State, b: Buddy.State, outside: set<Buddy.Block>)
    requires Lived(s, d, fs, z) && Shows(a, s.pool, outside) && Shows(b, z.pool, outside)
    ensures Buddy.FreePages(b) <= Buddy.FreePages(a)
    ensures Buddy.FreePages(b) == Buddy.FreePages(a) <==> Sequences.NoDup(Pages(fs))
    ensures BuddyCanonical.SameLists(a, b) <==> Sequences.NoDup(Pages(fs))
  {
    LifetimeConserves(s, d, fs, z);
    BuddyCanonical.ListsIffFreePages(a, b);
  }

  lemma FirstTouchesOfNew(leaves: map<Key, nat>, d: nat, fs: seq<Fault>)
    requires forall k :: k in leaves ==> k.0 != d
    ensures FirstTouches(leaves, d, fs) <==> Sequences.NoDup(Pages(fs))
  {
    var pages := Pages(fs);
    assert forall i :: 0 <= i < |fs| ==> pages[i] == fs[i].page;
  }

  lemma FreeNotDir(p: Pool, l: Ledger, d: nat)
    requires Counted(p, l) && d in p.free
    ensures d !in l.dirs
  {
  }

  lemma FreshPrivate(m: Memory, p: Pool, l: Ledger)
    requires Agree(m, l) && Counted(p, l)
    ensures forall d: nat :: d in p.free ==> Private(l.(dirs := l.dirs + {d}), d)
  {
  }

  lemma CountedApart(p: Pool, l: Ledger)
    requires Counted(p, l)
    ensures p.free !! p.uses.Keys
  {
  }

  lemma NoKeys(l: Ledger, d: nat)
    requires Keyed(l) && d !in l.dirs
    ensures forall k :: k in l.leaves ==> k.0 != d
    ensures forall k :: k in l.tabs ==> k.0 != d
    ensures Private(l.(dirs := l.dirs + {d}), d)
  {
  }

  lemma WithoutNew(l: Ledger, d: nat)
    requires Keyed(l) && d !in l.dirs
    ensures WithoutDir(l.(dirs := l.dirs + {d}), d) == l
  {
    NoKeys(l, d);
    var k := WithoutDir(l.(dirs := l.dirs + {d}), d);
    assert k.dirs == l.dirs && k.tabs == l.tabs && k.leaves == l.leaves;
  }

  lemma KeysSplit(p: Pool, l: Ledger)
    requires Counted(p, l)
    ensures p.uses.Keys == Outside(p, l) + Owned(l)
  {
  }

  lemma StrandedNew(p: Pool, l: Ledger, stranded: set<nat>, o: set<nat>)
    requires Outside(p, l) == o + stranded && stranded !! o
    ensures stranded !! o + Owned(l)
  {
  }

  lemma FreeSplit(f0: set<nat>, k0: set<nat>, f1: set<nat>, k1: set<nat>, extra: set<nat>)
    requires f0 !! k0 && f1 !! k1 && f0 + k0 == f1 + k1 && k1 == k0 + extra && extra !! k0
    ensures f1 <= f0 && (f1 == f0 <==> extra == {})
  {
    forall x | x in f1 ensures x in f0 {
      assert x in f0 + k0;
    }
    if x :| x in extra {
      assert x in f0 + k0;
    }
    if extra == {} {
      forall x | x in f0 ensures x in f1 {
        assert x in f1 + k1;
      }
    }
  }

  // ---------------------------------------------------------------- the operations

  /** struct vm_map: the half-open address range it covers. */
  datatype VmMap = VmMap(start: nat, end: nat)

  predicate Covers(m: VmMap, addr: nat) { m.start <= addr < m.end }

  class AddressSpace {
    const tables: PageTableMemory
    const self: nat   // where the object itself is
    var pgd: nat
    var mappings: seq<VmMap>

    ghost predicate Valid()
      reads this, tables, tables.allocator, tables.allocator.order, tables.allocator.invalid, tables.allocator.uses
      reads tables.allocator.freeCount, tables.allocator.nodes
    {
      tables.Wired() && tables.Backed() && Counted(tables.pool, tables.ledger) && pgd in tables.ledger.dirs
    }

    ghost function Now(): Snapshot
      reads tables
    {
      Snapshot(tables.pool, tables.ledger)
    }

    /** The part of vm_space_new after the object has been allocated at address `self`, with a page for the
        directory to be had. */
    constructor (tables: PageTableMemory, self: nat)
      requires tables.Wired() && tables.Backed() && Counted(tables.pool, tables.ledger) && tables.pool.free != {}
      modifies tables`pool, tables`memory, tables`ledger, tables.allocator, tables.allocator.order, tables.allocator.uses, tables.allocator.freeCount, tables.allocator.nodes
      ensures Valid() && this.tables == tables && this.self == self && mappings == [] && Private(tables.ledger, pgd)
      ensures pgd in old(tables.pool).free
      ensures Now() == Born(Snapshot(old(tables.pool), old(tables.ledger)), pgd)
    {
      hide Agree, Counted, PageTableMemory.Backed;
      this.tables, this.self := tables, self;
      mappings := [];
      ghost var p, l := tables.pool, tables.ledger;
      FreshPrivate(tables.memory, p, l);
      var d := tables.PgdNew();
      TakeDir(p, l, d);
      pgd := d;
    }

    /** vm_space_add_map. */
    method AddMap(m: VmMap)
      modifies this`mappings
      ensures mappings == [m] + old(mappings)
    {
      mappings := [m] + mappings;
    }

    /** vm_space_page_fault on a user address: an error, and no change, when no mapping covers the address
        or no frame is free; otherwise one fault is resolved. If a page table is needed as well, its
        allocation succeeds. */
    method PageFault(addr: nat) returns (rv: int, ghost fault: Option<Fault>)
      requires Valid() && addr < KERNEL_START_VIRT
      requires (pgd, DirOf(addr / PAGE_SIZE)) !in tables.ledger.tabs ==> |tables.pool.free| != 1
      modifies tables`pool, tables`memory, tables`ledger, tables.allocator, tables.allocator.order, tables.allocator.uses, tables.allocator.freeCount, tables.allocator.nodes
      ensures tables.Wired() && tables.Backed() && mappings == old(mappings)
      ensures Private(old(tables.ledger), pgd) ==> Valid() && Private(tables.ledger, pgd)
      ensures rv == E_SUCCESS <==> fault.Some?
      ensures rv == E_ERROR || rv == E_SUCCESS
      ensures rv == E_ERROR <==> old(tables.pool).free == {} || forall i :: 0 <= i < |mappings| ==> !(mappings[i].start <= addr < mappings[i].end)
      ensures rv == E_ERROR ==> Now() == old(Now())
      ensures rv == E_SUCCESS ==>
        && fault.value.page == addr / PAGE_SIZE && fault.value.entry == LeafEntry(fault.value.frame * PAGE_SIZE, false)
        && FaultOk(old(Now()), pgd, fault.value) && Now() == ApplyFault(old(Now()), pgd, fault.value)
    {
      hide Agree, Counted, Private, PageTableMemory.Backed, FaultOk, ApplyFault;
      var i := 0;
      while i < |mappings|
        invariant i <= |mappings| && forall j :: 0 <= j < i ==> !Covers(mappings[j], addr)
      {
        if addr >= mappings[i].start && addr < mappings[i].end {
          rv, fault := MapPage(addr);
          return;
        }
        i := i + 1;
      }
      return E_ERROR, None;
    }

    /** vm_space_map_page. */
    method MapPage(addr: nat) returns (rv: int, ghost fault: Option<Fault>)
      requires Valid() && addr < KERNEL_START_VIRT
      requires (pgd, DirOf(addr / PAGE_SIZE)) !in tables.ledger.tabs ==> |tables.pool.free| != 1
      modifies tables`pool, tables`memory, tables`ledger, tables.allocator, tables.allocator.order, tables.allocator.uses, tables.allocator.freeCount, tables.allocator.nodes
      ensures tables.Wired() && tables.Backed()
      ensures Private(old(tables.ledger), pgd) ==> Valid() && Private(tables.ledger, pgd)
      ensures if old(tables.pool).free == {} then rv == E_ERROR && fault == None && Now() == old(Now())
        else && rv == E_SUCCESS && fault.Some?
             && fault.value.page == addr / PAGE_SIZE && fault.value.entry == LeafEntry(fault.value.frame * PAGE_SIZE, false)
             && FaultOk(old(Now()), pgd, fault.value) && Now() == ApplyFault(old(Now()), pgd, fault.value)
    {
      hide Agree, Counted, Private, PageTableMemory.Backed;
      ghost var s := Now();
      var x := tables.AllocFrame();
      if x.None? { return E_ERROR, None; }
      if (pgd, DirOf(addr / PAGE_SIZE)) !in tables.ledger.tabs {
        OneLeft(s.pool.free, x.value);
      }
      ghost var table := tables.Map(pgd, addr, x.value * PAGE_SIZE, false);
      LeafEntryFields(x.value * PAGE_SIZE, false);
      fault := Some(Fault(addr / PAGE_SIZE, x.value, table, LeafEntry(x.value * PAGE_SIZE, false)));
      rv := E_SUCCESS;
      if Private(s.ledger, pgd) {
        FaultAccounts(s, pgd, fault.value);
        FaultKeepsPrivate(s, pgd, fault.value);
      }
    }

    /** Adding mappings one after the other. */
    method AddMaps(maps: seq<VmMap>)
      requires mappings == []
      modifies this`mappings
      ensures forall a: nat :: Covered(mappings, a) <==> Covered(maps, a)
    {
      hide Covered;
      var i := 0;
      assert maps[..0] == [];
      while i < |maps|
        invariant i <= |maps| && forall a: nat :: Covered(mappings, a) <==> Covered(maps[..i], a)
      {
        CoveredAdd(maps[i], maps, mappings, i);
        AddMap(maps[i]);
        i := i + 1;
      }
      assert maps[..|maps|] == maps;
    }

    /** Faults at one address after the other, with frames enough for all of them. */
    method Touch(addrs: seq<nat>) returns (ghost fs: seq<Fault>)
      requires Valid() && Private(tables.ledger, pgd) && |tables.pool.free| > 2 * |addrs|
      requires forall i :: 0 <= i < |addrs| ==> addrs[i] < KERNEL_START_VIRT
      modifies tables`pool, tables`memory, tables`ledger, tables.allocator, tables.allocator.order, tables.allocator.uses, tables.allocator.freeCount, tables.allocator.nodes
      ensures Valid() && mappings == old(mappings) && Pages(fs) == Touched(mappings, addrs)
      ensures FaultsOk(old(Now()), pgd, fs) && Now() == ApplyFaults(old(Now()), pgd, fs)
    {
      hide Agree, Counted, Private, PageTableMemory.Backed, FaultOk, ApplyFault, Pages, Touched, Covered;
      fs := [];
      ghost var born := Now();
      NothingTouched(mappings, addrs);
      var i := 0;
      while i < |addrs|
        invariant i <= |addrs| && Valid() && Private(tables.ledger, pgd) && mappings == old(mappings)
        invariant |tables.pool.free| > 2 * (|addrs| - i) && Pages(fs) == Touched(mappings, addrs[..i])
        invariant FaultsOk(born, pgd, fs) && Now() == ApplyFaults(born, pgd, fs)
      {
        TouchedNext(mappings, addrs, i, fs);
        ghost var s := Now();
        ghost var fault;
        var rv;
        rv, fault := PageFault(addrs[i]);
        CoveredIff(mappings, addrs[i]);
        if rv == E_SUCCESS {
          FaultsGrow(born, pgd, fs, fault.value);
          FaultTakes(s, pgd, fault.value);
          fs := fs + [fault.value];
        }
        i := i + 1;
      }
      assert addrs[..|addrs|] == addrs;
    }

    /** The part of vm_space_destroy before the object is freed. */
    method FreeTables()
      requires Valid()
      modifies tables`pool, tables`ledger, tables.allocator, tables.allocator.order, tables.allocator.uses, tables.allocator.freeCount, tables.allocator.nodes
      ensures tables.Wired() && tables.Backed() && Counted(tables.pool, tables.ledger)
      ensures tables.ledger == WithoutDir(old(tables.ledger), pgd)
      ensures Settled(old(tables.pool), old(tables.ledger), tables.pool, tables.ledger)
    {
      tables.PgdFree(pgd);
    }
  }

  // ---------------------------------------------------------------- a whole life

  predicate Covered(maps: seq<VmMap>, addr: nat) {
    exists i :: 0 <= i < |maps| && Covers(maps[i], addr)
  }

  /** The pages of those addresses that some mapping covers. */
  function Touched(maps: seq<VmMap>, addrs: seq<nat>): seq<nat> {
    if addrs == [] then []
    else
      var rest, a := Touched(maps, addrs[..|addrs| - 1]), addrs[|addrs| - 1];
      if Covered(maps, a) then rest + [a / PAGE_SIZE] else rest
  }

  lemma TouchedNext(maps: seq<VmMap>, addrs: seq<nat>, i: nat, fs: seq<Fault>)
    requires i < |addrs| && Pages(fs) == Touched(maps, addrs[..i])
    ensures !Covered(maps, addrs[i]) ==> Touched(maps, addrs[..i + 1]) == Pages(fs)
    ensures Covered(maps, addrs[i]) ==>
      forall f: Fault :: f.page == addrs[i] / PAGE_SIZE ==> Pages(fs + [f]) == Touched(maps, addrs[..i + 1])
  {
    var next := addrs[..i + 1];
    assert next[..|next| - 1] == addrs[..i] && next[|next| - 1] == addrs[i];
    forall f: Fault ensures Pages(fs + [f]) == Pages(fs) + [f.page] {
    }
  }

  lemma NothingTouched(maps: seq<VmMap>, addrs: seq<nat>)
    ensures Pages([]) == Touched(maps, addrs[..0])
  {
  }

  lemma CoveredIff(maps: seq<VmMap>, a: nat)
    ensures Covered(maps, a) <==> !(forall i :: 0 <= i < |maps| ==> !Covers(maps[i], a))
  {
  }

  lemma {:induction false} TouchedSame(maps: seq<VmMap>, other: seq<VmMap>, addrs: seq<nat>)
    requires forall a: nat :: Covered(maps, a) <==> Covered(other, a)
    ensures Touched(maps, addrs) == Touched(other, addrs)
  {
    hide Covered;
    if addrs != [] {
      TouchedSame(maps, other, addrs[..|addrs| - 1]);
    }
  }

  lemma CoveredAdd(m: VmMap, maps: seq<VmMap>, front: seq<VmMap>, i: nat)
    requires i < |maps| && m == maps[i] && forall a: nat :: Covered(front, a) <==> Covered(maps[..i], a)
    ensures forall a: nat :: Covered([m] + front, a) <==> Covered(maps[..i + 1], a)
  {
    forall a: nat ensures Covered([m] + front, a) <==> Covered(maps[..i + 1], a) {
      OneMoreMap(m, front, [m] + front, a);
      OneMoreMap(m, maps[..i], maps[..i + 1], a);
    }
  }

  lemma OneMoreMap(m: VmMap, maps: seq<VmMap>, more: seq<VmMap>, a: nat)
    requires more == [m] + maps || more == maps + [m]
    ensures Covered(more, a) <==> Covers(m, a) || Covered(maps, a)
  {
    if more == [m] + maps {
      assert more[0] == m && forall i :: 0 <= i < |maps| ==> more[i + 1] == maps[i];
    } else {
      assert more[|maps|] == m && forall i :: 0 <= i < |maps| ==> more[i] == maps[i];
    }
    if Covered(more, a) {
      var i :| 0 <= i < |more| && Covers(more[i], a);
    }
    if i :| 0 <= i < |maps| && Covers(maps[i], a) {
      assert Covers(more[if more == [m] + maps then i + 1 else i], a);
    }
  }

  /** A fault takes two frames at most. */
  lemma FaultTakes(s: Snapshot, d: nat, f: Fault)
    requires FaultOk(s, d, f)
    ensures |ApplyFault(s, d, f).pool.free| >= |s.pool.free| - 2
  {
  }

  lemma KeyedNow(m: Memory, l: Ledger)
    requires Agree(m, l)
    ensures Keyed(l)
  {
  }

  lemma OneLeft(free: set<nat>, x: nat)
    requires x in free && |free| != 1
    ensures free - {x} != {}
  {
    assert free == {x} + (free - {x});
  }
}
