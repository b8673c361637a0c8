/** Two-level page tables of kernel/mm/ptable.c on values: entries in memory frames, and the plain map
    from virtual page to entry that they stand for. The entry format is that of 32-bit paging, section
    4.3 of the Intel SDM, Volume 3A. */
module PageTables {
  import opened Kernel
  import opened Frames
  import Numerals

  const ENTRIES: nat := 1024
  const USER_DIRS: nat := 768
  const USER_PAGES: nat := 786432  // USER_DIRS * ENTRIES

  const PRESENT: nat := 1
  const WRITABLE: nat := 2
  const USER: nat := 4

  // ---------------------------------------------------------------- entries and indices

  /** PAGE_DIRECTORY_INDEX and PAGE_TABLE_INDEX of a 32-bit address, through its page number. */
  function DirOf(page: nat): nat { page / ENTRIES }
  function SlotOf(page: nat): nat { page % ENTRIES }

  /** MAKE_PDE and MAKE_PTE: the frame bits of the address and the low twelve bits of the flags. */
  function MakeEntry(addr: nat, flags: nat): nat { (addr - addr % PAGE_SIZE) + flags % PAGE_SIZE }

  predicate Exists(e: nat) { e % 2 == 1 }

  /** PTE_IS_WRITABLE, PTE_IS_USER and the global bit. */
  predicate IsWritable(e: nat) { e / 2 % 2 == 1 }
  predicate IsUser(e: nat) { e / 4 % 2 == 1 }
  predicate IsGlobal(e: nat) { e / 256 % 2 == 1 }

  /** The directory entry that ptable_map writes for a page table in frame `t`. */
  function TableEntry(t: nat): nat { MakeEntry(t * PAGE_SIZE, PRESENT + WRITABLE + USER) }

  /** PDE_IS_HUGE: the 4 MB page bit. */
  predicate IsHuge(e: nat) { (e / 128) % 2 == 1 }

  lemma TableEntryFields(t: nat)
    ensures var e := TableEntry(t);
      FrameOf(e) == t && Exists(e) && !IsHuge(e) && IsWritable(e) && IsUser(e) && e % PAGE_SIZE == 7
  {
    hide MakeEntry, FrameOf;
    EntryOf(t, 7);
    FlagBits(t, 7);
  }

  lemma EntryOf(q: nat, flags: nat)
    requires flags < PAGE_SIZE
    ensures MakeEntry(q * PAGE_SIZE, flags) == PAGE_SIZE * q + flags
  {
    assert q * PAGE_SIZE == PAGE_SIZE * q;
  }

  lemma LowPart(m: nat, q: nat, r: nat)
    requires r < m
    ensures (m * q + r) / m == q && (m * q + r) % m == r
  {
    var n := m * q + r;
    Numerals.SameQuotient(q, r, n / m, n % m, m);
  }

  /** An entry has the frame and the flags that it was made of, bit by bit. */
  lemma FlagBits(q: nat, flags: nat)
    requires flags < PAGE_SIZE
    ensures var e := PAGE_SIZE * q + flags;
      && FrameOf(e) == q && e % PAGE_SIZE == flags && (Exists(e) <==> Exists(flags))
      && (IsWritable(e) <==> IsWritable(flags)) && (IsUser(e) <==> IsUser(flags))
      && (IsHuge(e) <==> IsHuge(flags)) && (IsGlobal(e) <==> IsGlobal(flags))
  {
    LowPart(PAGE_SIZE, q, flags);
    OneBit(q, flags, 1, 2048);
    OneBit(q, flags, 2, 1024);
    OneBit(q, flags, 4, 512);
    OneBit(q, flags, 128, 16);
    OneBit(q, flags, 256, 8);
  }

  lemma OneBit(q: nat, flags: nat, b: nat, c: nat)
    requires b > 0 && b * (2 * c) == PAGE_SIZE
    ensures (PAGE_SIZE * q + flags) / b % 2 == flags / b % 2
  {
    var h, r := flags / b, flags % b;
    var n := 2 * (c * q) + h;
    assert flags == b * h + r;
    BitSplit(q, b, c, h);
    assert PAGE_SIZE * q + flags == b * n + r;
    LowPart(b, n, r);
  }

  lemma BitSplit(q: nat, b: nat, c: nat, h: nat)
    ensures (b * (2 * c)) * q + b * h == b * (2 * (c * q) + h)
  {
  }

  /** PA_TO_PFN(PAGE_FRAME(e)). */
  function FrameOf(e: nat): nat { e / PAGE_SIZE }

  function SetWritable(e: nat): nat { if (e / 2) % 2 == 0 then e + WRITABLE else e }

  /** address = 0 and present = 0; the other flags stay. */
  function ClearMapping(e: nat): nat { e % PAGE_SIZE - e % 2 }

  lemma EntryFields(addr: nat, flags: nat)
    requires flags < PAGE_SIZE
    ensures FrameOf(MakeEntry(addr, flags)) == addr / PAGE_SIZE && MakeEntry(addr, flags) % PAGE_SIZE == flags
    ensures Exists(MakeEntry(addr, flags)) <==> flags % 2 == 1
  {
  }

  lemma WritableFields(e: nat)
    ensures FrameOf(SetWritable(e)) == FrameOf(e) && Exists(SetWritable(e)) == Exists(e)
    ensures IsWritable(SetWritable(e)) && SetWritable(e) / 4 == e / 4
  {
    var q, r := e / 4, e % 4;
    assert e == 4 * q + r && e / 2 == 2 * q + r / 2;
    assert (e / 2) % 2 == 0 ==> r < 2;
    assert e / PAGE_SIZE == q / 1024 && (r < 2 ==> (e + 2) / PAGE_SIZE == q / 1024);
  }

  lemma ClearedFields(e: nat)
    ensures !Exists(ClearMapping(e)) && FrameOf(ClearMapping(e)) == 0
    ensures ClearMapping(e) / 2 == e / 2 % 2048
  {
    var q, r := e / PAGE_SIZE, e % PAGE_SIZE;
    var a, b := r / 2, r % 2;
    assert e == 2 * (2048 * q + a) + b;
    assert ClearMapping(e) == 2 * a;
  }

  // ---------------------------------------------------------------- the map the tables stand for

  /** Directory and index, or directory and virtual page. */
  type Key = (nat, nat)

  /** The live directories, their user page tables, and the plain map from virtual page to entry. */
  datatype Ledger = Ledger(dirs: set<nat>, tabs: map<Key, nat>, leaves: map<Key, nat>)

  type Memory = map<nat, seq<nat>>

  predicate IsTable(m: Memory, x: nat) { x in m && |m[x]| == ENTRIES }

  /** The directory entry says what the ledger says. */
  predicate DirAgrees(m: Memory, l: Ledger, d: nat, i: nat)
    requires IsTable(m, d) && i < ENTRIES
  {
    && (Exists(m[d][i]) <==> (d, i) in l.tabs)
    && ((d, i) in l.tabs ==> m[d][i] == TableEntry(l.tabs[(d, i)]))
  }

  /** The table entry says what the ledger says; an absent entry has no frame left in it. */
  predicate LeafAgrees(m: Memory, l: Ledger, d: nat, v: nat)
    requires (d, DirOf(v)) in l.tabs && IsTable(m, l.tabs[(d, DirOf(v))])
  {
    var e := m[l.tabs[(d, DirOf(v))]][SlotOf(v)];
    && (Exists(e) <==> (d, v) in l.leaves)
    && ((d, v) in l.leaves ==> e == l.leaves[(d, v)])
    && (!Exists(e) ==> FrameOf(e) == 0)
  }

  /** The ledger's keys make sense. */
  ghost predicate Keyed(l: Ledger) {
    && (forall k :: k in l.tabs ==> k.0 in l.dirs && k.1 < USER_DIRS)
    && (forall k :: k in l.leaves ==> k.1 < USER_PAGES && (k.0, DirOf(k.1)) in l.tabs)
  }

  /** No frame is two tables, or a table and a directory. */
  ghost predicate Separate(l: Ledger) {
    && (forall j, k :: j in l.tabs && k in l.tabs && l.tabs[j] == l.tabs[k] ==> j == k)
    && (forall k :: k in l.tabs ==> l.tabs[k] !in l.dirs)
  }

  ghost predicate Stored(m: Memory, l: Ledger) {
    && (forall d :: d in l.dirs ==> IsTable(m, d))
    && (forall k :: k in l.tabs ==> IsTable(m, l.tabs[k]))
  }

  /** Memory holds exactly the directories and tables of the ledger. */
  ghost predicate Agree(m: Memory, l: Ledger) {
    && Keyed(l) && Separate(l) && Stored(m, l)
    && (forall d: nat, i: nat :: d in l.dirs && i < USER_DIRS ==> DirAgrees(m, l, d, i))
    && (forall d: nat, v: nat :: d in l.dirs && (d, DirOf(v)) in l.tabs ==> LeafAgrees(m, l, d, v))
  }

  // ---------------------------------------------------------------- the hardware walk

  /** What the processor finds for a user page: the table entry, if both levels are present. */
  function Walk(m: Memory, d: nat, v: nat): Option<nat> {
    if !IsTable(m, d) || DirOf(v) >= ENTRIES then None
    else
      var pde := m[d][DirOf(v)];
      if !Exists(pde) || !IsTable(m, FrameOf(pde)) then None
      else
        var pte := m[FrameOf(pde)][SlotOf(v)];
        if Exists(pte) then Some(pte) else None
  }

  function Lookup(l: Ledger, d: nat, v: nat): Option<nat> {
    if (d, v) in l.leaves then Some(l.leaves[(d, v)]) else None
  }

  /** Refinement: the two-level walk reads the plain map. */
  lemma WalkIsLookup(m: Memory, l: Ledger, d: nat, v: nat)
    requires Agree(m, l) && d in l.dirs && v < USER_PAGES
    ensures Walk(m, d, v) == Lookup(l, d, v)
  {
    assert DirOf(v) < USER_DIRS;
    assert DirAgrees(m, l, d, DirOf(v));
    if (d, DirOf(v)) in l.tabs {
      TableEntryFields(l.tabs[(d, DirOf(v))]);
      assert IsTable(m, l.tabs[(d, DirOf(v))]);
      assert LeafAgrees(m, l, d, v);
    }
  }

  /** Directory `d` has the kernel's own entries in its kernel half. */
  ghost predicate HasKernel(m: Memory, d: nat, kernel: seq<nat>)
    requires |kernel| == ENTRIES
  {
    IsTable(m, d) && forall i :: USER_DIRS <= i < ENTRIES ==> m[d][i] == kernel[i]
  }

  ghost predicate KernelHalf(m: Memory, dirs: set<nat>, kernel: seq<nat>)
    requires |kernel| == ENTRIES
  {
    forall d :: d in dirs ==> HasKernel(m, d, kernel)
  }

  lemma KernelHalfSlot(m: Memory, dirs: set<nat>, kernel: seq<nat>, x: nat, i: nat, e: nat)
    requires |kernel| == ENTRIES && KernelHalf(m, dirs, kernel) && IsTable(m, x) && i < ENTRIES && (x !in dirs || i < USER_DIRS)
    ensures KernelHalf(SetSlot(m, x, i, e), dirs, kernel)
  {
    forall d | d in dirs ensures HasKernel(SetSlot(m, x, i, e), d, kernel) {
      assert HasKernel(m, d, kernel);
    }
  }

  lemma KernelHalfFrame(m: Memory, dirs: set<nat>, kernel: seq<nat>, x: nat, table: seq<nat>)
    requires |kernel| == ENTRIES && KernelHalf(m, dirs, kernel) && x !in dirs
    ensures KernelHalf(m[x := table], dirs, kernel)
  {
    forall d | d in dirs ensures HasKernel(m[x := table], d, kernel) {
      assert HasKernel(m, d, kernel);
    }
  }

  /** Translation differs between two memories at most at page `v` of directory `d`, where it is now `r`, and
      no directory entry of the kernel's half differs. */
  ghost predicate ChangesOnly(m: Memory, n: Memory, dirs: set<nat>, d: nat, v: nat, r: Option<nat>) {
    && (forall b: nat, w: nat :: b in dirs && w < USER_PAGES ==>
          Walk(n, b, w) == if b == d && w == v then r else Walk(m, b, w))
    && (forall b: nat, i: nat :: b in dirs && USER_DIRS <= i < ENTRIES ==>
          IsTable(m, b) && IsTable(n, b) && n[b][i] == m[b][i])
  }

  /** Two memories differ at most in entry `i` of frame `x`. */
  ghost predicate OnlySlot(m: Memory, n: Memory, x: nat, i: nat) {
    && n.Keys == m.Keys && (forall y :: y in m && y != x ==> n[y] == m[y])
    && x in m && |n[x]| == |m[x]| && (forall j :: 0 <= j < |m[x]| && j != i ==> n[x][j] == m[x][j])
  }

  lemma LedgerChange(m: Memory, l: Ledger, n: Memory, k: Ledger, kernel: seq<nat>, d: nat, v: nat, e: nat)
    requires Agree(m, l) && Agree(n, k) && l.dirs == k.dirs && k.leaves == SetLeaf(l, d, v, e).leaves
    requires |kernel| == ENTRIES && KernelHalf(m, l.dirs, kernel) && KernelHalf(n, k.dirs, kernel)
    ensures ChangesOnly(m, n, k.dirs, d, v, if Exists(e) then Some(e) else None)
  {
    forall b: nat, w: nat | b in k.dirs && w < USER_PAGES
      ensures Walk(n, b, w) == if b == d && w == v then (if Exists(e) then Some(e) else None) else Walk(m, b, w)
    {
      WalkIsLookup(n, k, b, w);
      WalkIsLookup(m, l, b, w);
    }
    forall b: nat, i: nat | b in k.dirs && USER_DIRS <= i < ENTRIES
      ensures IsTable(m, b) && IsTable(n, b) && n[b][i] == m[b][i]
    {
      assert HasKernel(m, b, kernel) && HasKernel(n, b, kernel);
    }
  }

  /** Where the entry of a page is, given that its table exists. */
  lemma EntryAt(m: Memory, l: Ledger, d: nat, v: nat)
    requires Agree(m, l) && d in l.dirs && v < USER_PAGES && (d, DirOf(v)) in l.tabs
    ensures var t := l.tabs[(d, DirOf(v))];
      && IsTable(m, d) && Exists(m[d][DirOf(v)]) && FrameOf(m[d][DirOf(v)]) == t && !IsHuge(m[d][DirOf(v)])
      && IsTable(m, t) && LeafAgrees(m, l, d, v)
  {
    assert DirOf(v) < USER_DIRS;
    assert DirAgrees(m, l, d, DirOf(v));
    TableEntryFields(l.tabs[(d, DirOf(v))]);
  }

  // ---------------------------------------------------------------- memory updates

  function SetSlot(m: Memory, x: nat, i: nat, e: nat): Memory
    requires IsTable(m, x) && i < ENTRIES
  {
    var table: seq<nat> := m[x][i := e];
    m[x := table]
  }

  function SetLeaf(l: Ledger, d: nat, v: nat, e: nat): Ledger {
    if Exists(e) then l.(leaves := l.leaves[(d, v) := e]) else l.(leaves := l.leaves - {(d, v)})
  }

  /** Writing one table entry changes the map at exactly that page. */
  lemma SetLeafAgrees(m: Memory, l: Ledger, d: nat, v: nat, e: nat)
    requires Agree(m, l) && d in l.dirs && v < USER_PAGES && (d, DirOf(v)) in l.tabs
    requires Exists(e) || FrameOf(e) == 0
    ensures IsTable(m, l.tabs[(d, DirOf(v))])
    ensures Agree(SetSlot(m, l.tabs[(d, DirOf(v))], SlotOf(v), e), SetLeaf(l, d, v, e))
  {
    var t := l.tabs[(d, DirOf(v))];
    assert IsTable(m, t);
    var n, k := SetSlot(m, t, SlotOf(v), e), SetLeaf(l, d, v, e);
    forall b: nat, i: nat | b in k.dirs && i < USER_DIRS ensures DirAgrees(n, k, b, i) {
      assert DirAgrees(m, l, b, i);
    }
    forall b: nat, w: nat | b in k.dirs && (b, DirOf(w)) in k.tabs ensures LeafAgrees(n, k, b, w) {
      assert LeafAgrees(m, l, b, w);
      if k.tabs[(b, DirOf(w))] == t && SlotOf(w) == SlotOf(v) {
        SamePage(v, w);
      }
    }
  }

  /** The table that holds the entry is no directory, so the kernel's half stays. */
  lemma SetLeafKernel(m: Memory, l: Ledger, kernel: seq<nat>, d: nat, v: nat, e: nat)
    requires Agree(m, l) && (d, DirOf(v)) in l.tabs && |kernel| == ENTRIES && KernelHalf(m, l.dirs, kernel)
    ensures var t := l.tabs[(d, DirOf(v))];
      IsTable(m, t) && KernelHalf(SetSlot(m, t, SlotOf(v), e), l.dirs, kernel) && OnlySlot(m, SetSlot(m, t, SlotOf(v), e), t, SlotOf(v))
  {
    var t := l.tabs[(d, DirOf(v))];
    assert IsTable(m, t) && t !in l.dirs;
    KernelHalfSlot(m, l.dirs, kernel, t, SlotOf(v), e);
  }

  lemma SamePage(v: nat, w: nat)
    requires DirOf(v) == DirOf(w) && SlotOf(v) == SlotOf(w)
    ensures v == w
  {
  }

  const CLEARED: seq<nat> := seq(ENTRIES, _ => 0)

  /** Pointing a directory entry at a cleared table adds an empty table. */
  lemma AddTableAgrees(m: Memory, l: Ledger, d: nat, i: nat, t: nat)
    requires Agree(m, l) && d in l.dirs && i < USER_DIRS && (d, i) !in l.tabs
    requires t !in l.dirs && t !in l.tabs.Values
    ensures IsTable(m, d)
    ensures Agree(SetSlot(m[t := CLEARED], d, i, TableEntry(t)), l.(tabs := l.tabs[(d, i) := t]))
  {
    hide TableEntry, DirOf, Keyed, Separate, Stored;
    AddTablePlaced(m, l, d, i, t);
    var n, k := SetSlot(m[t := CLEARED], d, i, TableEntry(t)), l.(tabs := l.tabs[(d, i) := t]);
    TableEntryFields(t);
    forall b: nat, j: nat | b in k.dirs && j < USER_DIRS ensures DirAgrees(n, k, b, j) {
      assert DirAgrees(m, l, b, j);
    }
    forall b: nat, w: nat | b in k.dirs && (b, DirOf(w)) in k.tabs ensures LeafAgrees(n, k, b, w) {
      if b == d && DirOf(w) == i {
        assert (b, w) !in l.leaves;
      } else {
        assert LeafAgrees(m, l, b, w);
      }
    }
  }

  lemma AddTablePlaced(m: Memory, l: Ledger, d: nat, i: nat, t: nat)
    requires Agree(m, l) && d in l.dirs && i < USER_DIRS && (d, i) !in l.tabs
    requires t !in l.dirs && t !in l.tabs.Values
    ensures IsTable(m, d) && t != d
    ensures var n, k := SetSlot(m[t := CLEARED], d, i, TableEntry(t)), l.(tabs := l.tabs[(d, i) := t]);
      Keyed(k) && Separate(k) && Stored(n, k) && IsTable(n, d) && IsTable(n, t)
    ensures forall x :: x in l.tabs ==> l.tabs[x] != t && l.tabs[x] != d && IsTable(m, l.tabs[x])
    ensures forall b :: b in l.dirs ==> IsTable(m, b)
    ensures forall x :: x in l.leaves ==> (x.0, DirOf(x.1)) in l.tabs
  {
    assert IsTable(m, d) && t != d;
    forall x | x in l.tabs ensures l.tabs[x] != t && l.tabs[x] != d {
      assert l.tabs[x] in l.tabs.Values;
    }
  }

  /** A new directory holds no user entries. */
  lemma AddDirAgrees(m: Memory, l: Ledger, d: nat, kernel: seq<nat>)
    requires Agree(m, l) && d !in l.dirs && d !in l.tabs.Values
    requires |kernel| == ENTRIES && forall i :: 0 <= i < USER_DIRS ==> !Exists(kernel[i])
    ensures Agree(m[d := kernel], l.(dirs := l.dirs + {d}))
  {
    var n, k := m[d := kernel], l.(dirs := l.dirs + {d});
    forall x | x in l.tabs ensures l.tabs[x] != d && x.0 != d {
      assert l.tabs[x] in l.tabs.Values;
    }
    forall b: nat, j: nat | b in k.dirs && j < USER_DIRS ensures DirAgrees(n, k, b, j) {
      if b == d {
        assert (d, j) !in l.tabs;
      } else {
        assert DirAgrees(m, l, b, j);
      }
    }
    forall b: nat, w: nat | b in k.dirs && (b, DirOf(w)) in k.tabs ensures LeafAgrees(n, k, b, w) {
      assert LeafAgrees(m, l, b, w);
    }
  }

  /** The ledger without directory `d`. */
  function WithoutDir(l: Ledger, d: nat): Ledger {
    Ledger(l.dirs - {d},
           map k | k in l.tabs && k.0 != d :: l.tabs[k],
           map k | k in l.leaves && k.0 != d :: l.leaves[k])
  }

  lemma WithoutDirAgrees(m: Memory, l: Ledger, d: nat)
    requires Agree(m, l)
    ensures Agree(m, WithoutDir(l, d))
  {
    var k := WithoutDir(l, d);
    forall b: nat, j: nat | b in k.dirs && j < USER_DIRS ensures DirAgrees(m, k, b, j) {
      assert DirAgrees(m, l, b, j);
    }
    forall b: nat, w: nat | b in k.dirs && (b, DirOf(w)) in k.tabs ensures LeafAgrees(m, k, b, w) {
      assert LeafAgrees(m, l, b, w);
    }
  }
}
