/** kernel/mm/ptable.c in the source's own form: directory and table entries written in place, with
    loops over entries and use counts. */
module PtableOps {
  import opened Kernel
  import opened Frames
  import opened PageTables
  import opened RefCounts
  import opened Sharing
  import Buddy
  import BuddyOps
  import BuddyCanonical
  import opened BuddyImpl
  import Boot
  import BootHandoff

  /** The entry that ptable_map writes. */
  function LeafEntry(pa: nat, writable: bool): nat {
    var e := MakeEntry(pa, PRESENT + USER);
    if writable then SetWritable(e) else e
  }

  lemma LeafEntryFields(pa: nat, writable: bool)
    ensures var e := LeafEntry(pa, writable);
      Exists(e) && FrameOf(e) == pa / PAGE_SIZE && (IsWritable(e) <==> writable) && IsUser(e) && !IsGlobal(e)
  {
    var e, q := MakeEntry(pa, PRESENT + USER), pa / PAGE_SIZE;
    EntryFields(pa, PRESENT + USER);
    assert e == PAGE_SIZE * q + 5;
    FlagBits(q, 5);
    FlagBits(q, 7);
    assert LeafEntry(pa, writable) == PAGE_SIZE * q + if writable then 7 else 5;
  }

  /** Directories and tables occupy frames in use. */
  ghost predicate Grounded(p: Pool, l: Ledger) {
    p.free !! p.uses.Keys && l.dirs <= p.uses.Keys && l.tabs.Values <= p.uses.Keys
  }

  /** The user directory slots from `lo` up to `hi` of directory `d` that have no page table. */
  function Missing(l: Ledger, d: nat, lo: nat, hi: nat): set<nat> {
    set i | lo <= i < hi && (d, i) !in l.tabs
  }

  /** Pages of directory `d` below `bound` have been dealt with. */
  function Above(leaves: map<Key, nat>, d: nat, bound: nat): map<Key, nat> {
    map k | k in leaves && !(k.0 == d && k.1 < bound) :: leaves[k]
  }

  /** A table for `key` is there already, or a free frame has become one. */
  ghost predicate TableStep(p: Pool, l: Ledger, q: Pool, k: Ledger, key: Key, table: Option<nat>) {
    if key in l.tabs then table == None && q == p && k == l
    else table.Some? && table.value in p.free && q == Take(p, table.value) && k == l.(tabs := l.tabs[key := table.value])
  }

  /** The plain map after mapping `n` consecutive pages from page `v` on to frames from address `pa` on. */
  function MapRange(leaves: map<Key, nat>, d: nat, v: nat, pa: nat, n: nat, writable: bool): map<Key, nat> {
    if n == 0 then leaves
    else MapRange(leaves, d, v, pa, n - 1, writable)[(d, v + (n - 1)) := LeafEntry(pa + (n - 1) * PAGE_SIZE, writable)]
  }

  function UnmapRange(leaves: map<Key, nat>, d: nat, v: nat, n: nat): map<Key, nat> {
    if n == 0 then leaves else UnmapRange(leaves, d, v, n - 1) - {(d, v + (n - 1))}
  }

  /** Every page of the range maps to its frame, and no other page changes. */
  lemma {:induction false} MapRangeIs(leaves: map<Key, nat>, d: nat, v: nat, pa: nat, n: nat, writable: bool, k: Key)
    ensures var m := MapRange(leaves, d, v, pa, n, writable);
      if k.0 == d && v <= k.1 < v + n
      then k in m && m[k] == LeafEntry(pa + (k.1 - v) * PAGE_SIZE, writable) && FrameOf(m[k]) == pa / PAGE_SIZE + (k.1 - v)
      else (k in m <==> k in leaves) && (k in m ==> m[k] == leaves[k])
  {
    if n > 0 {
      MapRangeIs(leaves, d, v, pa, n - 1, writable, k);
      LeafEntryFields(pa + (n - 1) * PAGE_SIZE, writable);
    }
  }

  lemma {:induction false} UnmapRangeIs(leaves: map<Key, nat>, d: nat, v: nat, n: nat, k: Key)
    ensures var m := UnmapRange(leaves, d, v, n);
      (k in m <==> k in leaves && !(k.0 == d && v <= k.1 < v + n)) && (k in m ==> m[k] == leaves[k])
  {
    if n > 0 {
      UnmapRangeIs(leaves, d, v, n - 1, k);
    }
  }

  /** ptable_unmap_many undoes ptable_map_many exactly when the range was unmapped before. */
  lemma MapUnmapRoundTrip(leaves: map<Key, nat>, d: nat, v: nat, pa: nat, n: nat, writable: bool)
    ensures UnmapRange(MapRange(leaves, d, v, pa, n, writable), d, v, n) == leaves
       <==> forall w :: v <= w < v + n ==> (d, w) !in leaves
  {
    var m := MapRange(leaves, d, v, pa, n, writable);
    var u := UnmapRange(m, d, v, n);
    forall k: Key ensures (k in u <==> k in leaves && !(k.0 == d && v <= k.1 < v + n)) && (k in u ==> u[k] == leaves[k]) {
      UnmapRangeIs(m, d, v, n, k);
      MapRangeIs(leaves, d, v, pa, n, writable, k);
    }
    if forall w :: v <= w < v + n ==> (d, w) !in leaves {
      forall k: Key ensures k in u <==> k in leaves {
        assert k == (k.0, k.1);
      }
      assert u == leaves;
    } else {
      var w :| v <= w < v + n && (d, w) in leaves;
      assert (d, w) !in u;
    }
  }

  lemma PageNumber(va: nat, i: nat, count: nat)
    requires i < count && va + count * PAGE_SIZE <= KERNEL_START_VIRT
    ensures (va + i * PAGE_SIZE) / PAGE_SIZE == va / PAGE_SIZE + i && va + i * PAGE_SIZE < KERNEL_START_VIRT
  {
  }

  /** One past the last directory slot of the `n` pages from `v` on. */
  function SlotsEnd(v: nat, n: nat): nat { if n == 0 then DirOf(v) else DirOf(v + (n - 1)) + 1 }

  lemma NextSlotsEnd(v: nat, i: nat, n: nat)
    requires i < n
    ensures DirOf(v + i) == SlotsEnd(v, i) || DirOf(v + i) == SlotsEnd(v, i) - 1
    ensures DirOf(v) <= SlotsEnd(v, i) && DirOf(v) <= DirOf(v + i) < SlotsEnd(v, n) && SlotsEnd(v, i + 1) == DirOf(v + i) + 1
    ensures i > 0 ==> DirOf(v) < SlotsEnd(v, i)
  {
  }

  lemma SameTables(p: Pool, l: Ledger, q: Pool, j: Ledger, k: Ledger, d: nat, lo: nat, hi: nat)
    requires TablesAdded(p, l, q, j, d, lo, hi) && k.dirs == j.dirs && k.tabs == j.tabs
    ensures TablesAdded(p, l, q, k, d, lo, hi)
  {
  }

  lemma MissingHas(l: Ledger, p: Pool, d: nat, lo: nat, hi: nat, i: nat)
    requires lo <= i < hi && |Missing(l, d, lo, hi)| <= |p.free|
    ensures (d, i) !in l.tabs ==> p.free != {}
  {
    if (d, i) !in l.tabs {
      assert i in Missing(l, d, lo, hi);
    }
  }

  lemma MissingAfter(p: Pool, l: Ledger, q: Pool, k: Ledger, d: nat, lo: nat, hi: nat, i: nat, table: Option<nat>)
    requires lo <= i < hi && |Missing(l, d, lo, hi)| <= |p.free|
    requires TableStep(p, l, q, k, (d, i), table)
    ensures |Missing(k, d, lo, hi)| <= |q.free|
  {
    if (d, i) !in l.tabs {
      assert i in Missing(l, d, lo, hi);
      assert Missing(k, d, lo, hi) == Missing(l, d, lo, hi) - {i};
    }
  }

  /** From pool `p` and ledger `l` to `q` and `k`: every slot of directory `d` from `lo` up to `hi` has a page
      table, no other was added, and the frames taken are exactly those of the new tables. */
  ghost predicate TablesAdded(p: Pool, l: Ledger, q: Pool, k: Ledger, d: nat, lo: nat, hi: nat) {
    && k.dirs == l.dirs
    && (forall key: Key :: key in k.tabs <==> key in l.tabs || (key.0 == d && lo <= key.1 < hi))
    && (forall key :: key in l.tabs ==> k.tabs[key] == l.tabs[key])
    && (forall key :: key in k.tabs && key !in l.tabs ==> k.tabs[key] in p.free)
    && (forall x :: x in q.free <==> x in p.free && x !in k.tabs.Values)
    && (forall x :: x in q.uses <==> x in p.uses || (x in p.free && x in k.tabs.Values))
    && (forall x :: x in q.uses ==> q.uses[x] == if x in p.uses then p.uses[x] else 1)
  }

  lemma NoTablesAdded(p: Pool, l: Ledger, d: nat, lo: nat)
    requires Grounded(p, l)
    ensures TablesAdded(p, l, p, l, d, lo, lo)
  {
  }

  /** One page further: its slot is the last of the range or the next. */
  lemma TablesGrow(p: Pool, l: Ledger, q: Pool, k: Ledger, r: Pool, j: Ledger, d: nat, lo: nat, hi: nat, i: nat, table: Option<nat>)
    requires TablesAdded(p, l, q, k, d, lo, hi) && TableStep(q, k, r, j, (d, i), table) && p.free !! p.uses.Keys
    requires i == hi || lo <= i == hi - 1
    requires lo <= hi
    ensures TablesAdded(p, l, r, j, d, lo, i + 1)
  {
    if (d, i) !in k.tabs {
      AddValue(k.tabs, (d, i), table.value);
    }
  }

  // ---------------------------------------------------------------- sharing and unmapping

  /** A directory slot without a table maps nothing. */
  lemma NothingToShare(m: Memory, p: Pool, l: Ledger, src: nat, dst: nat, i: nat, lo: nat, hi: nat)
    requires Agree(m, l) && (src, i) !in l.tabs && i * ENTRIES <= lo && hi <= (i + 1) * ENTRIES
    ensures Shared(p, l, p, l, src, dst, lo, hi)
  {
    forall v: nat | lo <= v < hi ensures (src, v) !in l.leaves {
      assert DirOf(v) == i;
    }
    SharedNothing(p, l, src, dst, lo, hi);
  }

  lemma CountedHoused(p: Pool, l: Ledger)
    requires Counted(p, l)
    ensures Housed(p, l)
  {
  }

  /** The frame that ptable_unmap with freeing passes to page_free, if it gets that far. */
  function UnmapFrees(m: Memory, d: nat, v: nat): Option<nat> {
    if !IsTable(m, d) || DirOf(v) >= ENTRIES || !Exists(m[d][DirOf(v)]) || !IsTable(m, FrameOf(m[d][DirOf(v)])) then None
    else Some(FrameOf(m[FrameOf(m[d][DirOf(v)])][SlotOf(v)]))
  }

  /** ptable_unmap does not look whether the entry is present: what it frees is the frame that the page maps,
      or nothing when there is nothing to free, if and only if the entry is present or there is no table.
      Otherwise it frees page zero. */
  lemma UnmapFreesMapped(m: Memory, l: Ledger, d: nat, v: nat)
    requires Agree(m, l) && d in l.dirs && v < USER_PAGES
    ensures UnmapFrees(m, d, v) == (if (d, v) in l.leaves then Some(FrameOf(l.leaves[(d, v)])) else None)
       <==> (d, v) in l.leaves || (d, DirOf(v)) !in l.tabs
    ensures (d, v) !in l.leaves && (d, DirOf(v)) in l.tabs ==> UnmapFrees(m, d, v) == Some(0)
  {
    assert DirOf(v) < USER_DIRS;
    assert DirAgrees(m, l, d, DirOf(v));
    if (d, DirOf(v)) in l.tabs {
      EntryAt(m, l, d, v);
    } else {
      assert (d, v) !in l.leaves;
    }
  }

  // ---------------------------------------------------------------- tearing down

  /** From pool `p` and ledger `l` to `q` and `k`: the frames that the ledger does not own are untouched,
      and no frame is lost or gained. */
  ghost predicate Settled(p: Pool, l: Ledger, q: Pool, k: Ledger) {
    && Outside(q, k) == Outside(p, l)
    && q.free + q.uses.Keys == p.free + p.uses.Keys
    && (forall x :: x in Outside(p, l) ==> x in p.uses && x in q.uses && q.uses[x] == p.uses[x])
  }

  lemma SettledSelf(p: Pool, l: Ledger)
    ensures Settled(p, l, p, l)
  {
  }

  lemma SettledJoins(p: Pool, l: Ledger, q: Pool, k: Ledger, r: Pool, j: Ledger)
    requires Settled(p, l, q, k) && Settled(q, k, r, j)
    ensures Settled(p, l, r, j)
  {
  }

  lemma WithoutDirKernel(m: Memory, l: Ledger, kernel: seq<nat>, d: nat)
    requires |kernel| == ENTRIES && KernelHalf(m, l.dirs, kernel)
    ensures KernelHalf(m, WithoutDir(l, d).dirs, kernel)
  {
    assert WithoutDir(l, d).dirs <= l.dirs;
  }

  lemma CountedGrounded(p: Pool, l: Ledger)
    requires Counted(p, l)
    ensures Grounded(p, l)
  {
  }

  lemma DropLeafSettles(p: Pool, k: Ledger, key: Key)
    requires Counted(p, k) && key in k.leaves
    ensures FrameOf(k.leaves[key]) in p.uses
    ensures var f, j := FrameOf(k.leaves[key]), k.(leaves := k.leaves - {key});
      Counted(Drop(p, f), j) && Settled(p, k, Drop(p, f), j)
  {
    DropLeaf(p, k, key);
    assert FrameOf(k.leaves[key]) in LeafFrames(k.leaves);
  }

  lemma AboveSeparate(m: Memory, l: Ledger, d: nat, i: nat, leaves: map<Key, nat>)
    requires Agree(m, l)
    ensures Separate(Ledger(l.dirs, Above(l.tabs, d, i), leaves))
  {
  }

  lemma DropTableSettles(m: Memory, l: Ledger, p: Pool, k: Ledger, d: nat, i: nat)
    requires Agree(m, l) && d in l.dirs && i < USER_DIRS && (d, i) in l.tabs
    requires Counted(p, k) && k.dirs == l.dirs && k.tabs == Above(l.tabs, d, i)
    ensures IsTable(m, d) && l.tabs[(d, i)] in p.uses && FrameOf(m[d][i]) == l.tabs[(d, i)]
    ensures var t, j := l.tabs[(d, i)], k.(tabs := k.tabs - {(d, i)});
      Counted(Drop(p, t), j) && Settled(p, k, Drop(p, t), j)
  {
    DirEntry(m, l, d, i);
    AboveSeparate(m, l, d, i, k.leaves);
    DropTable(p, k, (d, i));
    assert l.tabs[(d, i)] in k.tabs.Values by { assert k.tabs[(d, i)] == l.tabs[(d, i)]; }
  }

  lemma DropDirSettles(m: Memory, l: Ledger, p: Pool, k: Ledger, d: nat)
    requires Agree(m, l) && Counted(p, k) && d in l.dirs
    requires k == Ledger(l.dirs, WithoutDir(l, d).tabs, WithoutDir(l, d).leaves)
    ensures d in p.uses
    ensures Counted(Drop(p, d), WithoutDir(l, d)) && Settled(p, k, Drop(p, d), WithoutDir(l, d))
  {
    assert d !in k.tabs.Values by {
      forall x | x in k.tabs ensures k.tabs[x] != d {
        assert l.tabs[x] == k.tabs[x];
      }
    }
    DropDir(p, k, d);
    assert WithoutDir(l, d) == k.(dirs := k.dirs - {d});
  }

  lemma DirSlot(m: Memory, l: Ledger, d: nat, i: nat)
    requires Agree(m, l) && d in l.dirs && i < USER_DIRS
    ensures IsTable(m, d) && DirAgrees(m, l, d, i)
  {
    assert DirAgrees(m, l, d, i);
  }

  lemma DirEntry(m: Memory, l: Ledger, d: nat, i: nat)
    requires Agree(m, l) && d in l.dirs && i < USER_DIRS
    ensures IsTable(m, d) && (Exists(m[d][i]) <==> (d, i) in l.tabs)
    ensures (d, i) in l.tabs ==> FrameOf(m[d][i]) == l.tabs[(d, i)] && !IsHuge(m[d][i])
  {
    assert DirAgrees(m, l, d, i);
    if (d, i) in l.tabs { TableEntryFields(l.tabs[(d, i)]); }
  }

  lemma AboveStep(m: map<Key, nat>, d: nat, v: nat)
    ensures Above(m, d, v + 1) == Above(m, d, v) - {(d, v)}
    ensures (d, v) in m <==> (d, v) in Above(m, d, v)
    ensures (d, v) in m ==> Above(m, d, v)[(d, v)] == m[(d, v)]
    ensures (d, v) !in m ==> Above(m, d, v + 1) == Above(m, d, v)
  {
    forall k: Key ensures k in Above(m, d, v + 1) <==> k in Above(m, d, v) && k != (d, v) {
      assert k == (k.0, k.1);
    }
  }

  /** A directory slot without a table maps nothing. */
  lemma AboveSlot(m: Memory, l: Ledger, d: nat, i: nat)
    requires Agree(m, l) && (d, i) !in l.tabs
    ensures Above(l.leaves, d, (i + 1) * ENTRIES) == Above(l.leaves, d, i * ENTRIES)
  {
    forall k | k in l.leaves && k.0 == d ensures DirOf(k.1) != i {
      assert (k.0, DirOf(k.1)) in l.tabs;
    }
  }

  lemma AboveNothing(l: Ledger, d: nat)
    ensures l == Ledger(l.dirs, Above(l.tabs, d, 0), Above(l.leaves, d, 0 * ENTRIES))
  {
    assert Above(l.tabs, d, 0) == l.tabs && Above(l.leaves, d, 0) == l.leaves;
  }

  lemma AboveAll(m: Memory, l: Ledger, d: nat)
    requires Agree(m, l)
    ensures Above(l.tabs, d, USER_DIRS) == WithoutDir(l, d).tabs
    ensures Above(l.leaves, d, USER_DIRS * ENTRIES) == WithoutDir(l, d).leaves
  {
  }

  /** Once the directories of `gone` are freed: frame `f` has as many users as entries are left for it, it is in
      use exactly as long as a directory not yet freed maps it, and otherwise it is free. */
  ghost predicate HeldByEntries(p: Pool, s: Buddy.State, l: Ledger, gone: seq<nat>, f: nat) {
    var left := |Users(WithoutDirs(l, gone).leaves, f)|;
    && (f in p.uses <==> exists k :: k in l.leaves && FrameOf(l.leaves[k]) == f && k.0 !in gone)
    && (if f in p.uses then p.uses[f] == left else f in p.free && left == 0)
    && f < |s.uses| && s.uses[f] == left
    && (f in Buddy.FreePages(s) <==> left == 0)
  }

  lemma DirsLeft(l: Ledger, ds: seq<nat>, i: nat)
    requires i < |ds| && forall a, b :: 0 <= a < b < |ds| ==> ds[a] != ds[b]
    ensures WithoutDirs(l, ds[..i + 1]) == WithoutDir(WithoutDirs(l, ds[..i]), ds[i])
    ensures forall j :: i < j < |ds| && ds[j] in WithoutDirs(l, ds[..i]).dirs ==> ds[j] in WithoutDirs(l, ds[..i + 1]).dirs
  {
    assert ds[..i + 1][..i] == ds[..i] && ds[..i + 1][i] == ds[i];
  }

  lemma OneFreed(l: Ledger, pools: seq<Pool>, ds: seq<nat>, i: nat, q: Pool)
    requires i < |ds| && |pools| == i + 1
    requires Settled(pools[i], WithoutDirs(l, ds[..i]), q, WithoutDirs(l, ds[..i + 1]))
    requires forall j :: 0 <= j < i ==> FreedOnly(l, pools, ds, j)
    ensures forall j :: 0 <= j < i + 1 ==> FreedOnly(l, pools + [q], ds, j)
  {
    var longer := pools + [q];
    forall j | 0 <= j < i + 1 ensures FreedOnly(l, longer, ds, j) {
      if j < i {
        assert FreedOnly(l, pools, ds, j);
        assert longer[j] == pools[j] && longer[j + 1] == pools[j + 1];
      }
    }
  }

  lemma TornDown(l: Ledger, pools: seq<Pool>, states: seq<Buddy.State>, outside: set<Buddy.Block>, ds: seq<nat>)
    requires |pools| == |states| == |ds| + 1
    requires forall j :: 0 <= j <= |ds| ==> Counted(pools[j], WithoutDirs(l, ds[..j])) && Shows(states[j], pools[j], outside)
    requires forall j :: 0 <= j < |ds| ==> FreedOnly(l, pools, ds, j)
    ensures forall f, i :: f in LeafFrames(l.leaves) && 0 <= i <= |ds| ==> HeldByEntries(pools[i], states[i], l, ds[..i], f)
  {
    hide Counted, Shows, FreedOnly, WithoutDirs, LeafFrames, HeldByEntries;
    forall f, i | f in LeafFrames(l.leaves) && 0 <= i <= |ds| ensures HeldByEntries(pools[i], states[i], l, ds[..i], f) {
      HeldAfter(l, pools, states, outside, ds, f, i);
    }
  }

  lemma HeldAfter(l: Ledger, pools: seq<Pool>, states: seq<Buddy.State>, outside: set<Buddy.Block>, ds: seq<nat>, f: nat, i: nat)
    requires |pools| == |states| == |ds| + 1 && f in LeafFrames(l.leaves) && i <= |ds|
    requires forall j :: 0 <= j <= |ds| ==> Counted(pools[j], WithoutDirs(l, ds[..j])) && Shows(states[j], pools[j], outside)
    requires forall j :: 0 <= j < |ds| ==> FreedOnly(l, pools, ds, j)
    ensures HeldByEntries(pools[i], states[i], l, ds[..i], f)
  {
    hide Counted, Shows, FreedOnly, HeldByEntries, LeafFrames;
    SharedUntilLast(l, pools, ds, f, i);
    Held(pools[i], states[i], outside, l, ds[..i], f);
  }

  lemma Held(p: Pool, s: Buddy.State, outside: set<Buddy.Block>, l: Ledger, gone: seq<nat>, f: nat)
    requires Shows(s, p, outside) && Counted(p, WithoutDirs(l, gone))
    requires f in p.uses <==> exists k :: k in l.leaves && FrameOf(l.leaves[k]) == f && k.0 !in gone
    requires f in p.uses ==> p.uses[f] == |Users(WithoutDirs(l, gone).leaves, f)|
    requires f !in p.uses ==> f in p.free
    ensures HeldByEntries(p, s, l, gone, f)
  {
    hide Shows;
    ShownUses(s, p, outside, f);
    ShownApart(s, p, outside);
    WithoutDirsIs(l, gone);
    var w := WithoutDirs(l, gone).leaves;
    InLeafFrames(w, f);
    if k :| k in l.leaves && FrameOf(l.leaves[k]) == f && k.0 !in gone {
      assert k in Users(w, f);
    }
  }

  /** page_free refuses none of these frames. */
  ghost predicate Freeable(p: Pool, start: nat, end: nat) {
    forall x :: x in p.free || x in p.uses ==> !Critical(start, end, x)
  }

  /** What the hand-over from boot memory leaves is a pool to start from: no frame is handed out, and none that
      is free belongs to the kernel image. */
  lemma BootPool(b: Boot.State, im: Boot.Image, s: Buddy.State)
    requires Boot.Inv(b, im) && Boot.ValidImage(im) && Buddy.Inv(s) && s.used == {}
    requires forall x: nat :: x in Buddy.FreePages(s) <==> BootHandoff.LeftOver(b.regions, b.count, x)
    ensures Shows(s, Pool(Buddy.FreePages(s), map[]), {}) && Freeable(Pool(Buddy.FreePages(s), map[]), im.start, im.end)
  {
    forall x | x in Buddy.FreePages(s) ensures !Critical(im.start, im.end, x) {
      BootHandoff.LeftOverSafe(b, im, x, x * PAGE_SIZE);
    }
  }

  /** All page tables of the system: entries in memory frames, which come from the page allocator. */
  class PageTableMemory {
    const allocator: BuddyAllocator
    var memory: Memory
    const kernel: seq<nat>
    ghost var pool: Pool
    ghost var ledger: Ledger
    ghost var outside: set<Buddy.Block>

    ghost predicate Wired()
      reads this
    {
      && Agree(memory, ledger) && Grounded(pool, ledger)
      && |kernel| == ENTRIES && (forall i :: 0 <= i < USER_DIRS ==> !Exists(kernel[i]))
      && KernelHalf(memory, ledger.dirs, kernel)
    }

    /** The page allocator shows the pool; blocks of `outside` are held by others. */
    ghost predicate Backed()
      reads this`pool, this`outside, allocator, allocator.order, allocator.invalid, allocator.uses, allocator.freeCount, allocator.nodes
    {
      && allocator.Valid() && Shows(allocator.View(), pool, outside)
      && Freeable(pool, allocator.kernelStart, allocator.kernelEnd)
    }

    constructor (allocator: BuddyAllocator, ghost pool: Pool, ghost outside: set<Buddy.Block>, kernel: seq<nat>)
      requires allocator.Valid() && Shows(allocator.View(), pool, outside)
      requires Freeable(pool, allocator.kernelStart, allocator.kernelEnd)
      requires |kernel| == ENTRIES && forall i :: 0 <= i < USER_DIRS ==> !Exists(kernel[i])
      ensures Wired() && Backed() && this.allocator == allocator && this.pool == pool && this.outside == outside
      ensures ledger == Ledger({}, map[], map[]) && this.kernel == kernel
    {
      ShownApart(allocator.View(), pool, outside);
      this.allocator, this.outside := allocator, outside;
      this.pool, memory, ledger := pool, map[], Ledger({}, map[], map[]);
      this.kernel := kernel;
    }

    /** The page allocator has served others in the meantime, by OthersTake and OthersGive: the page tables now
        see pool `p`, with the blocks of `o` held by others. Nothing happens in the kernel. */
    method Follow(ghost p: Pool, ghost o: set<Buddy.Block>)
      requires Wired() && allocator.Valid() && Shows(allocator.View(), p, o) && p.uses == pool.uses
      requires Freeable(p, allocator.kernelStart, allocator.kernelEnd)
      modifies this`pool, this`outside
      ensures Wired() && Backed() && pool == p && outside == o
    {
      ShownApart(allocator.View(), p, o);
      pool, outside := p, o;
    }

    lemma BackedShows()
      requires Backed()
      ensures Shows(allocator.View(), pool, outside) && Freeable(pool, allocator.kernelStart, allocator.kernelEnd)
    {
    }

    /** page_alloc(0). */
    method AllocFrame() returns (x: Option<nat>)
      requires Backed()
      modifies this`pool, allocator, allocator.order, allocator.uses, allocator.freeCount, allocator.nodes
      ensures Backed()
      ensures x.None? <==> old(pool).free == {}
      ensures x.None? ==> pool == old(pool)
      ensures x.Some? ==> x.value in old(pool).free && pool == Take(old(pool), x.value)
    {
      hide Shows, BuddyOps.Alloc;
      AllocTakes(allocator.View(), pool, outside);
      x := allocator.PageAlloc(0);
      if x.Some? {
        pool := Take(pool, x.value);
      }
    }

    /** page_free(x, 0). */
    method FreeFrame(x: nat)
      requires Backed() && x in pool.uses
      modifies this`pool, allocator, allocator.order, allocator.uses, allocator.freeCount, allocator.nodes
      ensures Backed() && pool == Drop(old(pool), x)
    {
      hide Shows, BuddyOps.Free;
      FreeDrops(allocator.View(), pool, outside, x);
      var _ := allocator.PageFree(Some(x), 0);
      pool := Drop(pool, x);
    }

    /** PAGE_INC_USES. */
    method ShareFrame(x: nat)
      requires Backed() && x in pool.uses
      modifies this`pool, allocator.uses
      ensures Backed() && pool == Share(old(pool), x)
    {
      hide Shows, BuddyCanonical.AddUser;
      ShareAddsUser(allocator.View(), pool, outside, x);
      allocator.IncUses(x, 0);
      pool := Share(pool, x);
    }

    /** ptable_pgd_new, page allocation succeeding. */
    method PgdNew() returns (d: nat)
      requires Wired() && Backed() && pool.free != {}
      modifies this`pool, this`memory, this`ledger, allocator, allocator.order, allocator.uses, allocator.freeCount, allocator.nodes
      ensures Wired() && Backed() && d in old(pool).free && pool == Take(old(pool), d)
      ensures ledger == old(ledger).(dirs := old(ledger).dirs + {d}) && memory[d] == kernel
    {
      hide Backed;
      var x := AllocFrame();
      d := x.value;
      AddDirAgrees(memory, ledger, d, kernel);
      KernelHalfFrame(memory, ledger.dirs, kernel, d, kernel);
      memory := memory[d := CLEARED];
      memory := memory[d := kernel];
      assert memory == old(memory)[d := kernel];
      ledger := ledger.(dirs := ledger.dirs + {d});
    }

    /** Allocate and clear a page table for slot `i` of directory `d` if it has none. */
    method EnsureTable(d: nat, i: nat) returns (ghost table: Option<nat>)
      requires Wired() && Backed() && d in ledger.dirs && i < USER_DIRS && ((d, i) !in ledger.tabs ==> pool.free != {})
      modifies this`pool, this`memory, this`ledger, allocator, allocator.order, allocator.uses, allocator.freeCount, allocator.nodes
      ensures Wired() && Backed() && TableStep(old(pool), old(ledger), pool, ledger, (d, i), table)
      ensures IsTable(memory, d) && (d, i) in ledger.tabs && memory[d][i] == TableEntry(ledger.tabs[(d, i)])
      ensures table.None? ==> memory == old(memory)
      ensures table.Some? ==> d in old(memory) && OnlySlot(old(memory)[table.value := CLEARED], memory, d, i)
    {
      hide Agree, Backed, KernelHalf;
      DirSlot(memory, ledger, d, i);
      if Exists(memory[d][i]) { return None; }
      var x := AllocFrame();
      var t := x.value;
      AddTableAgrees(memory, ledger, d, i, t);
      AddValue(ledger.tabs, (d, i), t);
      KernelHalfFrame(memory, ledger.dirs, kernel, t, CLEARED);
      memory := memory[t := CLEARED];
      KernelHalfSlot(memory, ledger.dirs, kernel, d, i, MakeEntry(t * PAGE_SIZE, PRESENT + WRITABLE + USER));
      memory := SetSlot(memory, d, i, MakeEntry(t * PAGE_SIZE, PRESENT + WRITABLE + USER));
      ledger := ledger.(tabs := ledger.tabs[(d, i) := t]);
      return Some(t);
    }

    /** ptable_map on a user address; page allocation succeeds if a table is needed. Translation changes at
        exactly one virtual page. */
    method Map(d: nat, va: nat, pa: nat, writable: bool) returns (ghost table: Option<nat>)
      requires Wired() && Backed() && d in ledger.dirs && va < KERNEL_START_VIRT
      requires (d, DirOf(va / PAGE_SIZE)) !in ledger.tabs ==> pool.free != {}
      modifies this`pool, this`memory, this`ledger, allocator, allocator.order, allocator.uses, allocator.freeCount, allocator.nodes
      ensures Wired() && Backed()
      ensures TableStep(old(pool), old(ledger), pool, ledger.(leaves := old(ledger).leaves), (d, DirOf(va / PAGE_SIZE)), table)
      ensures ledger.leaves == old(ledger).leaves[(d, va / PAGE_SIZE) := LeafEntry(pa, writable)]
      ensures ChangesOnly(old(memory), memory, ledger.dirs, d, va / PAGE_SIZE, Some(LeafEntry(pa, writable)))
      ensures forall x :: x in old(memory) && x != d && x != ledger.tabs[(d, DirOf(va / PAGE_SIZE))] ==> x in memory && memory[x] == old(memory)[x]
    {
      hide Agree, Backed, KernelHalf, ChangesOnly;
      var entry := MakeEntry(pa, PRESENT + USER);
      if writable { entry := SetWritable(entry); }
      LeafEntryFields(pa, writable);
      var v := va / PAGE_SIZE;
      ghost var l0 := ledger;
      table := EnsureTable(d, DirOf(v));
      var t := FrameOf(memory[d][DirOf(v)]);
      TableEntryFields(ledger.tabs[(d, DirOf(v))]);
      SetLeafAgrees(memory, ledger, d, v, entry);
      SetLeafKernel(memory, ledger, kernel, d, v, entry);
      memory := SetSlot(memory, t, SlotOf(v), entry);
      ledger := SetLeaf(ledger, d, v, entry);
      LedgerChange(old(memory), l0, memory, ledger, kernel, d, v, entry);
    }

    /** ptable_map_many: the whole contiguous range is mapped, page by page. Page allocation succeeds: there
        is a free frame for every page table that the range lacks, and exactly those are taken. */
    method MapMany(d: nat, va: nat, pa: nat, count: nat, writable: bool)
      requires Wired() && Backed() && d in ledger.dirs && va + count * PAGE_SIZE <= KERNEL_START_VIRT
      requires |Missing(ledger, d, DirOf(va / PAGE_SIZE), SlotsEnd(va / PAGE_SIZE, count))| <= |pool.free|
      modifies this`pool, this`memory, this`ledger, allocator, allocator.order, allocator.uses, allocator.freeCount, allocator.nodes
      ensures Wired() && Backed()
      ensures ledger.leaves == MapRange(old(ledger).leaves, d, va / PAGE_SIZE, pa, count, writable)
      ensures TablesAdded(old(pool), old(ledger), pool, ledger, d, DirOf(va / PAGE_SIZE), SlotsEnd(va / PAGE_SIZE, count))
    {
      hide Agree, Backed, TablesAdded;
      var i := 0;
      ghost var v := va / PAGE_SIZE;
      NoTablesAdded(pool, ledger, d, DirOf(v));
      while i < count
        invariant i <= count && Wired() && Backed() && d in ledger.dirs
        invariant |Missing(ledger, d, DirOf(v), SlotsEnd(v, count))| <= |pool.free|
        invariant ledger.leaves == MapRange(old(ledger).leaves, d, v, pa, i, writable)
        invariant TablesAdded(old(pool), old(ledger), pool, ledger, d, DirOf(v), SlotsEnd(v, i))
      {
        PageNumber(va, i, count);
        NextSlotsEnd(v, i, count);
        MapNext(d, va + i * PAGE_SIZE, pa + i * PAGE_SIZE, writable, v, i, count, old(pool), old(ledger));
        i := i + 1;
      }
    }

    /** One round of ptable_map_many, at page `i` of the `count` pages from `v` on; `p` and `l` are from before
        the first. */
    method MapNext(d: nat, va: nat, pa: nat, writable: bool, ghost v: nat, ghost i: nat, ghost count: nat, ghost p: Pool, ghost l: Ledger)
      requires Wired() && Backed() && d in ledger.dirs && va < KERNEL_START_VIRT && va / PAGE_SIZE == v + i && i < count
      requires |Missing(ledger, d, DirOf(v), SlotsEnd(v, count))| <= |pool.free|
      requires TablesAdded(p, l, pool, ledger, d, DirOf(v), SlotsEnd(v, i)) && p.free !! p.uses.Keys
      modifies this`pool, this`memory, this`ledger, allocator, allocator.order, allocator.uses, allocator.freeCount, allocator.nodes
      ensures Wired() && Backed() && ledger.dirs == old(ledger).dirs
      ensures ledger.leaves == old(ledger).leaves[(d, va / PAGE_SIZE) := LeafEntry(pa, writable)]
      ensures |Missing(ledger, d, DirOf(v), SlotsEnd(v, count))| <= |pool.free|
      ensures TablesAdded(p, l, pool, ledger, d, DirOf(v), SlotsEnd(v, i + 1))
    {
      hide Agree, Backed, TablesAdded, SlotsEnd, LeafEntry, ChangesOnly;
      ghost var q, k, slot, end := pool, ledger, DirOf(va / PAGE_SIZE), SlotsEnd(v, count);
      NextSlotsEnd(v, i, count);
      MissingHas(k, q, d, DirOf(v), end, slot);
      ghost var table := Map(d, va, pa, writable);
      ghost var j := ledger.(leaves := k.leaves);
      MissingAfter(q, k, pool, j, d, DirOf(v), end, slot, table);
      assert Missing(ledger, d, DirOf(v), end) == Missing(j, d, DirOf(v), end);
      TablesGrow(p, l, q, k, pool, j, d, DirOf(v), SlotsEnd(v, i), slot, table);
      SameTables(p, l, pool, j, ledger, d, DirOf(v), slot + 1);
    }

    /** ptable_unmap without freeing: the page is unmapped, if it was mapped, and nothing else changes. */
    method Unmap(d: nat, va: nat)
      requires Wired() && d in ledger.dirs && va < KERNEL_START_VIRT
      modifies this`memory, this`ledger
      ensures Wired() && ledger == old(ledger).(leaves := old(ledger).leaves - {(d, va / PAGE_SIZE)})
      ensures ChangesOnly(old(memory), memory, ledger.dirs, d, va / PAGE_SIZE, None)
      ensures (d, DirOf(va / PAGE_SIZE)) !in ledger.tabs ==> memory == old(memory)
      ensures (d, DirOf(va / PAGE_SIZE)) in ledger.tabs ==>
        var t, i := ledger.tabs[(d, DirOf(va / PAGE_SIZE))], SlotOf(va / PAGE_SIZE);
        && OnlySlot(old(memory), memory, t, i) && IsTable(old(memory), t) && IsTable(memory, t)
        && memory[t][i] == ClearMapping(old(memory)[t][i])
    {
      hide KernelHalf, ChangesOnly;
      var v := va / PAGE_SIZE;
      assert DirAgrees(memory, ledger, d, DirOf(v));
      ghost var l0 := ledger;
      if !Exists(memory[d][DirOf(v)]) {
        assert (d, v) !in ledger.leaves;
        assert ledger.leaves - {(d, v)} == ledger.leaves;
        LedgerChange(memory, l0, memory, ledger, kernel, d, v, 0);
        return;
      }
      TableEntryFields(ledger.tabs[(d, DirOf(v))]);
      var t := FrameOf(memory[d][DirOf(v)]);
      assert LeafAgrees(memory, ledger, d, v);
      var cleared := ClearMapping(memory[t][SlotOf(v)]);
      ClearedFields(memory[t][SlotOf(v)]);
      SetLeafAgrees(memory, ledger, d, v, cleared);
      SetLeafKernel(memory, ledger, kernel, d, v, cleared);
      memory := SetSlot(memory, t, SlotOf(v), cleared);
      ledger := SetLeaf(ledger, d, v, cleared);
      LedgerChange(old(memory), l0, memory, ledger, kernel, d, v, cleared);
    }

    /** ptable_unmap with freeing: the frame of the page loses one user. An absent entry in a present table is
        the case that UnmapFreesMapped rules out. */
    method UnmapFree(d: nat, va: nat)
      requires Wired() && Backed() && Counted(pool, ledger) && d in ledger.dirs && va < KERNEL_START_VIRT
      requires (d, DirOf(va / PAGE_SIZE)) in ledger.tabs ==> (d, va / PAGE_SIZE) in ledger.leaves
      modifies this`pool, this`memory, this`ledger, allocator, allocator.order, allocator.uses, allocator.freeCount, allocator.nodes
      ensures Wired() && Backed() && Counted(pool, ledger) && Outside(pool, ledger) == Outside(old(pool), old(ledger))
      ensures ledger == old(ledger).(leaves := old(ledger).leaves - {(d, va / PAGE_SIZE)})
    {
      hide Counted, Outside, Backed;
      var v := va / PAGE_SIZE;
      assert DirAgrees(memory, ledger, d, DirOf(v));
      if Exists(memory[d][DirOf(v)]) {
        TableEntryFields(ledger.tabs[(d, DirOf(v))]);
        var t := FrameOf(memory[d][DirOf(v)]);
        assert LeafAgrees(memory, ledger, d, v);
        DropLeaf(pool, ledger, (d, v));
        FreeFrame(FrameOf(memory[t][SlotOf(v)]));
      } else {
        assert ledger.leaves - {(d, v)} == ledger.leaves;
      }
      Unmap(d, va);
    }

    /** ptable_unmap_many without freeing. */
    method UnmapMany(d: nat, va: nat, count: nat)
      requires Wired() && d in ledger.dirs && va + count * PAGE_SIZE <= KERNEL_START_VIRT
      modifies this`memory, this`ledger
      ensures Wired() && ledger == old(ledger).(leaves := UnmapRange(old(ledger).leaves, d, va / PAGE_SIZE, count))
    {
      hide Agree;
      var i := 0;
      while i < count
        invariant i <= count && Wired()
        invariant ledger == old(ledger).(leaves := UnmapRange(old(ledger).leaves, d, va / PAGE_SIZE, i))
      {
        PageNumber(va, i, count);
        Unmap(d, va + i * PAGE_SIZE);
        i := i + 1;
      }
    }

    /** ptable_get_pte: where the entry for an address is, if its table exists. */
    method GetPte(d: nat, va: nat) returns (slot: Option<(nat, nat)>)
      requires Wired() && d in ledger.dirs && va < KERNEL_START_VIRT
      ensures slot.Some? <==> (d, DirOf(va / PAGE_SIZE)) in ledger.tabs
      ensures slot.Some? ==> IsTable(memory, slot.value.0) && slot.value.1 < ENTRIES
      ensures slot.Some? ==>
        var e := memory[slot.value.0][slot.value.1];
        Walk(memory, d, va / PAGE_SIZE) == if Exists(e) then Some(e) else None
    {
      var v := va / PAGE_SIZE;
      assert DirAgrees(memory, ledger, d, DirOf(v));
      if !Exists(memory[d][DirOf(v)]) { return None; }
      TableEntryFields(ledger.tabs[(d, DirOf(v))]);
      return Some((FrameOf(memory[d][DirOf(v)]), SlotOf(v)));
    }

    /** The inner loop of ptable_copy_range with PTC_SHARE: entries `lo` up to `hi` of slot `i`. */
    method ShareTable(src: nat, dst: nat, i: nat, lo: nat, hi: nat)
      requires Wired() && Backed() && Housed(pool, ledger) && src in ledger.dirs && dst in ledger.dirs && src != dst
      requires i < USER_DIRS && lo <= hi <= ENTRIES && (src, i) in ledger.tabs && (dst, i) in ledger.tabs
      modifies this`pool, this`memory, this`ledger, allocator.uses
      ensures Wired() && Backed() && Housed(pool, ledger)
      ensures Shared(old(pool), old(ledger), pool, ledger, src, dst, i * ENTRIES + lo, i * ENTRIES + hi)
    {
      hide Agree, Backed, Housed, NoLess, Accounted, SharedRange, Disjoint;
      SharedNothing(pool, ledger, src, dst, i * ENTRIES + lo, i * ENTRIES + lo);
      var j := lo;
      while j < hi
        invariant lo <= j <= hi && Wired() && Backed() && Housed(pool, ledger)
        invariant Shared(old(pool), old(ledger), pool, ledger, src, dst, i * ENTRIES + lo, i * ENTRIES + j)
      {
        ghost var p, l := pool, ledger;
        ShareEntry(src, dst, i, j);
        SharedBoth(old(pool), old(ledger), p, l, pool, ledger, src, dst, i * ENTRIES + lo, i * ENTRIES + j, i * ENTRIES + j + 1);
        j := j + 1;
      }
    }

    /** One entry of ptable_copy_range with PTC_SHARE, written over whatever the destination has there. */
    method ShareEntry(src: nat, dst: nat, i: nat, j: nat)
      requires Wired() && Backed() && Housed(pool, ledger) && src in ledger.dirs && dst in ledger.dirs && src != dst
      requires i < USER_DIRS && j < ENTRIES && (src, i) in ledger.tabs && (dst, i) in ledger.tabs
      modifies this`pool, this`memory, this`ledger, allocator.uses
      ensures Wired() && Backed() && Housed(pool, ledger)
      ensures Shared(old(pool), old(ledger), pool, ledger, src, dst, i * ENTRIES + j, i * ENTRIES + j + 1)
      ensures memory == old(memory) || OnlySlot(old(memory), memory, old(ledger).tabs[(dst, i)], j)
    {
      ghost var v := i * ENTRIES + j;
      hide KernelHalf, Agree, Backed, Housed, NoLess, Accounted, SharedRange, Disjoint;
      assert DirOf(v) == i && SlotOf(v) == j;
      EntryAt(memory, ledger, src, v);
      EntryAt(memory, ledger, dst, v);
      var from, to := FrameOf(memory[src][i]), FrameOf(memory[dst][i]);
      if !Exists(memory[from][j]) {
        SharedNothing(pool, ledger, src, dst, v, v + 1);
        return;
      }
      var e := memory[from][j];
      SharedOne(pool, ledger, src, dst, v);
      ShareFrame(FrameOf(e));
      SetLeafAgrees(memory, ledger, dst, v, e);
      SetLeafKernel(memory, ledger, kernel, dst, v, e);
      memory := SetSlot(memory, to, j, e);
      ledger := SetLeaf(ledger, dst, v, e);
    }

    /** ptable_copy_range with PTC_SHARE, the destination's tables existing already: every page that `src`
        maps from `start` up to the bound that the loops really use gets an entry in `dst` for the same
        frame, with one more user. The counts account for every frame afterwards if and only if the
        destination mapped none of those pages. */
    method ShareRange(src: nat, dst: nat, start: nat, end: nat)
      requires Wired() && Backed() && Counted(pool, ledger) && src in ledger.dirs && dst in ledger.dirs && src != dst
      requires start <= end < KERNEL_START_VIRT
      requires forall i :: DirOf(start / PAGE_SIZE) <= i <= DirOf(end / PAGE_SIZE) && (src, i) in ledger.tabs ==> (dst, i) in ledger.tabs
      modifies this`pool, this`memory, this`ledger, allocator.uses
      ensures Wired() && Backed() && ledger.dirs == old(ledger).dirs && ledger.tabs == old(ledger).tabs
      ensures SharedRange(old(ledger).leaves, ledger.leaves, src, dst, start / PAGE_SIZE, CopyEnd(start / PAGE_SIZE, end / PAGE_SIZE))
      ensures Accounted(old(pool), old(ledger), pool, ledger)
         <==> Disjoint(old(ledger).leaves, src, dst, start / PAGE_SIZE, CopyEnd(start / PAGE_SIZE, end / PAGE_SIZE))
    {
      hide Agree, Backed, Housed, Counted, NoLess, Accounted, SharedRange, Disjoint;
      var first, last := start / PAGE_SIZE, end / PAGE_SIZE;
      var startDir, endDir := DirOf(first), DirOf(last);
      var i := startDir;
      ghost var done := first;
      CountedHoused(pool, ledger);
      SharedNothing(pool, ledger, src, dst, first, first);
      while i <= endDir
        invariant startDir <= i <= endDir + 1 && Wired() && Backed() && Housed(pool, ledger)
        invariant done == if i == startDir then first else if i <= endDir then i * ENTRIES else CopyEnd(first, last)
        invariant Shared(old(pool), old(ledger), pool, ledger, src, dst, first, done)
      {
        ghost var next := if i < endDir then (i + 1) * ENTRIES else CopyEnd(first, last);
        ghost var p, l := pool, ledger;
        CopyBounds(first, last, i);
        var present := HasTable(src, i);
        if present {
          var lo, hi := 0, ENTRIES;
          if i == startDir { lo := SlotOf(first); } else if i == endDir { hi := SlotOf(last); }
          ShareTable(src, dst, i, lo, hi);
        } else {
          NothingToShare(memory, pool, ledger, src, dst, i, done, next);
        }
        SharedBoth(old(pool), old(ledger), p, l, pool, ledger, src, dst, first, done, next);
        done := next;
        i := i + 1;
      }
      SharingAccounts(old(pool), old(ledger), pool, ledger, src, dst, first, CopyEnd(first, last));
    }

    /** PDE_EXISTS. */
    method HasTable(d: nat, i: nat) returns (present: bool)
      requires Wired() && d in ledger.dirs && i < USER_DIRS
      ensures present <==> (d, i) in ledger.tabs
    {
      assert DirAgrees(memory, ledger, d, i);
      return Exists(memory[d][i]);
    }

    /** The inner loop of ptable_pgd_free: every frame that the table in slot `i` maps loses a user. */
    method FreeTable(d: nat, i: nat, ghost k0: Ledger) returns (ghost k: Ledger)
      requires Agree(memory, ledger) && Backed() && d in ledger.dirs && i < USER_DIRS && (d, i) in ledger.tabs
      requires Counted(pool, k0) && k0.leaves == Above(ledger.leaves, d, i * ENTRIES)
      modifies this`pool, allocator, allocator.order, allocator.uses, allocator.freeCount, allocator.nodes
      ensures Backed() && k == k0.(leaves := Above(ledger.leaves, d, (i + 1) * ENTRIES))
      ensures Counted(pool, k) && Settled(old(pool), k0, pool, k)
    {
      hide Agree, Backed, Counted, Above, Settled, Exists, FrameOf;
      SettledSelf(pool, k0);
      k := k0;
      var j := 0;
      while j < ENTRIES
        invariant j <= ENTRIES && Backed() && k == k0.(leaves := Above(ledger.leaves, d, i * ENTRIES + j))
        invariant Counted(pool, k) && Settled(old(pool), k0, pool, k)
      {
        ghost var v := i * ENTRIES + j;
        assert DirOf(v) == i && SlotOf(v) == j;
        EntryAt(memory, ledger, d, v);
        AboveStep(ledger.leaves, d, v);
        var t := FrameOf(memory[d][i]);
        if Exists(memory[t][j]) {
          ghost var p, l := pool, k;
          DropLeafSettles(pool, k, (d, v));
          FreeFrame(FrameOf(memory[t][j]));
          k := k.(leaves := k.leaves - {(d, v)});
          SettledJoins(old(pool), k0, p, l, pool, k);
        }
        j := j + 1;
      }
    }

    /** One slot of ptable_pgd_free: the pages of its table, then the table itself. */
    method FreeSlot(d: nat, i: nat, ghost k0: Ledger) returns (ghost k: Ledger)
      requires Agree(memory, ledger) && Backed() && d in ledger.dirs && i < USER_DIRS
      requires Counted(pool, k0) && k0 == Ledger(ledger.dirs, Above(ledger.tabs, d, i), Above(ledger.leaves, d, i * ENTRIES))
      modifies this`pool, allocator, allocator.order, allocator.uses, allocator.freeCount, allocator.nodes
      ensures Backed() && k == Ledger(ledger.dirs, Above(ledger.tabs, d, i + 1), Above(ledger.leaves, d, (i + 1) * ENTRIES))
      ensures Counted(pool, k) && Settled(old(pool), k0, pool, k)
    {
      hide Agree, Backed, Counted;
      AboveStep(ledger.tabs, d, i);
      DirEntry(memory, ledger, d, i);
      if !Exists(memory[d][i]) {
        AboveSlot(memory, ledger, d, i);
        return k0;
      }
      k := k0;
      if !IsHuge(memory[d][i]) {
        k := FreeTable(d, i, k0);
      }
      ghost var p, l := pool, k;
      DropTableSettles(memory, ledger, pool, k, d, i);
      FreeFrame(FrameOf(memory[d][i]));
      k := k.(tabs := k.tabs - {(d, i)});
      SettledJoins(old(pool), k0, p, l, pool, k);
    }

    /** ptable_pgd_free: the mapped frames lose a user each, the tables and the directory are freed, and
        nothing outside the directory is touched. */
    method PgdFree(d: nat)
      requires Wired() && Backed() && Counted(pool, ledger) && d in ledger.dirs
      modifies this`pool, this`ledger, allocator, allocator.order, allocator.uses, allocator.freeCount, allocator.nodes
      ensures Wired() && Backed() && ledger == WithoutDir(old(ledger), d)
      ensures Counted(pool, ledger) && Settled(old(pool), old(ledger), pool, ledger)
    {
      hide Agree, Backed, Counted, Above, Settled, WithoutDir;
      ghost var k := ledger;
      SettledSelf(pool, ledger);
      AboveNothing(ledger, d);
      var i := 0;
      while i < USER_DIRS
        invariant i <= USER_DIRS && Backed() && Counted(pool, k) && Settled(old(pool), ledger, pool, k)
        invariant k == Ledger(ledger.dirs, Above(ledger.tabs, d, i), Above(ledger.leaves, d, i * ENTRIES))
        modifies this`pool, allocator, allocator.order, allocator.uses, allocator.freeCount, allocator.nodes
      {
        ghost var p, l := pool, k;
        k := FreeSlot(d, i, k);
        SettledJoins(old(pool), ledger, p, l, pool, k);
        i := i + 1;
      }
      AboveAll(memory, ledger, d);
      ghost var p := pool;
      DropDirSettles(memory, ledger, pool, k, d);
      FreeFrame(d);
      SettledJoins(old(pool), ledger, p, k, pool, WithoutDir(ledger, d));
      WithoutDirAgrees(memory, ledger, d);
      WithoutDirKernel(memory, ledger, kernel, d);
      ledger := WithoutDir(ledger, d);
      CountedGrounded(pool, ledger);
    }

    /** Freeing several directories one after the other, in any order: after each of them the use count of a
        frame that was mapped at the start is the number of entries left for it, and the frame is in the free
        lists of the page allocator exactly when there are none. `pools` and `states` record the pool and the
        allocator after each. */
    method TearDown(ds: seq<nat>) returns (ghost pools: seq<Pool>, ghost states: seq<Buddy.State>)
      requires Wired() && Backed() && Counted(pool, ledger)
      requires forall i, j :: 0 <= i < j < |ds| ==> ds[i] != ds[j]
      requires forall i :: 0 <= i < |ds| ==> ds[i] in ledger.dirs
      modifies this`pool, this`ledger, allocator, allocator.order, allocator.uses, allocator.freeCount, allocator.nodes
      ensures Wired() && Backed() && ledger == WithoutDirs(old(ledger), ds)
      ensures |pools| == |states| == |ds| + 1 && pools[0] == old(pool) && pools[|ds|] == pool
      ensures states[0] == old(allocator.View()) && states[|ds|] == allocator.View()
      ensures forall i :: 0 <= i <= |ds| ==> Counted(pools[i], WithoutDirs(old(ledger), ds[..i]))
      ensures forall i :: 0 <= i <= |ds| ==> Shows(states[i], pools[i], outside)
      ensures forall f, i :: f in LeafFrames(old(ledger).leaves) && 0 <= i <= |ds| ==>
        HeldByEntries(pools[i], states[i], old(ledger), ds[..i], f)
    {
      hide Agree, Backed, Counted, Settled, Shows, WithoutDir, FreedOnly, KernelHalf;
      ghost var l := ledger;
      BackedShows();
      pools, states := [pool], [allocator.View()];
      var i := 0;
      assert ds[..0] == [];
      while i < |ds|
        invariant i <= |ds| && Wired() && Backed() && ledger == WithoutDirs(l, ds[..i])
        invariant |pools| == |states| == i + 1 && pools[0] == old(pool) && pools[i] == pool
        invariant states[0] == old(allocator.View()) && states[i] == allocator.View()
        invariant forall j :: i <= j < |ds| ==> ds[j] in ledger.dirs
        invariant forall j :: 0 <= j <= i ==> Counted(pools[j], WithoutDirs(l, ds[..j])) && Shows(states[j], pools[j], outside)
        invariant forall j :: 0 <= j < i ==> FreedOnly(l, pools, ds, j)
      {
        PgdFree(ds[i]);
        BackedShows();
        DirsLeft(l, ds, i);
        OneFreed(l, pools, ds, i, pool);
        pools, states := pools + [pool], states + [allocator.View()];
        i := i + 1;
      }
      assert ds[..|ds|] == ds;
      TornDown(l, pools, states, outside, ds);
    }
  }
}
