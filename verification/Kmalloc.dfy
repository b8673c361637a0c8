/** kmalloc and kfree of kernel/mm/kmalloc.c over the slab caches, on values. */
module Kmalloc {
  import opened Kernel
  import opened Slabs

  const SIZES: seq<nat> := [8, 16, 32, 64, 128, 256, 512, 1024, 2048, 4096, 8192, 16384, 32768]
  const SLAB_DEFAULT_ORDER: nat := 4

  /** The slabs of each cache, in list order. */
  type Heap = seq<seq<Slab>>

  predicate InHeap(h: Heap, c: nat, i: nat) { c < |h| && i < |h[c]| }

  /** A slab of cache `c`, in a block of its own. */
  ghost predicate Placed(s: Slab, c: nat) {
    c < |SIZES| && SlabOk(s) && s.size == SIZES[c] && s.base > 0 && s.base % BLOCK == 0
  }

  ghost predicate HeapOk(h: Heap) {
    && |h| == |SIZES|
    && (forall c: nat, i: nat :: InHeap(h, c, i) ==> Placed(h[c][i], c))
    && (forall c: nat, i: nat, d: nat, j: nat ::
          InHeap(h, c, i) && InHeap(h, d, j) && h[c][i].base == h[d][j].base ==> c == d && i == j)
  }

  /** Address `a` is a slot of slab `i` of cache `c`. */
  ghost predicate SlotOf(h: Heap, c: nat, i: nat, a: nat) {
    InHeap(h, c, i) && h[c][i].size > 0 && IsSlot(h[c][i].base, h[c][i].size, a)
  }

  ghost predicate LiveIn(h: Heap, c: nat, i: nat, a: nat) {
    SlotOf(h, c, i, a) && a !in h[c][i].free
  }

  // ---------------------------------------------------------------- searches

  /** kmalloc's loop: the first class that is large enough, or past the end. */
  function ClassFrom(size: nat, c: nat): (r: nat)
    requires c <= |SIZES|
    ensures c <= r <= |SIZES|
    ensures r < |SIZES| ==> size <= SIZES[r]
    ensures forall i :: c <= i < r ==> size > SIZES[i]
    decreases |SIZES| - c
  {
    if c == |SIZES| || size <= SIZES[c] then c else ClassFrom(size, c + 1)
  }

  function ClassFor(size: nat): nat { ClassFrom(size, 0) }

  /** slab_alloc_from_cache: the first slab with a free slot. */
  function FirstFree(slabs: seq<Slab>): (r: nat)
    ensures r <= |slabs| && (r < |slabs| ==> slabs[r].free != [])
    ensures forall i :: 0 <= i < r ==> slabs[i].free == []
  {
    if slabs == [] || slabs[0].free != [] then 0 else 1 + FirstFree(slabs[1..])
  }

  /** The range test of slab_cache_has_addr, which ends where the slab ends. */
  predicate HasAddr(s: Slab, a: nat) { Start(s.base) <= a < s.base + BLOCK }

  /** The range test of slab_free, whose end overshoots the slab by one header. */
  predicate InFreeRange(s: Slab, a: nat) { Start(s.base) <= a < Start(s.base) + BLOCK }

  predicate CacheHasAddr(slabs: seq<Slab>, a: nat) {
    exists i :: 0 <= i < |slabs| && HasAddr(slabs[i], a)
  }

  /** kfree's loop. */
  function FindCache(h: Heap, a: nat): (r: nat)
    ensures r <= |h| && (r < |h| ==> CacheHasAddr(h[r], a))
    ensures forall i :: 0 <= i < r ==> !CacheHasAddr(h[i], a)
  {
    if h == [] || CacheHasAddr(h[0], a) then 0 else 1 + FindCache(h[1..], a)
  }

  /** slab_free's loop. */
  function FindSlab(slabs: seq<Slab>, a: nat): (r: nat)
    ensures r <= |slabs| && (r < |slabs| ==> InFreeRange(slabs[r], a))
    ensures forall i :: 0 <= i < r ==> !InFreeRange(slabs[i], a)
  {
    if slabs == [] || InFreeRange(slabs[0], a) then 0 else 1 + FindSlab(slabs[1..], a)
  }

  /** Blocks are far enough apart that slab_free's range test singles out the slab of a slot, in spite of
      the overshoot. */
  lemma RangeIsUnique(s: Slab, c: nat, t: Slab, d: nat, a: nat)
    requires Placed(s, c) && Placed(t, d) && IsSlot(s.base, s.size, a)
    ensures InFreeRange(s, a) && HasAddr(s, a)
    ensures InFreeRange(t, a) ==> t.base == s.base
  {
    SlotBounds(s.base, s.size, a);
    var p, q := s.base / BLOCK, t.base / BLOCK;
    assert s.base == BLOCK * p && t.base == BLOCK * q;
    if q < p {
      assert t.base + BLOCK <= s.base;
    } else if p < q {
      assert s.base + BLOCK <= t.base;
    }
  }

  /** kfree finds the one cache, and slab_free the one slab, that issued an object. */
  lemma FreeFindsIssuer(h: Heap, c: nat, i: nat, a: nat)
    requires HeapOk(h) && SlotOf(h, c, i, a)
    ensures FindCache(h, a) == c && FindSlab(h[c], a) == i
  {
    var s := h[c][i];
    RangeIsUnique(s, c, s, c, a);
    assert CacheHasAddr(h[c], a);
    forall d: nat, j: nat | InHeap(h, d, j) && InFreeRange(h[d][j], a) ensures d == c && j == i {
      RangeIsUnique(s, c, h[d][j], d, a);
    }
    forall d: nat | d < c ensures !CacheHasAddr(h[d], a) {
      forall j | 0 <= j < |h[d]| ensures !HasAddr(h[d][j], a) {
        assert HasAddr(h[d][j], a) ==> InFreeRange(h[d][j], a);
        assert InHeap(h, d, j);
      }
    }
    forall j: nat | j < i ensures !InFreeRange(h[c][j], a) {
      assert InHeap(h, c, j);
    }
  }

  /** Slots of different objects are disjoint, within a slab and across slabs and caches. */
  lemma ObjectsDisjoint(h: Heap, c: nat, i: nat, a: nat, d: nat, j: nat, b: nat)
    requires HeapOk(h) && SlotOf(h, c, i, a) && SlotOf(h, d, j, b) && a != b
    ensures a + SIZES[c] <= b || b + SIZES[d] <= a
  {
    var s, t := h[c][i], h[d][j];
    if c == d && i == j {
      if a < b { SlotsDisjoint(s.base, s.size, a, b); } else { SlotsDisjoint(s.base, s.size, b, a); }
    } else {
      assert s.base != t.base;
      SlotBounds(s.base, s.size, a);
      SlotBounds(t.base, t.size, b);
      BlocksApart(s.base, t.base);
    }
  }

  lemma BlocksApart(p: nat, q: nat)
    requires p % BLOCK == 0 && q % BLOCK == 0 && p != q
    ensures p + BLOCK <= q || q + BLOCK <= p
  {
    assert p == BLOCK * (p / BLOCK) && q == BLOCK * (q / BLOCK);
  }

  // ---------------------------------------------------------------- operations

  function TakeFrom(h: Heap, c: nat, i: nat): Heap
    requires InHeap(h, c, i) && h[c][i].free != []
  {
    h[c := h[c][i := h[c][i].(free := h[c][i].free[1..])]]
  }

  function AddSlab(h: Heap, c: nat, base: nat): Heap
    requires c < |h| && c < |SIZES|
  {
    h[c := h[c] + [Slab(base, SIZES[c], AllSlots(base, SIZES[c]))]]
  }

  /** kmalloc; `block` is the address of the block that page_alloc gives if a new slab is needed. */
  ghost function Malloc(h: Heap, size: nat, block: Option<nat>): (Option<nat>, Heap)
    requires HeapOk(h)
  {
    var c := ClassFor(size);
    if c == |SIZES| then (None, h)
    else
      var i := FirstFree(h[c]);
      if i < |h[c]| then (Some(h[c][i].free[0]), TakeFrom(h, c, i))
      else if block.None? then (None, h)
      else
        var g := AddSlab(h, c, block.value);
        NewSlabHasSlots(block.value, c);
        (Some(g[c][i].free[0]), TakeFrom(g, c, i))
  }

  lemma NewSlabHasSlots(base: nat, c: nat)
    requires c < |SIZES|
    ensures 8 <= SIZES[c] <= 32768 && Count(SIZES[c]) >= 1 && AllSlots(base, SIZES[c]) != []
  {
    var size := SIZES[c];
    assert size > 0 && size <= BLOCK - HEADER;
    var n := Count(size);
    assert BLOCK - HEADER == n * size + (BLOCK - HEADER) % size;
    assert n * size > 0;
  }

  /** kfree. */
  function Release(h: Heap, a: nat): (bool, Heap) {
    var c := FindCache(h, a);
    if c == |h| then (false, h)
    else
      var i := FindSlab(h[c], a);
      if i == |h[c]| then (true, h)
      else (true, h[c := h[c][i := h[c][i].(free := Insert(h[c][i].free, a))]])
  }

  /** A change to one slab's free list. */
  lemma SetFreeKeepsHeap(h: Heap, c: nat, i: nat, free: seq<nat>)
    requires HeapOk(h) && InHeap(h, c, i) && SlabOk(h[c][i].(free := free))
    ensures HeapOk(h[c := h[c][i := h[c][i].(free := free)]])
  {
    var g := h[c := h[c][i := h[c][i].(free := free)]];
    forall d: nat, j: nat | InHeap(g, d, j)
      ensures InHeap(h, d, j) && g[d][j].base == h[d][j].base && Placed(g[d][j], d)
    {
      assert InHeap(h, d, j);
      assert Placed(h[d][j], d);
    }
  }

  lemma AddSlabKeepsHeap(h: Heap, c: nat, base: nat)
    requires HeapOk(h) && c < |SIZES| && base > 0 && base % BLOCK == 0
    requires forall d: nat, j: nat :: InHeap(h, d, j) ==> h[d][j].base != base
    ensures HeapOk(AddSlab(h, c, base))
  {
    var g := AddSlab(h, c, base);
    NewSlabOk(base, SIZES[c]);
    forall d: nat, j: nat | InHeap(g, d, j)
      ensures Placed(g[d][j], d) && (if d == c && j == |h[c]| then g[d][j].base == base else InHeap(h, d, j) && g[d][j] == h[d][j])
    {
      if !(d == c && j == |h[c]|) { assert InHeap(h, d, j); }
    }
  }

  /** What a successful kmalloc gives: the lowest free slot of the first slab with one, in the smallest class
      that fits, free before and handed out after, and nothing else changes hands. */
  lemma MallocEffect(h: Heap, size: nat, block: Option<nat>)
    requires HeapOk(h)
    requires block.Some? ==> block.value > 0 && block.value % BLOCK == 0
    requires block.Some? ==> forall d: nat, j: nat :: InHeap(h, d, j) ==> h[d][j].base != block.value
    ensures HeapOk(Malloc(h, size, block).1)
    ensures Malloc(h, size, block).0.None? ==> Malloc(h, size, block).1 == h
    ensures Malloc(h, size, block).0.Some? ==>
      var a, g, c := Malloc(h, size, block).0.value, Malloc(h, size, block).1, ClassFor(size);
      && c < |SIZES| && size <= SIZES[c]
      && LiveIn(g, c, FirstFree(h[c]), a)
      && (forall b :: b in g[c][FirstFree(h[c])].free ==> a < b)
      && (forall d: nat, j: nat, b: nat :: LiveIn(g, d, j, b) <==> LiveIn(h, d, j, b) || (d == c && j == FirstFree(h[c]) && b == a))
      && (forall d: nat, j: nat :: !LiveIn(h, d, j, a))
  {
    hide LiveIn, FirstFree, AllSlots;
    var c := ClassFor(size);
    if c < |SIZES| {
      var i := FirstFree(h[c]);
      if i < |h[c]| {
        TakeEffect(h, c, i);
      } else if block.Some? {
        AddSlabKeepsHeap(h, c, block.value);
        NewSlabHasSlots(block.value, c);
        var g := AddSlab(h, c, block.value);
        AddSlabLive(h, c, block.value);
        TakeEffect(g, c, i);
      }
    }
  }

  lemma TakeEffect(h: Heap, c: nat, i: nat)
    requires HeapOk(h) && InHeap(h, c, i) && h[c][i].free != []
    ensures var a, g := h[c][i].free[0], TakeFrom(h, c, i);
      && HeapOk(g) && LiveIn(g, c, i, a) && (forall b :: b in g[c][i].free ==> a < b)
      && (forall d: nat, j: nat, b: nat :: LiveIn(g, d, j, b) <==> LiveIn(h, d, j, b) || (d == c && j == i && b == a))
      && (forall d: nat, j: nat :: !LiveIn(h, d, j, a))
  {
    var s := h[c][i];
    var a, g := s.free[0], TakeFrom(h, c, i);
    assert Placed(s, c);
    TakeLowest(s);
    SetFreeKeepsHeap(h, c, i, s.free[1..]);
    forall d: nat, j: nat, b: nat ensures LiveIn(g, d, j, b) <==> LiveIn(h, d, j, b) || (d == c && j == i && b == a) {
      assert InHeap(g, d, j) <==> InHeap(h, d, j);
    }
    forall d: nat, j: nat ensures !LiveIn(h, d, j, a) {
      if SlotOf(h, d, j, a) {
        assert SlotOf(h, c, i, a);
        FreeFindsIssuer(h, d, j, a);
        FreeFindsIssuer(h, c, i, a);
      }
    }
  }

  lemma AddSlabLive(h: Heap, c: nat, base: nat)
    requires HeapOk(h) && c < |SIZES|
    ensures forall d: nat, j: nat, b: nat :: LiveIn(AddSlab(h, c, base), d, j, b) <==> LiveIn(h, d, j, b)
  {
    var g := AddSlab(h, c, base);
    NewSlabOk(base, SIZES[c]);
    forall d: nat, j: nat, b: nat ensures LiveIn(g, d, j, b) <==> LiveIn(h, d, j, b) {
      if d == c && j == |h[c]| {
        assert InHeap(g, d, j) ==> g[d][j] == Slab(base, SIZES[c], AllSlots(base, SIZES[c]));
      } else {
        assert InHeap(g, d, j) <==> InHeap(h, d, j);
      }
    }
  }

  /** kfree does not look whether the address is an object in use: the caches are well formed afterwards if and
      only if no cache covers the address, or it is a live object. Any other address inside a slab ends up
      on the free list without being a slot, or twice. */
  lemma ReleaseExact(h: Heap, a: nat)
    requires HeapOk(h)
    ensures HeapOk(Release(h, a).1) <==> FindCache(h, a) == |h| || exists c: nat, i: nat :: LiveIn(h, c, i, a)
  {
    var g, c := Release(h, a).1, FindCache(h, a);
    if c < |h| {
      var k :| 0 <= k < |h[c]| && HasAddr(h[c][k], a);
      assert InFreeRange(h[c][k], a);
      var i := FindSlab(h[c], a);
      if HeapOk(g) {
        assert InHeap(g, c, i) && Placed(g[c][i], c) && InHeap(h, c, i);
        InsertMember(h[c][i].free, a);
        assert Placed(h[c][i], c);
        if a in h[c][i].free { InsertTwice(h[c][i].free, a); }
        assert LiveIn(h, c, i, a);
      }
      if d: nat, j: nat :| LiveIn(h, d, j, a) {
        ReleaseEffect(h, d, j, a);
      }
    }
  }

  /** kfree of a live object: exactly that object stops being live. */
  lemma ReleaseEffect(h: Heap, c: nat, i: nat, a: nat)
    requires HeapOk(h) && LiveIn(h, c, i, a)
    ensures Release(h, a).0 && HeapOk(Release(h, a).1)
    ensures forall d: nat, j: nat, b: nat :: LiveIn(Release(h, a).1, d, j, b) <==> LiveIn(h, d, j, b) && b != a
  {
    FreeFindsIssuer(h, c, i, a);
    var s, g := h[c][i], Release(h, a).1;
    assert Placed(s, c);
    PutBack(s, a);
    InsertIs(s.free, a);
    SetFreeKeepsHeap(h, c, i, Insert(s.free, a));
    forall d: nat, j: nat, b: nat ensures LiveIn(g, d, j, b) <==> LiveIn(h, d, j, b) && b != a {
      assert InHeap(g, d, j) <==> InHeap(h, d, j);
      if LiveIn(h, d, j, a) {
        FreeFindsIssuer(h, d, j, a);
      }
    }
  }
}
