/** Slabs of kernel/mm/slab.c on values: a block of sixteen pages with a header and equal slots, and the
    ascending list of its free slots. */
module Slabs {
  const BLOCK: nat := 65536   // PAGE_SIZE << SLAB_DEFAULT_ORDER
  const HEADER: nat := 40     // sizeof(slab_header_t)

  datatype Slab = Slab(base: nat, size: nat, free: seq<nat>)

  /** object_count: how many slots of `size` bytes fit after the header. */
  function Count(size: nat): nat
    requires size > 0
  {
    (BLOCK - HEADER) / size
  }

  function Start(base: nat): nat { base + HEADER }

  function SlotAddr(base: nat, size: nat, i: nat): nat { Start(base) + i * size }

  predicate IsSlot(base: nat, size: nat, a: nat)
    requires size > 0
  {
    exists i :: 0 <= i < Count(size) && SlotAddr(base, size, i) == a
  }

  predicate Ascending(l: seq<nat>) {
    forall i, j :: 0 <= i < j < |l| ==> l[i] < l[j]
  }

  /** The free list is strictly ascending and holds slots of this slab. */
  ghost predicate SlabOk(s: Slab) {
    s.size > 0 && Ascending(s.free) && forall a :: a in s.free ==> IsSlot(s.base, s.size, a)
  }

  /** A slot that is handed out. */
  ghost predicate Live(s: Slab, a: nat)
    requires s.size > 0
  {
    IsSlot(s.base, s.size, a) && a !in s.free
  }

  // ---------------------------------------------------------------- slots do not overlap

  lemma Apart(size: nat, i: nat, j: nat)
    requires i < j
    ensures i * size + size <= j * size
  {
    var d := j - i - 1;
    assert j * size == (i + 1 + d) * size == i * size + size + d * size;
  }

  /** The slots fill the block after the header, with no room for another. */
  lemma CountFills(size: nat)
    requires size > 0
    ensures HEADER + Count(size) * size <= BLOCK < HEADER + (Count(size) + 1) * size
  {
    var c := Count(size);
    assert BLOCK - HEADER == c * size + (BLOCK - HEADER) % size;
    assert (c + 1) * size == c * size + size;
  }

  lemma SlotInBlock(base: nat, size: nat, i: nat)
    requires size > 0 && i < Count(size)
    ensures Start(base) <= SlotAddr(base, size, i) && SlotAddr(base, size, i) + size <= base + BLOCK
  {
    var c := Count(size);
    assert c * size <= BLOCK - HEADER by {
      assert BLOCK - HEADER == c * size + (BLOCK - HEADER) % size;
    }
    Apart(size, i, c);
  }

  /** Different slots of a slab are disjoint. */
  lemma SlotsDisjoint(base: nat, size: nat, a: nat, b: nat)
    requires size > 0 && IsSlot(base, size, a) && IsSlot(base, size, b) && a < b
    ensures a + size <= b
  {
    var i :| 0 <= i < Count(size) && SlotAddr(base, size, i) == a;
    var j :| 0 <= j < Count(size) && SlotAddr(base, size, j) == b;
    if i < j {
      Apart(size, i, j);
    } else if j < i {
      Apart(size, j, i);
    }
  }

  lemma SlotBounds(base: nat, size: nat, a: nat)
    requires size > 0 && IsSlot(base, size, a)
    ensures Start(base) <= a && a + size <= base + BLOCK
  {
    var i :| 0 <= i < Count(size) && SlotAddr(base, size, i) == a;
    SlotInBlock(base, size, i);
  }

  // ---------------------------------------------------------------- operations

  /** slab_add_cache_frame: every slot in order. */
  function AllSlots(base: nat, size: nat): seq<nat>
    requires size > 0
  {
    seq(Count(size), i requires 0 <= i => SlotAddr(base, size, i))
  }

  lemma NewSlabOk(base: nat, size: nat)
    requires size > 0
    ensures SlabOk(Slab(base, size, AllSlots(base, size)))
    ensures forall a :: a in AllSlots(base, size) <==> IsSlot(base, size, a)
  {
    var l := AllSlots(base, size);
    forall i, j | 0 <= i < j < |l| ensures l[i] < l[j] {
      Apart(size, i, j);
    }
    forall a: nat ensures a in l <==> IsSlot(base, size, a) {
      if a in l {
        var i :| 0 <= i < |l| && l[i] == a;
        assert SlotAddr(base, size, i) == a;
      }
      if IsSlot(base, size, a) {
        var i :| 0 <= i < Count(size) && SlotAddr(base, size, i) == a;
        assert l[i] == a;
      }
    }
  }

  /** slab_free: the object goes to its place in the ascending list. */
  function Insert(l: seq<nat>, a: nat): seq<nat> {
    if l == [] || a < l[0] then [a] + l else [l[0]] + Insert(l[1..], a)
  }

  lemma {:induction false} InsertIs(l: seq<nat>, a: nat)
    requires Ascending(l) && a !in l
    ensures Ascending(Insert(l, a)) && |Insert(l, a)| == |l| + 1
    ensures forall x :: x in Insert(l, a) <==> x == a || x in l
  {
    if l != [] && a > l[0] {
      InsertIs(l[1..], a);
      var r := Insert(l[1..], a);
      assert forall x :: x in l <==> x == l[0] || x in l[1..];
      forall j | 0 <= j < |r| ensures l[0] < r[j] {
        assert r[j] in r;
      }
    }
  }

  lemma {:induction false} InsertMember(l: seq<nat>, a: nat)
    ensures a in Insert(l, a)
  {
    if l != [] && a >= l[0] {
      InsertMember(l[1..], a);
    }
  }

  /** Inserting a member again spoils the order. */
  lemma {:induction false} InsertTwice(l: seq<nat>, a: nat)
    requires Ascending(l) && a in l
    ensures !Ascending(Insert(l, a))
  {
    if a == l[0] {
      assert Insert(l, a)[0] == a;
      InsertMember(l[1..], a);
      var j :| 0 <= j < |Insert(l[1..], a)| && Insert(l[1..], a)[j] == a;
      assert Insert(l, a)[j + 1] == a;
    } else {
      assert l[0] < a && a in l[1..];
      InsertTwice(l[1..], a);
      var r, t := Insert(l, a), Insert(l[1..], a);
      var i, j :| 0 <= i < j < |t| && t[i] >= t[j];
      assert r[i + 1] == t[i] && r[j + 1] == t[j];
    }
  }

  /** slab_alloc_from_slab: the lowest free slot. */
  lemma TakeLowest(s: Slab)
    requires SlabOk(s) && s.free != []
    ensures SlabOk(s.(free := s.free[1..])) && IsSlot(s.base, s.size, s.free[0])
    ensures forall x :: x in s.free[1..] <==> x in s.free && x != s.free[0]
    ensures forall x :: x in s.free ==> s.free[0] <= x
  {
    assert s.free[0] in s.free;
    assert forall x :: x in s.free <==> x == s.free[0] || x in s.free[1..];
  }

  lemma PutBack(s: Slab, a: nat)
    requires SlabOk(s) && Live(s, a)
    ensures SlabOk(s.(free := Insert(s.free, a)))
  {
    InsertIs(s.free, a);
  }

  // ---------------------------------------------------------------- canonical form

  /** A strictly ascending list is determined by its members. */
  lemma {:induction false} AscendingUnique(l: seq<nat>, m: seq<nat>)
    requires Ascending(l) && Ascending(m) && forall x :: x in l <==> x in m
    ensures l == m
  {
    assert |l| > 0 ==> l[0] in l;
    assert |m| > 0 ==> m[0] in m;
    if l != [] {
      assert l[0] in m && m[0] in l;
      forall x ensures x in l[1..] <==> x in m[1..] {
        assert x in l <==> x == l[0] || x in l[1..];
        assert x in m <==> x == m[0] || x in m[1..];
      }
      AscendingUnique(l[1..], m[1..]);
    }
  }

  /** Once every slot is free again, in whatever order the objects came back, the free list is the one
      the slab started with. */
  lemma AllFreeIsInitial(s: Slab)
    requires SlabOk(s) && forall a: nat :: !Live(s, a)
    ensures s.free == AllSlots(s.base, s.size)
  {
    NewSlabOk(s.base, s.size);
    forall x ensures x in s.free <==> x in AllSlots(s.base, s.size) {
      if x in AllSlots(s.base, s.size) {
        assert !Live(s, x);
      }
    }
    AscendingUnique(s.free, AllSlots(s.base, s.size));
  }

  // ---------------------------------------------------------------- the list in memory

  /** The free list as it is threaded through the free objects: `p` is the first, and the first word of
      each free object points to the next. */
  ghost predicate Chain(mem: map<nat, nat>, p: nat, l: seq<nat>)
    decreases |l|
  {
    if l == [] then p == 0 else p == l[0] && p != 0 && p in mem && Chain(mem, mem[p], l[1..])
  }

  lemma {:induction false} ChainFrame(mem: map<nat, nat>, mem': map<nat, nat>, p: nat, l: seq<nat>)
    requires Chain(mem, p, l) && forall x :: x in l && x in mem ==> x in mem' && mem'[x] == mem[x]
    ensures Chain(mem', p, l)
    decreases |l|
  {
    if l != [] {
      ChainFrame(mem, mem', mem[p], l[1..]);
    }
  }

  /** Writing the two words that slab_free writes threads the object in before position `j`: in front, where
      the header takes the new first object, or behind a free object. */
  lemma ChainPush(mem: map<nat, nat>, l: seq<nat>, a: nat, q: nat)
    requires Chain(mem, q, l) && a != 0 && a !in l
    ensures Chain(mem[a := q], a, [a] + l)
  {
    ChainFrame(mem, mem[a := q], q, l);
    assert ([a] + l)[1..] == l;
  }

  lemma {:induction false} ChainInsert(mem: map<nat, nat>, p: nat, l: seq<nat>, j: nat, a: nat, q: nat)
    requires Chain(mem, p, l) && 0 < j <= |l| && a != 0 && a !in l && Chain(mem, q, l[j..])
    requires forall x, y :: 0 <= x < y < |l| ==> l[x] != l[y]
    ensures Chain(mem[a := q][l[j - 1] := a], p, l[..j] + [a] + l[j..])
    decreases j
  {
    var m, t := mem[a := q][l[j - 1] := a], l[1..];
    var r := l[..j] + [a] + l[j..];
    assert t[j - 1..] == l[j..];
    assert r[0] == l[0] && r[1..] == t[..j - 1] + [a] + t[j - 1..];
    if j == 1 {
      ChainPush(mem, t, a, q);
      assert t[..0] + [a] + t[0..] == [a] + t;
      ChainFrame(mem[a := q], m, a, [a] + t);
    } else {
      assert t[j - 2] == l[j - 1];
      ChainInsert(mem, mem[p], t, j - 1, a, q);
      assert m[p] == mem[p];
    }
  }

  /** The search of slab_free stops where Insert puts the object. */
  lemma {:induction false} InsertAt(l: seq<nat>, a: nat, j: nat)
    requires j <= |l| && (forall i :: 0 <= i < j ==> l[i] <= a) && (j < |l| ==> a < l[j])
    ensures Insert(l, a) == l[..j] + [a] + l[j..]
    decreases |l|
  {
    if j > 0 {
      InsertAt(l[1..], a, j - 1);
      assert l[..j] == [l[0]] + l[1..][..j - 1] && l[1..][j - 1..] == l[j..];
    }
  }
}
