/** The buddy page allocator of kernel/mm/palloc.c as a value: page fields, free lists, and the
    effect of each operation.

    A `State` holds what the source keeps in `struct page` (order, PF_INVALID, use_count) and in
    the seven free lists, front to back. The component `used` has no counterpart in the source:
    it is the ledger of blocks that callers currently hold, which the source never records. */
module Buddy {
  import opened Blocks
  import opened Sequences

  const ORDER_MAX: nat := 6
  const ORDER_USED: int := -1

  datatype Block = Block(pfn: nat, order: nat)

  datatype State = State(
    order: seq<int>,
    invalid: seq<bool>,
    uses: seq<nat>,
    lists: seq<seq<nat>>,
    used: set<Block>)

  predicate Shape(s: State) {
    && |s.invalid| == |s.order| && |s.uses| == |s.order|
    && |s.lists| == ORDER_MAX + 1
    && Aligned(|s.order|, ORDER_MAX)
  }

  /** A block that starts in the page area, at a multiple of its size. */
  predicate InRange(s: State, p: nat, k: nat) {
    k <= ORDER_MAX && p < |s.order| && Aligned(p, k)
  }

  lemma BuddyInRange(s: State, p: nat, k: nat)
    requires Shape(s) && InRange(s, p, k) && k < ORDER_MAX
    ensures InRange(s, FlipBit(p, k), k) && InRange(s, ClearBit(p, k), k + 1)
    ensures ClearBit(p, k) + Size(k) < |s.order|
  {
    BuddyPair(p, k);
    var q := ClearBit(p, k);
    InArea(|s.order|, q, k + 1, ORDER_MAX);
  }

  // ---------------------------------------------------------------- blocks and pages

  predicate IsFree(s: State, p: nat, k: nat) {
    k < |s.lists| && p in s.lists[k]
  }

  predicate IsUsed(s: State, p: nat, k: nat) {
    Block(p, k) in s.used
  }

  predicate IsBlock(s: State, p: nat, k: nat) {
    IsFree(s, p, k) || IsUsed(s, p, k)
  }

  /** Page `x` lies in a block of order `k`. */
  predicate CoveredAt(s: State, x: nat, k: nat) {
    IsBlock(s, Down(x, k), k)
  }

  /** Page `x` lies in a free block of order `k`. */
  predicate FreeAt(s: State, x: nat, k: nat) {
    IsFree(s, Down(x, k), k)
  }

  predicate PageFree(s: State, x: nat) {
    exists k :: 0 <= k <= ORDER_MAX && FreeAt(s, x, k)
  }

  function FreePages(s: State): set<nat> {
    set x | 0 <= x < |s.order| && PageFree(s, x)
  }

  function PagesOf(p: nat, k: nat): set<nat> {
    set x | 0 <= x < p + Size(k) && Down(x, k) == p
  }

  // ---------------------------------------------------------------- the invariant

  /** Free and used blocks are aligned, pairwise disjoint, and cover exactly the valid pages. */
  ghost predicate Partition(s: State)
    requires Shape(s)
  {
    && (forall k :: 0 <= k <= ORDER_MAX ==> NoDup(s.lists[k]))
    && (forall p: nat, k: nat :: IsBlock(s, p, k) ==> InRange(s, p, k))
    && (forall p: nat, k: nat :: IsFree(s, p, k) ==> !IsUsed(s, p, k))
    && (forall x: nat, j: nat, k: nat :: CoveredAt(s, x, j) && CoveredAt(s, x, k) ==> j == k)
    && (forall x :: 0 <= x < |s.order| ==>
          (!s.invalid[x] <==> exists k :: 0 <= k <= ORDER_MAX && CoveredAt(s, x, k)))
  }

  /** The `order` field is right at the head of every block except the one headed by `hole`.
      It says nothing about interior pages, where the source leaves stale values. */
  ghost predicate Orders(s: State, hole: int) {
    && (forall p: nat, k: nat :: IsFree(s, p, k) ==> p < |s.order| && s.order[p] == k)
    && (forall p: nat, k: nat :: IsUsed(s, p, k) && p != hole ==> p < |s.order| && s.order[p] == ORDER_USED)
  }

  /** No two buddies below the top order are both free. */
  ghost predicate Coalesced(s: State) {
    forall p: nat, k: nat :: IsFree(s, p, k) && k < ORDER_MAX ==> !IsFree(s, FlipBit(p, k), k)
  }

  /** A page has users exactly when it heads a block that is in use. */
  ghost predicate UsesMatch(s: State)
    requires Shape(s)
  {
    forall x :: 0 <= x < |s.order| ==> (s.uses[x] > 0 <==> exists k :: 0 <= k <= ORDER_MAX && IsUsed(s, x, k))
  }

  /** The invariant of the block structure. */
  ghost predicate Core(s: State) {
    Shape(s) && Partition(s) && Orders(s, -1) && Coalesced(s)
  }

  ghost predicate Inv(s: State) {
    Core(s) && UsesMatch(s)
  }

  /** The invariant while the used block headed by `p` is being merged: its `order` field is arbitrary. */
  ghost predicate InFlight(s: State, p: nat, k: nat) {
    Shape(s) && Partition(s) && Orders(s, p) && Coalesced(s) && IsUsed(s, p, k)
  }

  // ---------------------------------------------------------------- operations

  /** The test in buddy_merge_block: the buddy's order field matches and its page is valid. */
  predicate MergeTest(s: State, p: nat, k: nat)
    requires Shape(s) && InRange(s, p, k) && k < ORDER_MAX
  {
    BuddyInRange(s, p, k);
    s.order[FlipBit(p, k)] == k && !s.invalid[FlipBit(p, k)]
  }

  /** One round of the merge loop: unlink the buddy and continue with the pair as one block. */
  function Grow(s: State, p: nat, k: nat): State
    requires Shape(s) && InRange(s, p, k) && k < ORDER_MAX && IsFree(s, FlipBit(p, k), k)
  {
    BuddyInRange(s, p, k);
    var q := ClearBit(p, k);
    s.(order := s.order[q + Size(k) := k],
       lists := s.lists[k := Without(s.lists[k], FlipBit(p, k))],
       used := s.used - {Block(p, k)} + {Block(q, k + 1)})
  }

  /** buddy_add_block: the block leaves the ledger and goes to the front of its list. */
  function Add(s: State, p: nat, k: nat): State
    requires Shape(s) && InRange(s, p, k)
  {
    s.(order := s.order[p := k],
       lists := s.lists[k := [p] + s.lists[k]],
       used := s.used - {Block(p, k)})
  }

  /** buddy_merge_block. */
  ghost function Merge(s: State, p: nat, k: nat): State
    requires InFlight(s, p, k)
    decreases ORDER_MAX - k
  {
    assert InRange(s, p, k) by { assert IsBlock(s, p, k); }
    if k < ORDER_MAX && MergeTest(s, p, k) then
      MergeTestExact(s, p, k);
      GrowKeepsInvariant(s, p, k);
      Merge(Grow(s, p, k), ClearBit(p, k), k + 1)
    else
      Add(s, p, k)
  }

  // ---------------------------------------------------------------- the merge test

  /** Whatever block covers the buddy of a block in use is headed by that buddy: a larger block
      would contain the block in use as well. */
  lemma BuddyIsHead(s: State, p: nat, k: nat, j: nat)
    requires Shape(s) && Partition(s) && IsUsed(s, p, k) && InRange(s, p, k)
    requires CoveredAt(s, FlipBit(p, k), j)
    ensures j <= k && IsBlock(s, FlipBit(p, k), j)
  {
    var b := FlipBit(p, k);
    BuddyPair(p, k);
    if j > k {
      DownDown(b, k + 1, j);
      DownDown(p, k + 1, j);
      assert CoveredAt(s, p, j) && CoveredAt(s, p, k);
      assert false;
    } else {
      DownDown(b, j, k);
    }
  }

  /** The merge test is right despite stale orders: for a block in use it holds exactly when the
      buddy heads a free block of the same order. */
  lemma MergeTestExact(s: State, p: nat, k: nat)
    requires InFlight(s, p, k) && InRange(s, p, k) && k < ORDER_MAX
    ensures MergeTest(s, p, k) <==> IsFree(s, FlipBit(p, k), k)
  {
    var b := FlipBit(p, k);
    BuddyInRange(s, p, k);
    BuddyPair(p, k);
    if IsFree(s, b, k) {
      assert CoveredAt(s, b, k);
    } else if MergeTest(s, p, k) {
      var j :| 0 <= j <= ORDER_MAX && CoveredAt(s, b, j);
      BuddyIsHead(s, p, k, j);
    }
  }

  /** The blocks after one merge round: the pair is gone, their parent is there. */
  lemma GrowBlocks(s: State, p: nat, k: nat, r: nat, j: nat)
    requires InFlight(s, p, k) && InRange(s, p, k) && k < ORDER_MAX && IsFree(s, FlipBit(p, k), k)
    ensures IsFree(Grow(s, p, k), r, j) <==> IsFree(s, r, j) && !(r == FlipBit(p, k) && j == k)
    ensures IsUsed(Grow(s, p, k), r, j) <==>
            (r == ClearBit(p, k) && j == k + 1) || (IsUsed(s, r, j) && !(r == p && j == k))
  {
    WithoutMembers(s.lists[k], FlipBit(p, k));
  }

  lemma GrowKeepsInvariant(s: State, p: nat, k: nat)
    requires InFlight(s, p, k) && InRange(s, p, k) && k < ORDER_MAX && IsFree(s, FlipBit(p, k), k)
    ensures InFlight(Grow(s, p, k), ClearBit(p, k), k + 1)
    ensures InRange(s, ClearBit(p, k), k + 1)
  {
    var t, b, q := Grow(s, p, k), FlipBit(p, k), ClearBit(p, k);
    BuddyInRange(s, p, k);
    BuddyPair(p, k);
    WithoutMembers(s.lists[k], b);
    forall r: nat, j: nat ensures
      && (IsFree(t, r, j) <==> IsFree(s, r, j) && !(r == b && j == k))
      && (IsUsed(t, r, j) <==> (r == q && j == k + 1) || (IsUsed(s, r, j) && !(r == p && j == k)))
    {
      GrowBlocks(s, p, k, r, j);
    }
    GrowPartition(s, p, k);
    GrowOrders(s, p, k);
  }

  /** A page is in the merged block exactly when it is in one of the two buddies. */
  lemma PairCover(p: nat, k: nat, x: nat)
    requires Aligned(p, k)
    ensures Down(x, k + 1) == ClearBit(p, k) <==> Down(x, k) == p || Down(x, k) == FlipBit(p, k)
  {
    BuddyPair(p, k);
    HalvesCover(ClearBit(p, k), k, x);
  }

  /** How the cover of page `x` changes in one merge round. */
  lemma GrowCover(s: State, p: nat, k: nat, x: nat, j: nat)
    requires InFlight(s, p, k) && InRange(s, p, k) && k < ORDER_MAX && IsFree(s, FlipBit(p, k), k)
    ensures var t, q := Grow(s, p, k), ClearBit(p, k);
      CoveredAt(t, x, j) <==> if Down(x, k + 1) == q then j == k + 1 else CoveredAt(s, x, j)
    ensures Down(x, k + 1) == ClearBit(p, k) ==> CoveredAt(s, x, k)
  {
    var t, b, q := Grow(s, p, k), FlipBit(p, k), ClearBit(p, k);
    PairCover(p, k, x);
    GrowBlocks(s, p, k, Down(x, j), j);
    assert IsBlock(s, p, k) && IsBlock(s, b, k);
    if Down(x, k + 1) == q {
      assert CoveredAt(s, x, k);
      assert CoveredAt(s, x, j) ==> j == k;
    }
  }

  lemma GrowPartition(s: State, p: nat, k: nat)
    requires InFlight(s, p, k) && InRange(s, p, k) && k < ORDER_MAX && IsFree(s, FlipBit(p, k), k)
    ensures Shape(Grow(s, p, k)) && Partition(Grow(s, p, k))
  {
    var t, b, q := Grow(s, p, k), FlipBit(p, k), ClearBit(p, k);
    BuddyInRange(s, p, k);
    WithoutMembers(s.lists[k], b);
    assert InRange(t, q, k + 1);
    forall r: nat, j: nat ensures
      && (IsFree(t, r, j) <==> IsFree(s, r, j) && !(r == b && j == k))
      && (IsUsed(t, r, j) <==> (r == q && j == k + 1) || (IsUsed(s, r, j) && !(r == p && j == k)))
    {
      GrowBlocks(s, p, k, r, j);
    }
    forall x: nat, j: nat ensures
      && (CoveredAt(t, x, j) <==> if Down(x, k + 1) == q then j == k + 1 else CoveredAt(s, x, j))
      && (Down(x, k + 1) == q ==> CoveredAt(s, x, k))
    {
      GrowCover(s, p, k, x, j);
    }
    forall r: nat, j: nat | IsBlock(t, r, j) ensures InRange(t, r, j) {
      assert IsBlock(s, r, j) || (r == q && j == k + 1);
    }
    assert !IsFree(s, q, k + 1) by {
      if IsFree(s, q, k + 1) {
        BuddyPair(p, k);
        assert CoveredAt(s, p, k) && CoveredAt(s, p, k + 1);
      }
    }
    forall x | 0 <= x < |t.order|
      ensures !t.invalid[x] <==> exists j :: 0 <= j <= ORDER_MAX && CoveredAt(t, x, j)
    {
      if Down(x, k + 1) == q {
        assert CoveredAt(s, x, k) && CoveredAt(t, x, k + 1);
      } else if !t.invalid[x] {
        var j :| 0 <= j <= ORDER_MAX && CoveredAt(s, x, j);
        assert CoveredAt(t, x, j);
      }
    }
  }

  lemma GrowOrders(s: State, p: nat, k: nat)
    requires InFlight(s, p, k) && InRange(s, p, k) && k < ORDER_MAX && IsFree(s, FlipBit(p, k), k)
    requires Shape(Grow(s, p, k)) && Partition(Grow(s, p, k))
    ensures Orders(Grow(s, p, k), ClearBit(p, k))
  {
    hide Coalesced, FlipBit, ClearBit, Down, Without;
    var t, b, q := Grow(s, p, k), FlipBit(p, k), ClearBit(p, k);
    var h := q + Size(k);
    BuddyInRange(s, p, k);
    BuddyPair(p, k);
    forall r: nat, j: nat ensures
      && (IsFree(t, r, j) <==> IsFree(s, r, j) && !(r == b && j == k))
      && (IsUsed(t, r, j) <==> (r == q && j == k + 1) || (IsUsed(s, r, j) && !(r == p && j == k)))
    {
      GrowBlocks(s, p, k, r, j);
    }
    // the page whose order was just rewritten is interior to the grown block, so it heads nothing
    HalvesCover(q, k, h);
    assert CoveredAt(t, h, k + 1);
    forall j: nat ensures !IsBlock(t, h, j) {
      assert IsBlock(t, h, j) ==> CoveredAt(t, h, j);
    }
    forall r: nat, j: nat | IsFree(t, r, j) ensures r < |t.order| && t.order[r] == j {
      assert IsBlock(t, r, j) && IsFree(s, r, j);
    }
    assert p == q || p == h;
    forall r: nat, j: nat | IsUsed(t, r, j) && r != q ensures r != p {
      assert IsBlock(t, r, j);
    }
  }

  /** The head of the upper half keeps its order in the field although it is now inside a larger block: the
      stale values that the merge test has to cope with. */
  lemma GrowLeavesStale(s: State, p: nat, k: nat)
    requires InFlight(s, p, k) && InRange(s, p, k) && k < ORDER_MAX && IsFree(s, FlipBit(p, k), k)
    ensures var t, h := Grow(s, p, k), ClearBit(p, k) + Size(k);
      && h < |t.order| && t.order[h] == k && !IsBlock(t, h, k)
      && (forall x :: 0 <= x < |s.order| && x != h ==> t.order[x] == s.order[x])
  {
    hide Coalesced, Orders, FlipBit, ClearBit, Down, Without;
    var t, q := Grow(s, p, k), ClearBit(p, k);
    var h: nat := q + Size(k);
    BuddyInRange(s, p, k);
    BuddyPair(p, k);
    GrowPartition(s, p, k);
    GrowBlocks(s, p, k, q, k + 1);
    HalvesCover(q, k, h);
    assert CoveredAt(t, h, k + 1);
    assert IsBlock(t, h, k) ==> CoveredAt(t, h, k);
  }

  // ---------------------------------------------------------------- adding a block, merging

  lemma AddBlocks(s: State, p: nat, k: nat, r: nat, j: nat)
    requires InFlight(s, p, k) && InRange(s, p, k)
    ensures IsFree(Add(s, p, k), r, j) <==> IsFree(s, r, j) || (r == p && j == k)
    ensures IsUsed(Add(s, p, k), r, j) <==> IsUsed(s, r, j) && !(r == p && j == k)
    ensures IsBlock(Add(s, p, k), r, j) <==> IsBlock(s, r, j)
  {
  }

  /** Listing the in-flight block as free keeps the block structure, provided its buddy is not free. */
  lemma AddKeepsCore(s: State, p: nat, k: nat)
    requires InFlight(s, p, k) && InRange(s, p, k)
    requires k < ORDER_MAX ==> !IsFree(s, FlipBit(p, k), k)
    ensures Core(Add(s, p, k))
  {
    var t := Add(s, p, k);
    forall r: nat, j: nat ensures
      && (IsFree(t, r, j) <==> IsFree(s, r, j) || (r == p && j == k))
      && (IsUsed(t, r, j) <==> IsUsed(s, r, j) && !(r == p && j == k))
      && (IsBlock(t, r, j) <==> IsBlock(s, r, j))
    {
      AddBlocks(s, p, k, r, j);
    }
    assert !IsFree(s, p, k);
    ConsMembers(p, s.lists[k]);
    forall x: nat, j: nat ensures CoveredAt(t, x, j) <==> CoveredAt(s, x, j) {
    }
    OneHead(s, p, k);
    forall r: nat, j: nat | IsFree(t, r, j) && j < ORDER_MAX ensures !IsFree(t, FlipBit(r, j), j) {
      BuddyPair(p, k);
      assert IsBlock(s, r, j);
      BuddyPair(r, j);
    }
  }

  /** A page heads at most one block. */
  lemma OneHead(s: State, p: nat, k: nat)
    requires Shape(s) && Partition(s) && IsBlock(s, p, k)
    ensures forall j: nat :: IsBlock(s, p, j) ==> j == k
  {
    forall j: nat | IsBlock(s, p, j) ensures j == k {
      assert CoveredAt(s, p, j) && CoveredAt(s, p, k);
    }
  }

  /** The whole effect of buddy_merge_block in terms of pages: exactly the block's pages become
      free, and the block structure is coalesced again. */
  lemma {:induction false} MergeEffect(s: State, p: nat, k: nat)
    requires InFlight(s, p, k)
    ensures Core(Merge(s, p, k))
    ensures Merge(s, p, k).used == s.used - {Block(p, k)}
    ensures Merge(s, p, k).uses == s.uses && Merge(s, p, k).invalid == s.invalid
    ensures |Merge(s, p, k).order| == |s.order|
    ensures forall x: nat :: PageFree(Merge(s, p, k), x) <==> PageFree(s, x) || Down(x, k) == p
    decreases ORDER_MAX - k
  {
    assert IsBlock(s, p, k) && InRange(s, p, k);
    if k < ORDER_MAX {
      MergeTestExact(s, p, k);
    }
    if k < ORDER_MAX && MergeTest(s, p, k) {
      var t, q := Grow(s, p, k), ClearBit(p, k);
      GrowKeepsInvariant(s, p, k);
      MergeEffect(t, q, k + 1);
      GrowFreePages(s, p, k);
      OneHead(s, p, k);
      assert !IsUsed(s, q, k + 1) by {
        BuddyPair(p, k);
        if IsUsed(s, q, k + 1) {
          assert CoveredAt(s, p, k) && CoveredAt(s, p, k + 1);
        }
      }
    } else {
      AddKeepsCore(s, p, k);
      AddFreePages(s, p, k);
    }
  }

  lemma GrowFreePages(s: State, p: nat, k: nat)
    requires InFlight(s, p, k) && InRange(s, p, k) && k < ORDER_MAX && IsFree(s, FlipBit(p, k), k)
    ensures forall x: nat :: PageFree(Grow(s, p, k), x) || Down(x, k + 1) == ClearBit(p, k)
                        <==> PageFree(s, x) || Down(x, k) == p
  {
    var t, b, q := Grow(s, p, k), FlipBit(p, k), ClearBit(p, k);
    BuddyPair(p, k);
    forall x: nat ensures PageFree(t, x) || Down(x, k + 1) == q <==> PageFree(s, x) || Down(x, k) == p {
      HalvesCover(q, k, x);
      forall j: nat ensures FreeAt(t, x, j) <==> FreeAt(s, x, j) && !(Down(x, j) == b && j == k) {
        GrowBlocks(s, p, k, Down(x, j), j);
      }
      if Down(x, k) == b {
        assert FreeAt(s, x, k);
      }
    }
  }

  lemma AddFreePages(s: State, p: nat, k: nat)
    requires InFlight(s, p, k) && InRange(s, p, k)
    ensures forall x: nat :: PageFree(Add(s, p, k), x) <==> PageFree(s, x) || Down(x, k) == p
  {
    var t := Add(s, p, k);
    forall x: nat ensures PageFree(t, x) <==> PageFree(s, x) || Down(x, k) == p {
      forall j: nat ensures FreeAt(t, x, j) <==> FreeAt(s, x, j) || (Down(x, j) == p && j == k) {
        AddBlocks(s, p, k, Down(x, j), j);
      }
    }
  }
}
