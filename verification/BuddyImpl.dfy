/** kernel/mm/palloc.c in the source's own form: page fields in arrays, free lists threaded through
    node memory, a merge loop and a recursive split. Each operation is proved against its effect
    on `Buddy.State`. */
module BuddyImpl {
  import opened Kernel
  import opened Blocks
  import opened Sequences
  import opened Rings
  import opened Buddy
  import opened BuddyOps
  import opened FreeLists
  import BuddyCanonical

  /** page_is_critical: the page lies in the kernel image [start, end). */
  predicate Critical(start: nat, end: nat, p: nat) {
    start <= p * PAGE_SIZE < end
  }

  /** page_is_critical looks at the first byte of a page only. It refuses exactly the pages that hold a byte of
      the kernel image if and only if the image starts on a page boundary or is empty. */
  lemma CriticalExact(start: nat, end: nat)
    ensures (forall p: nat :: Critical(start, end, p) <==> exists a: nat :: OnPage(a, p) && start <= a < end)
       <==> start % PAGE_SIZE == 0 || end <= start
  {
    if start % PAGE_SIZE == 0 || end <= start {
      forall p: nat ensures Critical(start, end, p) <==> exists a: nat :: OnPage(a, p) && start <= a < end {
        assert OnPage(p * PAGE_SIZE, p);
      }
    } else {
      var p := start / PAGE_SIZE;
      assert OnPage(start, p) && !Critical(start, end, p);
    }
  }

  /** The state in which buddy_split_block leaves the lists: the carved block of order `k + 1` has
      become two free buddies of order `k`, which is not coalesced until one of them is taken. */
  function SplitPair(s: State, p: nat, k: nat): State
    requires Shape(s) && k < ORDER_MAX && p + Size(k) < |s.order|
  {
    s.(order := s.order[p := k][p + Size(k) := k],
       lists := s.lists[k := [p + Size(k), p] + s.lists[k]],
       used := s.used - {Block(p, k + 1)})
  }

  /** buddy_remove_block on values: the block leaves its list and enters the ledger. */
  function Removed(s: State, p: nat, k: nat): State
    requires Shape(s) && k <= ORDER_MAX && p < |s.order| && p in s.lists[k]
  {
    s.(order := s.order[p := ORDER_USED],
       lists := s.lists[k := Without(s.lists[k], p)],
       used := s.used + {Block(p, k)})
  }

  /** State `x` is what page_alloc or buddy_split_block sees, starting from `s`, when it finds
      list `k` non-empty: either nothing had to be split, or a split has just left two buddies. */
  ghost predicate Ready(s: State, x: State, k: nat)
    requires Core(s) && k <= ORDER_MAX
  {
    if s.lists[k] != [] then x == s
    else
      && CanCarve(s, k + 1) && Carve(s, k + 1).pfn + Size(k) < |s.order|
      && x == SplitPair(Carve(s, k + 1).state, Carve(s, k + 1).pfn, k)
  }

  /** The block at the back of list `k` is then the carved one: of two buddies just split, the
      lower half, which was added first. Taking it restores coalescing. */
  lemma TakingLastCarves(s: State, x: State, k: nat)
    requires Core(s) && k <= ORDER_MAX && Ready(s, x, k)
    ensures CanCarve(s, k) && Shape(x) && x.lists[k] != [] && Last(x.lists[k]) < |x.order|
    ensures x.order[Last(x.lists[k])] == k
    ensures Last(x.lists[k]) == Carve(s, k).pfn
    ensures Removed(x, Last(x.lists[k]), k) == Carve(s, k).state
  {
    if s.lists[k] != [] {
      TakeKeepsCore(s, k);
      TakingIsRemoving(s, k);
    } else {
      CarveExact(s, k + 1);
      var c := Carve(s, k + 1);
      TakingFromPair(c.state, c.pfn, k);
    }
  }

  lemma TakingIsRemoving(s: State, k: nat)
    requires Shape(s) && k <= ORDER_MAX && s.lists[k] != [] && Last(s.lists[k]) < |s.order| && NoDup(s.lists[k])
    ensures Removed(s, Last(s.lists[k]), k) == Take(s, k)
  {
    var l := s.lists[k];
    IndexOfUnique(l, |l| - 1);
    assert Without(l, Last(l)) == l[..|l| - 1];
  }

  lemma TakingFromPair(c: State, p: nat, k: nat)
    requires Shape(c) && k < ORDER_MAX && p + Size(k) < |c.order| && c.lists[k] == []
    ensures var x := SplitPair(c, p, k);
      x.lists[k] == [p + Size(k), p] && x.order[p] == k && Removed(x, p, k) == Halve(c, p, k)
  {
    var x, h := SplitPair(c, p, k), p + Size(k);
    assert Without([h, p], p) == [h];
    assert [h] == [h] + c.lists[k];
    assert x.order[p := ORDER_USED] == c.order[h := k][p := ORDER_USED];
  }

  lemma InitOther(l: Links, node: nat)
    requires node != NULL
    ensures Ring(InitLinks(l, node), [node])
    ensures forall x: nat :: Ring(l, [x]) ==> Ring(InitLinks(l, node), [x])
  {
    InitRing(l, node);
    forall x: nat | Ring(l, [x]) && x != node ensures Ring(InitLinks(l, node), [x]) {
      OtherRing(l, InitLinks(l, node), [node], [x]);
    }
  }

  lemma EmptyLinked(l: Links, n: nat)
    requires forall k :: 0 <= k <= ORDER_MAX ==> Ring(l, [HeadNode(n, k)])
    ensures Linked(l, seq(ORDER_MAX + 1, _ => 0), seq(ORDER_MAX + 1, _ => []), n)
  {
    forall k | 0 <= k <= ORDER_MAX ensures RingOf(n, k, []) == [HeadNode(n, k)] {
    }
  }

  lemma CarveStep(s: State, k: nat)
    requires Shape(s) && k <= ORDER_MAX
    ensures CanCarve(s, k) <==> s.lists[k] != [] || CanCarve(s, k + 1)
  {
  }

  lemma ReadyListed(s: State, x: State, k: nat)
    requires Core(s) && k <= ORDER_MAX && Ready(s, x, k)
    ensures |x.lists| == ORDER_MAX + 1 && x.lists[k] != []
  {
  }

  /** page_free step by step. */
  lemma FreeUnfolds(s: State, p: nat, k: nat)
    requires Inv(s) && IsUsed(s, p, k)
    ensures p < |s.order| && s.uses[p] >= 1 && Inv(Free(s, p, k))
    ensures s.uses[p] > 1 ==> Free(s, p, k) == s.(uses := s.uses[p := s.uses[p] - 1])
    ensures s.uses[p] == 1 ==>
      var m := s.(order := s.order[p := k]);
      InFlight(m, p, k) && Merge(m, p, k).uses == s.uses
      && Free(s, p, k) == Merge(m, p, k).(uses := s.uses[p := 0])
  {
    FreeEffect(s, p, k);
    if s.uses[p] == 1 {
      StaleOrder(s, p, k, k);
      MergeEffect(s.(order := s.order[p := k]), p, k);
    }
  }

  /** What the merge loop decides at order `k`. */
  lemma MergeRound(s: State, p: nat, k: nat)
    requires InFlight(s, p, k) && InRange(s, p, k) && k < ORDER_MAX
    ensures FlipBit(p, k) < |s.order|
    ensures if s.order[FlipBit(p, k)] == k && !s.invalid[FlipBit(p, k)]
            then && IsFree(s, FlipBit(p, k), k)
                 && InFlight(Grow(s, p, k), ClearBit(p, k), k + 1) && InRange(s, ClearBit(p, k), k + 1)
                 && Merge(s, p, k) == Merge(Grow(s, p, k), ClearBit(p, k), k + 1)
            else Merge(s, p, k) == Add(s, p, k)
  {
    MergeTestExact(s, p, k);
    BuddyInRange(s, p, k);
    if IsFree(s, FlipBit(p, k), k) {
      GrowKeepsInvariant(s, p, k);
    }
  }

  lemma MergeTop(s: State, p: nat)
    requires InFlight(s, p, ORDER_MAX)
    ensures InRange(s, p, ORDER_MAX) && Merge(s, p, ORDER_MAX) == Add(s, p, ORDER_MAX)
  {
    assert IsBlock(s, p, ORDER_MAX);
  }

  lemma InFlightUnlisted(s: State, p: nat, k: nat)
    requires InFlight(s, p, k)
    ensures InRange(s, p, k)
    ensures forall j :: 0 <= j <= ORDER_MAX ==> p !in s.lists[j]
  {
    assert IsBlock(s, p, k);
    OneHead(s, p, k);
    forall j | 0 <= j <= ORDER_MAX ensures p !in s.lists[j] {
      assert IsFree(s, p, j) ==> IsBlock(s, p, j);
    }
  }

  lemma SplitPairAdds(c: State, p: nat, k: nat)
    requires Shape(c) && k < ORDER_MAX && InRange(c, p, k) && InRange(c, p + Size(k), k)
    requires !IsUsed(c, p, k) && !IsUsed(c, p + Size(k), k)
    ensures Add(Add(c.(used := c.used - {Block(p, k + 1)}), p, k), p + Size(k), k) == SplitPair(c, p, k)
  {
    var h := p + Size(k);
    assert [h] + ([p] + c.lists[k]) == [h, p] + c.lists[k];
    assert c.used - {Block(p, k + 1)} - {Block(p, k)} - {Block(h, k)} == c.used - {Block(p, k + 1)};
  }

  ghost predicate HalvesFree(s: State, p: nat, k: nat) {
    && Shape(s) && k < ORDER_MAX && InRange(s, p, k) && InRange(s, p + Size(k), k)
    && FlipBit(p, k) == p + Size(k)
    && (forall j :: 0 <= j <= ORDER_MAX ==> p !in s.lists[j] && p + Size(k) !in s.lists[j])
    && !IsUsed(s, p, k) && !IsUsed(s, p + Size(k), k)
  }

  /** No block starts inside another. */
  lemma NoInnerHead(s: State, p: nat, k: nat, x: nat, j: nat)
    requires Shape(s) && Partition(s) && IsBlock(s, p, k) && Down(x, k) == p && x != p
    ensures !IsBlock(s, x, j)
  {
    if IsBlock(s, x, j) {
      assert CoveredAt(s, x, k) && CoveredAt(s, x, j);
    }
  }

  /** Neither half of a block is listed or in use by itself. */
  lemma HalvesNoBlocks(s: State, p: nat, k: nat, j: nat)
    requires Shape(s) && Partition(s) && IsUsed(s, p, k + 1) && Down(p + Size(k), k + 1) == p
    ensures !IsFree(s, p, j) && !IsBlock(s, p + Size(k), j) && !IsUsed(s, p, k)
  {
    assert IsBlock(s, p, k + 1);
    OneHead(s, p, k + 1);
    assert IsFree(s, p, j) || IsUsed(s, p, j) ==> IsBlock(s, p, j);
    assert !IsBlock(s, p, k);
    NoInnerHead(s, p, k + 1, p + Size(k), j);
  }

  lemma UsedInRange(s: State, p: nat, k: nat)
    requires Shape(s) && Partition(s) && IsUsed(s, p, k)
    ensures InRange(s, p, k)
  {
    assert IsBlock(s, p, k);
  }

  /** The halves of a block in use satisfy all that listing them asks for. */
  lemma HalvesUnlisted(s: State, p: nat, k: nat)
    requires Core(s) && IsUsed(s, p, k + 1) && k < ORDER_MAX
    ensures HalvesFree(s, p, k)
  {
    hide Partition, Coalesced, Orders, Size, FlipBit, Aligned, Down;
    var h := p + Size(k);
    UsedInRange(s, p, k + 1);
    CarvedFits(s, p, k);
    Halves(p, k);
    HalvesCover(p, k, h);
    forall j: nat ensures !IsFree(s, p, j) && !IsBlock(s, h, j) && !IsUsed(s, p, k) {
      HalvesNoBlocks(s, p, k, j);
    }
    assert !IsBlock(s, h, k);
    forall j | 0 <= j <= ORDER_MAX ensures p !in s.lists[j] && h !in s.lists[j] {
      assert !IsFree(s, p, j) && !IsBlock(s, h, j);
    }
  }

  /** The loops of buddy_init that make every list head and every page's node a ring by itself. */
  method InitRings(nodes: NodeMemory, pageCount: nat)
    modifies nodes
    ensures forall j :: 0 <= j <= ORDER_MAX ==> Ring(nodes.View(), [HeadNode(pageCount, j)])
  {
    for k := 0 to ORDER_MAX + 1
      invariant forall j :: 0 <= j < k ==> Ring(nodes.View(), [HeadNode(pageCount, j)])
      modifies nodes
    {
      InitOther(nodes.View(), HeadNode(pageCount, k));
      nodes.ClistInit(HeadNode(pageCount, k));
    }
    for p := 0 to pageCount
      invariant forall j :: 0 <= j <= ORDER_MAX ==> Ring(nodes.View(), [HeadNode(pageCount, j)])
      modifies nodes
    {
      InitOther(nodes.View(), PageNode(p));
      nodes.ClistInit(PageNode(p));
    }
  }

  class BuddyAllocator {
    const order: array<int>
    const invalid: array<bool>
    const uses: array<nat>
    const freeCount: array<nat>
    const nodes: NodeMemory
    const kernelStart: nat
    const kernelEnd: nat
    ghost var lists: seq<seq<nat>>
    ghost var used: set<Block>

    ghost function View(): State
      reads this, order, invalid, uses
    {
      State(order[..], invalid[..], uses[..], lists, used)
    }

    /** The arrays are distinct and the rings hold the lists. */
    ghost predicate Wired()
      reads this, order, invalid, uses, freeCount, nodes
    {
      && invalid.Length == uses.Length == order.Length
      && freeCount.Length == ORDER_MAX + 1
      && uses != freeCount
      && Aligned(order.Length, ORDER_MAX)
      && Linked(nodes.View(), freeCount[..], lists, order.Length)
    }

    ghost predicate Valid()
      reads this, order, invalid, uses, freeCount, nodes
    {
      Wired() && Inv(View())
    }

    /** buddy_init. */
    constructor (pageCount: nat, kernelStart: nat, kernelEnd: nat)
      requires Aligned(pageCount, ORDER_MAX)
      ensures Valid() && View() == BuddyCanonical.Initial(pageCount)
      ensures this.kernelStart == kernelStart && this.kernelEnd == kernelEnd
      ensures fresh(order) && fresh(invalid) && fresh(uses) && fresh(freeCount) && fresh(nodes)
    {
      this.kernelStart, this.kernelEnd := kernelStart, kernelEnd;
      order := new int[pageCount](_ => 0);
      invalid := new bool[pageCount](_ => true);
      uses := new nat[pageCount](_ => 0);
      freeCount := new nat[ORDER_MAX + 1](_ => 0);
      nodes := new NodeMemory();
      lists := seq(ORDER_MAX + 1, _ => []);
      used := {};
      new;
      hide Partition, Orders, Coalesced, UsesMatch, Linked;
      InitRings(nodes, pageCount);
      BuddyCanonical.InitialInv(pageCount);
      assert View() == BuddyCanonical.Initial(pageCount);
      assert freeCount[..] == seq(ORDER_MAX + 1, _ => 0);
      EmptyLinked(nodes.View(), pageCount);
    }

    /** page_get_last. */
    method PageGetLast(k: nat) returns (p: nat)
      requires Wired() && k <= ORDER_MAX && lists[k] != []
      ensures p == Last(lists[k])
    {
      LastNode(nodes.View(), freeCount[..], lists, order.Length, k);
      p := nodes.prev[HeadNode(order.Length, k)] - 1;
    }

    /** Unlink a free block from its ring and decrement the free count. */
    method UnlinkBlock(p: nat, k: nat)
      requires Wired() && k <= ORDER_MAX && p in lists[k]
      modifies this`lists, freeCount, nodes
      ensures Wired() && lists == old(lists)[k := Without(old(lists)[k], p)]
    {
      Unlink(nodes.View(), freeCount[..], lists, order.Length, p, k);
      nodes.ClistDeleteNode(PageNode(p));
      freeCount[k] := freeCount[k] - 1;
      assert freeCount[..] == old(freeCount[..])[k := old(freeCount[k]) - 1];
      lists := lists[k := Without(lists[k], p)];
    }

    /** buddy_remove_block; the block is entered in the ledger. */
    method RemoveBlock(p: nat, ghost k: nat)
      requires Wired() && k <= ORDER_MAX && p in lists[k] && p < order.Length && order[p] == k
      modifies this, order, freeCount, nodes
      ensures Wired()
      ensures View() == Removed(old(View()), p, k)
    {
      var listed := order[p];
      UnlinkBlock(p, listed);
      order[p] := ORDER_USED;
      used := used + {Block(p, k)};
    }

    /** buddy_add_block; the block leaves the ledger. */
    method AddBlock(p: nat, k: nat)
      requires Wired() && InRange(View(), p, k)
      requires forall j :: 0 <= j <= ORDER_MAX ==> p !in lists[j]
      modifies this, order, freeCount, nodes
      ensures Wired() && View() == Add(old(View()), p, k)
    {
      order[p] := k;
      LinkFront(nodes.View(), freeCount[..], lists, order.Length, p, k);
      nodes.ClistAdd(HeadNode(order.Length, k), PageNode(p));
      freeCount[k] := freeCount[k] + 1;
      assert freeCount[..] == old(freeCount[..])[k := old(freeCount[k]) + 1];
      lists := lists[k := [p] + lists[k]];
      used := used - {Block(p, k)};
    }

    /** Take the block at the back of list `k`; see TakingLastCarves. */
    method TakeCarved(k: nat, ghost s: State) returns (p: nat)
      requires Wired() && Core(s) && k <= ORDER_MAX && Ready(s, View(), k)
      modifies this, order, freeCount, nodes
      ensures Wired() && CanCarve(s, k) && p == Carve(s, k).pfn && View() == Carve(s, k).state
    {
      TakingLastCarves(s, View(), k);
      p := PageGetLast(k);
      RemoveBlock(p, k);
    }

    /** List both halves of a block in use, the lower half first. */
    method AddHalves(p: nat, k: nat)
      requires Wired() && HalvesFree(View(), p, k)
      modifies this, order, freeCount, nodes
      ensures Wired() && View() == SplitPair(old(View()), p, k)
    {
      ghost var c := View();
      used := used - {Block(p, k + 1)};
      var buddy := FlipBit(p, k);
      AddBlock(p, k);
      assert buddy !in lists[k];
      AddBlock(buddy, k);
      SplitPairAdds(c, p, k);
    }

    /** buddy_split_block: when a block of order at least `k` exists, two free buddies of order
        `k - 1` are left at the front of their list; otherwise nothing changes. */
    method SplitBlock(k: nat) returns (rv: int)
      requires Wired() && Core(View()) && 1 <= k <= ORDER_MAX + 1 && lists[k - 1] == []
      modifies this, order, freeCount, nodes
      ensures Wired()
      ensures rv == E_SUCCESS <==> CanCarve(old(View()), k)
      ensures CanCarve(old(View()), k) ==> Ready(old(View()), View(), k - 1)
      ensures !CanCarve(old(View()), k) ==> View() == old(View())
      decreases ORDER_MAX + 1 - k
    {
      hide Core, Carve, Size, FlipBit;
      if k > ORDER_MAX { return E_ERROR; }
      ghost var s := View();
      CarveStep(s, k);
      if freeCount[k] == 0 {
        var _ := SplitBlock(k + 1);
        if CanCarve(s, k + 1) { ReadyListed(s, View(), k); }
        if freeCount[k] == 0 { return E_ERROR; }
      }
      var target := TakeCarved(k, s);
      HalvesUnlisted(View(), target, k - 1);
      AddHalves(target, k - 1);
      return E_SUCCESS;
    }

    /** page_alloc. */
    method PageAlloc(k: nat) returns (page: Option<nat>)
      requires Valid()
      modifies this, order, uses, freeCount, nodes
      ensures Valid() && (page, View()) == Alloc(old(View()), k)
    {
      hide Carve, Core, UsesMatch;
      ghost var s := View();
      AllocEffect(s, k);
      if k > ORDER_MAX { return None; }
      CarveStep(s, k);
      if freeCount[k] == 0 {
        var _ := SplitBlock(k + 1);
        if CanCarve(s, k + 1) { ReadyListed(s, View(), k); }
        if freeCount[k] == 0 { return None; }
      }
      CarveEffect(s, k);
      var last := TakeCarved(k, s);
      uses[last] := uses[last] + 1;
      assert uses[..] == s.uses[last := s.uses[last] + 1];
      return Some(last);
    }

    /** One round of the merge loop. */
    method MergeBuddy(p: nat, k: nat) returns (q: nat)
      requires Wired() && InFlight(View(), p, k) && InRange(View(), p, k)
      requires k < ORDER_MAX && IsFree(View(), FlipBit(p, k), k)
      modifies this, order, freeCount, nodes
      ensures Wired() && q == ClearBit(p, k) && View() == Grow(old(View()), p, k)
    {
      BuddyInRange(View(), p, k);
      BuddyPair(p, k);
      UnlinkBlock(FlipBit(p, k), k);
      q := ClearBit(p, k);
      Halves(q, k);
      var upper := FlipBit(q, k);
      order[upper] := k;
      used := used - {Block(p, k)} + {Block(q, k + 1)};
    }

    /** buddy_merge_block. */
    method MergeBlock(page: nat, k0: nat)
      requires Wired() && InFlight(View(), page, k0)
      modifies this, order, freeCount, nodes
      ensures Wired() && View() == Merge(old(View()), page, k0)
    {
      hide InFlight, Merge, Add, FlipBit;
      var p, k := page, k0;
      ghost var s := View();
      ghost var result := Merge(s, p, k);
      InFlightUnlisted(s, p, k);
      while k < ORDER_MAX
        invariant Wired() && s == View() && InFlight(s, p, k) && InRange(s, p, k)
        invariant Merge(s, p, k) == result
      {
        MergeRound(s, p, k);
        var buddy := FlipBit(p, k);
        if order[buddy] != k { break; }
        if invalid[buddy] { break; }
        p := MergeBuddy(p, k);
        k := k + 1;
        s := View();
      }
      if k == ORDER_MAX { MergeTop(s, p); }
      assert result == Add(s, p, k);
      InFlightUnlisted(s, p, k);
      AddBlock(p, k);
    }

    /** page_free: NULL and kernel pages are refused, a shared block loses one user, and any other
        block goes back to the free lists. */
    method PageFree(page: Option<nat>, k: nat) returns (rv: int)
      requires Valid()
      requires page.Some? && !Critical(kernelStart, kernelEnd, page.value) ==> IsUsed(View(), page.value, k)
      modifies this, order, uses, freeCount, nodes
      ensures Valid()
      ensures if page.None? || Critical(kernelStart, kernelEnd, page.value)
              then rv == E_ERROR && View() == old(View())
              else rv == E_SUCCESS && View() == Free(old(View()), page.value, k)
    {
      hide Inv, Merge, InFlight;
      if page.None? { return E_ERROR; }
      var p := page.value;
      if Critical(kernelStart, kernelEnd, p) { return E_ERROR; }
      ghost var s := View();
      FreeUnfolds(s, p, k);
      if uses[p] > 1 {
        uses[p] := uses[p] - 1;
        return E_SUCCESS;
      }
      order[p] := k;
      MergeBlock(p, k);
      uses[p] := uses[p] - 1;
      return E_SUCCESS;
    }

    /** PAGE_INC_USES on a block in use. */
    method IncUses(p: nat, ghost k: nat)
      requires Valid() && IsUsed(View(), p, k)
      modifies uses
      ensures Valid() && View() == BuddyCanonical.AddUser(old(View()), p, k)
    {
      ghost var s := View();
      BuddyCanonical.AddUserEffect(s, p, k);
      uses[p] := uses[p] + 1;
      assert uses[..] == s.uses[p := s.uses[p] + 1];
    }

    /** bootmem_mark_free on one page: clear PF_INVALID, then page_initial_free. */
    method MarkFree(p: nat)
      requires Valid() && p < order.Length && invalid[p]
      modifies this, order, invalid, freeCount, nodes
      ensures Valid() && View() == InitialFree(old(View()), p)
    {
      ghost var s := View();
      Validate(s, p);
      InitialFreeEffect(s, p);
      invalid[p] := false;
      used := used + {Block(p, 0)};
      assert View() == s.(invalid := s.invalid[p := false], used := s.used + {Block(p, 0)});
      MergeBlock(p, 0);
    }
  }
}
