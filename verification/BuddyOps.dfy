/** page_alloc, page_free and page_initial_free of kernel/mm/palloc.c on `Buddy.State` values. */
module BuddyOps {
  import opened Kernel
  import opened Blocks
  import opened Sequences
  import opened Buddy

  // ---------------------------------------------------------------- taking a block from its list

  function Last(l: seq<nat>): nat
    requires l != []
  {
    l[|l| - 1]
  }

  /** page_get_last and buddy_remove_block: the block at the back of list `k` goes into use. */
  function Take(s: State, k: nat): State
    requires Shape(s) && k <= ORDER_MAX && s.lists[k] != [] && Last(s.lists[k]) < |s.order|
  {
    var p := Last(s.lists[k]);
    s.(order := s.order[p := ORDER_USED],
       lists := s.lists[k := s.lists[k][..|s.lists[k]| - 1]],
       used := s.used + {Block(p, k)})
  }

  lemma TakeBlocks(s: State, k: nat, r: nat, j: nat)
    requires Core(s) && k <= ORDER_MAX && s.lists[k] != [] && Last(s.lists[k]) < |s.order|
    ensures var p := Last(s.lists[k]);
      && (IsFree(Take(s, k), r, j) <==> IsFree(s, r, j) && !(r == p && j == k))
      && (IsUsed(Take(s, k), r, j) <==> IsUsed(s, r, j) || (r == p && j == k))
      && (IsBlock(Take(s, k), r, j) <==> IsBlock(s, r, j))
  {
    var l := s.lists[k];
    var p := Last(l);
    assert l == l[..|l| - 1] + [p];
    assert NoDup(l);
    assert IsFree(s, p, k);
  }

  lemma TakeKeepsCore(s: State, k: nat)
    requires Core(s) && k <= ORDER_MAX && s.lists[k] != []
    ensures var p := Last(s.lists[k]);
      && IsFree(s, p, k) && InRange(s, p, k)
      && Core(Take(s, k)) && IsUsed(Take(s, k), p, k)
  {
    var p := Last(s.lists[k]);
    assert IsFree(s, p, k) && IsBlock(s, p, k);
    var t := Take(s, k);
    forall r: nat, j: nat ensures
      && (IsFree(t, r, j) <==> IsFree(s, r, j) && !(r == p && j == k))
      && (IsUsed(t, r, j) <==> IsUsed(s, r, j) || (r == p && j == k))
      && (IsBlock(t, r, j) <==> IsBlock(s, r, j))
    {
      TakeBlocks(s, k, r, j);
    }
    forall x: nat, j: nat ensures CoveredAt(t, x, j) <==> CoveredAt(s, x, j) {
    }
    OneHead(s, p, k);
  }

  // ---------------------------------------------------------------- halving a block in use

  /** The upper half of a used block of order `k + 1` goes to the front of list `k`; the lower
      half stays in use. */
  function Halve(s: State, p: nat, k: nat): State
    requires Shape(s) && k < ORDER_MAX && p + Size(k) < |s.order|
  {
    s.(order := s.order[p + Size(k) := k][p := ORDER_USED],
       lists := s.lists[k := [p + Size(k)] + s.lists[k]],
       used := s.used - {Block(p, k + 1)} + {Block(p, k)})
  }

  ghost predicate Splittable(s: State, p: nat, k: nat) {
    Core(s) && k < ORDER_MAX && IsUsed(s, p, k + 1) && InRange(s, p, k + 1) && p + Size(k) < |s.order|
  }

  lemma HalveBlocks(s: State, p: nat, k: nat, r: nat, j: nat)
    requires Splittable(s, p, k)
    ensures var t, h := Halve(s, p, k), p + Size(k);
      && (IsFree(t, r, j) <==> IsFree(s, r, j) || (r == h && j == k))
      && (IsUsed(t, r, j) <==> (r == p && j == k) || (IsUsed(s, r, j) && !(r == p && j == k + 1)))
  {
  }

  lemma HalveCover(s: State, p: nat, k: nat, x: nat, j: nat)
    requires Splittable(s, p, k)
    ensures CoveredAt(Halve(s, p, k), x, j) <==>
            if Down(x, k + 1) == p then j == k else CoveredAt(s, x, j)
    ensures Down(x, k + 1) == p ==> CoveredAt(s, x, k + 1)
  {
    var t := Halve(s, p, k);
    HalvesCover(p, k, x);
    HalveBlocks(s, p, k, Down(x, j), j);
    if Down(x, k + 1) == p {
      assert IsBlock(s, p, k + 1);
      assert CoveredAt(s, x, k + 1);
      if j != k && CoveredAt(t, x, j) {
        assert CoveredAt(s, x, j);
      }
    }
  }

  lemma HalveKeepsCore(s: State, p: nat, k: nat)
    requires Splittable(s, p, k)
    ensures Core(Halve(s, p, k)) && IsUsed(Halve(s, p, k), p, k) && InRange(s, p, k)
  {
    hide Down, FlipBit, Size;
    var t, h := Halve(s, p, k), p + Size(k);
    Halves(p, k);
    forall r: nat, j: nat ensures
      && (IsFree(t, r, j) <==> IsFree(s, r, j) || (r == h && j == k))
      && (IsUsed(t, r, j) <==> (r == p && j == k) || (IsUsed(s, r, j) && !(r == p && j == k + 1)))
    {
      HalveBlocks(s, p, k, r, j);
    }
    HalvePartition(s, p, k);
    OneHead(t, p, k);
    OneHead(t, h, k);
    forall r: nat, j: nat | IsFree(t, r, j) ensures r < |t.order| && t.order[r] == j {
      assert IsBlock(t, r, j);
    }
    forall r: nat, j: nat | IsUsed(t, r, j) ensures r < |t.order| && t.order[r] == ORDER_USED {
      assert IsBlock(t, r, j);
    }
    forall r: nat, j: nat | IsFree(t, r, j) && j < ORDER_MAX ensures !IsFree(t, FlipBit(r, j), j) {
      assert IsBlock(t, r, j);
      BuddyPair(r, j);
    }
  }

  lemma HalfNotBlock(s: State, p: nat, k: nat, r: nat)
    requires Splittable(s, p, k) && (r == p || r == p + Size(k))
    ensures !IsFree(s, r, k) && !IsUsed(s, r, k)
  {
    Halves(p, k);
    HalvesCover(p, k, r);
    if IsBlock(s, r, k) {
      assert IsBlock(s, p, k + 1);
      assert CoveredAt(s, r, k) && CoveredAt(s, r, k + 1);
    }
  }

  lemma HalvePartition(s: State, p: nat, k: nat)
    requires Splittable(s, p, k)
    ensures Shape(Halve(s, p, k)) && Partition(Halve(s, p, k))
  {
    hide Down, Coalesced, Orders;
    var t, h := Halve(s, p, k), p + Size(k);
    Halves(p, k);
    forall r: nat, j: nat ensures
      && (IsFree(t, r, j) <==> IsFree(s, r, j) || (r == h && j == k))
      && (IsUsed(t, r, j) <==> (r == p && j == k) || (IsUsed(s, r, j) && !(r == p && j == k + 1)))
    {
      HalveBlocks(s, p, k, r, j);
    }
    forall x: nat, j: nat ensures
      && (CoveredAt(t, x, j) <==> if Down(x, k + 1) == p then j == k else CoveredAt(s, x, j))
      && (Down(x, k + 1) == p ==> CoveredAt(s, x, k + 1))
    {
      HalveCover(s, p, k, x, j);
    }
    forall r: nat, j: nat | IsBlock(t, r, j) ensures InRange(t, r, j) {
      assert IsBlock(s, r, j) || (j == k && (r == p || r == h));
    }
    HalfNotBlock(s, p, k, p);
    HalfNotBlock(s, p, k, h);
    ConsMembers(h, s.lists[k]);
    forall x | 0 <= x < |t.order|
      ensures !t.invalid[x] <==> exists j :: 0 <= j <= ORDER_MAX && CoveredAt(t, x, j)
    {
      if Down(x, k + 1) == p {
        assert CoveredAt(s, x, k + 1) && CoveredAt(t, x, k);
      } else if !t.invalid[x] {
        var j :| 0 <= j <= ORDER_MAX && CoveredAt(s, x, j);
        assert CoveredAt(t, x, j);
      }
    }
  }

  // ---------------------------------------------------------------- page_alloc

  /** Some free block is large enough. */
  predicate CanCarve(s: State, k: nat) {
    exists j :: k <= j < |s.lists| && s.lists[j] != []
  }

  datatype Carved = Carved(pfn: nat, state: State)

  /** What page_alloc and the recursive buddy_split_block do to the block structure. */
  ghost function Carve(s: State, k: nat): (c: Carved)
    requires Core(s) && CanCarve(s, k)
    ensures Core(c.state) && IsUsed(c.state, c.pfn, k) && InRange(s, c.pfn, k)
    ensures |c.state.order| == |s.order|
    decreases ORDER_MAX - k
  {
    if s.lists[k] != [] then
      TakeKeepsCore(s, k);
      Carved(Last(s.lists[k]), Take(s, k))
    else
      var c := Carve(s, k + 1);
      CarvedFits(s, c.pfn, k);
      HalveKeepsCore(c.state, c.pfn, k);
      Carved(c.pfn, Halve(c.state, c.pfn, k))
  }

  lemma CarvedFits(s: State, p: nat, k: nat)
    requires Shape(s) && InRange(s, p, k + 1)
    ensures p + Size(k) < |s.order|
  {
    InArea(|s.order|, p, k + 1, ORDER_MAX);
  }

  /** Which blocks and pages carving affects: the ledger gains one block whose pages were all
      free, and exactly those pages stop being free. */
  lemma {:induction false} CarveEffect(s: State, k: nat)
    requires Core(s) && CanCarve(s, k)
    ensures var c := Carve(s, k);
      && c.state.used == s.used + {Block(c.pfn, k)}
      && (forall j: nat :: !IsUsed(s, c.pfn, j))
      && c.state.uses == s.uses && c.state.invalid == s.invalid
    ensures forall x: nat :: PageFree(Carve(s, k).state, x) <==> PageFree(s, x) && Down(x, k) != Carve(s, k).pfn
    ensures forall x: nat :: Down(x, k) == Carve(s, k).pfn ==> PageFree(s, x)
    decreases ORDER_MAX - k
  {
    if s.lists[k] != [] {
      TakeKeepsCore(s, k);
      TakeEffect(s, k);
    } else {
      CarveEffect(s, k + 1);
      var c := Carve(s, k + 1);
      CarvedFits(s, c.pfn, k);
      var t := Halve(c.state, c.pfn, k);
      assert !IsUsed(s, c.pfn, k + 1);
      HalveFreePages(c.state, c.pfn, k);
      forall x: nat ensures PageFree(t, x) <==> PageFree(s, x) && Down(x, k) != c.pfn
      {
        HalvesCover(c.pfn, k, x);
      }
      forall x: nat | Down(x, k) == c.pfn ensures PageFree(s, x) {
        HalvesCover(c.pfn, k, x);
      }
    }
  }

  lemma TakeEffect(s: State, k: nat)
    requires Core(s) && k <= ORDER_MAX && s.lists[k] != [] && Last(s.lists[k]) < |s.order|
    ensures var p := Last(s.lists[k]);
      && (forall j: nat :: !IsUsed(s, p, j))
      && (forall x: nat :: PageFree(Take(s, k), x) <==> PageFree(s, x) && Down(x, k) != p)
      && (forall x: nat :: Down(x, k) == p ==> PageFree(s, x))
  {
    var p, t := Last(s.lists[k]), Take(s, k);
    TakeKeepsCore(s, k);
    assert IsBlock(s, p, k);
    OneHead(s, p, k);
    forall j: nat | IsUsed(s, p, j) ensures false {
      assert IsBlock(s, p, j);
    }
    forall x: nat ensures PageFree(t, x) <==> PageFree(s, x) && Down(x, k) != p {
      forall j: nat ensures FreeAt(t, x, j) <==> FreeAt(s, x, j) && !(Down(x, j) == p && j == k) {
        TakeBlocks(s, k, Down(x, j), j);
      }
      if Down(x, k) == p {
        assert CoveredAt(s, x, k);
        forall j: nat | FreeAt(s, x, j) ensures j == k {
          assert CoveredAt(s, x, j);
        }
      }
    }
    forall x: nat | Down(x, k) == p ensures PageFree(s, x) {
      assert FreeAt(s, x, k);
    }
  }

  lemma HalveFreePages(s: State, p: nat, k: nat)
    requires Splittable(s, p, k)
    ensures forall x: nat :: PageFree(Halve(s, p, k), x) <==> PageFree(s, x) || Down(x, k) == p + Size(k)
  {
    var t, h := Halve(s, p, k), p + Size(k);
    forall x: nat ensures PageFree(t, x) <==> PageFree(s, x) || Down(x, k) == h {
      forall j: nat ensures FreeAt(t, x, j) <==> FreeAt(s, x, j) || (Down(x, j) == h && j == k) {
        HalveBlocks(s, p, k, Down(x, j), j);
      }
    }
  }

  /** The least order at or above `k` with a free block. */
  function LeastOrder(s: State, k: nat): (j: nat)
    requires CanCarve(s, k)
    ensures k <= j < |s.lists| && s.lists[j] != []
    ensures forall i :: k <= i < j ==> s.lists[i] == []
    decreases |s.lists| - k
  {
    if s.lists[k] != [] then k else LeastOrder(s, k + 1)
  }

  /** The block at the back of list `j` is consumed; each list from `k` up to below `j` receives
      exactly one block, the upper half left over by one split; every other list is untouched. */
  predicate SplitLists(l: seq<seq<nat>>, m: seq<seq<nat>>, p: nat, k: nat, j: nat) {
    && |m| == |l| && j < |l| && l[j] != []
    && p == l[j][|l[j]| - 1] && m[j] == l[j][..|l[j]| - 1]
    && (forall i :: k <= i < j ==> m[i] == [p + Size(i)])
    && (forall i :: 0 <= i < |l| && !(k <= i <= j) ==> m[i] == l[i])
  }

  /** The exact effect of page_alloc on the free lists, with `j` the least order that has a block. */
  lemma {:induction false} CarveExact(s: State, k: nat)
    requires Core(s) && CanCarve(s, k)
    ensures SplitLists(s.lists, Carve(s, k).state.lists, Carve(s, k).pfn, k, LeastOrder(s, k))
    decreases ORDER_MAX - k
  {
    if s.lists[k] != [] {
      CarveTakes(s, k);
    } else {
      CarveExact(s, k + 1);
      CarveSplits(s, k);
      SplitOnce(s.lists, Carve(s, k + 1).state.lists, Carve(s, k + 1).pfn, k, LeastOrder(s, k + 1));
    }
  }

  lemma CarveTakes(s: State, k: nat)
    requires Core(s) && k <= ORDER_MAX && s.lists[k] != []
    ensures CanCarve(s, k) && SplitLists(s.lists, Carve(s, k).state.lists, Carve(s, k).pfn, k, k)
  {
  }

  lemma CarveSplits(s: State, k: nat)
    requires Core(s) && CanCarve(s, k) && s.lists[k] == []
    ensures var c, d := Carve(s, k), Carve(s, k + 1);
      && c.pfn == d.pfn && |d.state.lists| == |s.lists|
      && c.state.lists == d.state.lists[k := [c.pfn + Size(k)] + d.state.lists[k]]
  {
  }

  lemma SplitOnce(l: seq<seq<nat>>, m: seq<seq<nat>>, p: nat, k: nat, j: nat)
    requires SplitLists(l, m, p, k + 1, j) && k < j && l[k] == []
    ensures SplitLists(l, m[k := [p + Size(k)] + m[k]], p, k, j)
  {
  }

  // ---------------------------------------------------------------- the three operations

  /** PAGE_INC_USES and PAGE_DEC_USES. */
  function CountUse(uses: seq<nat>, p: nat, d: int): seq<nat>
    requires p < |uses| && uses[p] + d >= 0
  {
    uses[p := uses[p] + d]
  }

  /** page_alloc: the allocated frame, or None, and the state after. */
  ghost function Alloc(s: State, k: nat): (Option<nat>, State)
    requires Inv(s)
  {
    if k > ORDER_MAX || !CanCarve(s, k) then (None, s)
    else
      var c := Carve(s, k);
      (Some(c.pfn), c.state.(uses := CountUse(c.state.uses, c.pfn, 1)))
  }

  /** page_free of a block in use, once page_is_critical has let it pass: a shared block only
      loses one user. */
  ghost function Free(s: State, p: nat, k: nat): State
    requires Inv(s) && IsUsed(s, p, k)
  {
    UsedHasUses(s, p, k);
    if s.uses[p] > 1 then s.(uses := CountUse(s.uses, p, -1))
    else
      var m := s.(order := s.order[p := k]);
      StaleOrder(s, p, k, k);
      MergeEffect(m, p, k);
      var t := Merge(m, p, k);
      t.(uses := CountUse(t.uses, p, -1))
  }

  /** bootmem_mark_free clears PF_INVALID and calls page_initial_free. */
  ghost function InitialFree(s: State, p: nat): State
    requires Inv(s) && p < |s.order| && s.invalid[p]
  {
    Validate(s, p);
    Merge(s.(invalid := s.invalid[p := false], used := s.used + {Block(p, 0)}), p, 0)
  }

  lemma UsedHasUses(s: State, p: nat, k: nat)
    requires Inv(s) && IsUsed(s, p, k)
    ensures InRange(s, p, k) && s.uses[p] >= 1
  {
    assert IsBlock(s, p, k);
  }

  /** The order field of a block in use may hold anything while it is being merged. */
  lemma StaleOrder(s: State, p: nat, k: nat, v: int)
    requires Core(s) && IsUsed(s, p, k) && InRange(s, p, k)
    ensures InFlight(s.(order := s.order[p := v]), p, k)
  {
    var m := s.(order := s.order[p := v]);
    OneHead(s, p, k);
    forall r: nat, j: nat ensures
      IsFree(m, r, j) == IsFree(s, r, j) && IsUsed(m, r, j) == IsUsed(s, r, j) && IsBlock(m, r, j) == IsBlock(s, r, j)
    {
    }
    forall r: nat, j: nat | IsFree(m, r, j) ensures r < |m.order| && m.order[r] == j {
      assert IsBlock(s, r, j);
    }
    forall x: nat, j: nat ensures CoveredAt(m, x, j) == CoveredAt(s, x, j) {
    }
  }

  lemma InvalidNotCovered(s: State, p: nat)
    requires Core(s) && p < |s.order| && s.invalid[p]
    ensures forall j: nat :: !CoveredAt(s, p, j)
    ensures !IsUsed(s, p, 0) && p !in FreePages(s)
  {
    forall j: nat ensures !CoveredAt(s, p, j) {
      assert CoveredAt(s, p, j) ==> InRange(s, Down(p, j), j);
    }
    assert !CoveredAt(s, p, 0);
    forall j: nat ensures !FreeAt(s, p, j) {
      assert !CoveredAt(s, p, j);
    }
  }

  /** A page that becomes valid enters the ledger as a block of order 0. */
  lemma Validate(s: State, p: nat)
    requires Core(s) && p < |s.order| && s.invalid[p]
    ensures InFlight(s.(invalid := s.invalid[p := false], used := s.used + {Block(p, 0)}), p, 0)
  {
    var m := s.(invalid := s.invalid[p := false], used := s.used + {Block(p, 0)});
    forall r: nat, j: nat ensures
      IsFree(m, r, j) == IsFree(s, r, j) && IsUsed(m, r, j) == (IsUsed(s, r, j) || (r == p && j == 0))
    {
    }
    forall x: nat, j: nat ensures CoveredAt(m, x, j) == (CoveredAt(s, x, j) || (x == p && j == 0)) {
    }
    forall r: nat, j: nat | IsBlock(m, r, j) ensures InRange(m, r, j) {
      assert IsBlock(s, r, j) || (r == p && j == 0);
    }
    InvalidNotCovered(s, p);
    assert !IsFree(s, p, 0) by {
      assert !CoveredAt(s, p, 0);
    }
    forall x | 0 <= x < |m.order|
      ensures !m.invalid[x] <==> exists j :: 0 <= j <= ORDER_MAX && CoveredAt(m, x, j)
    {
      if x == p {
        assert CoveredAt(m, x, 0);
      } else if !m.invalid[x] {
        var j :| 0 <= j <= ORDER_MAX && CoveredAt(s, x, j);
        assert CoveredAt(m, x, j);
      }
    }
  }

  // ---------------------------------------------------------------- their effect

  /** From the page-wise effect of an operation to sets of pages. */
  lemma PagesLeave(s: State, t: State, p: nat, k: nat)
    requires Shape(s) && InRange(s, p, k) && |t.order| == |s.order|
    requires forall x: nat :: PageFree(t, x) <==> PageFree(s, x) && Down(x, k) != p
    requires forall x: nat :: Down(x, k) == p ==> PageFree(s, x)
    ensures PagesOf(p, k) <= FreePages(s) && FreePages(t) == FreePages(s) - PagesOf(p, k)
  {
    BlockInArea(s, p, k);
  }

  lemma PagesReturn(s: State, t: State, p: nat, k: nat)
    requires Shape(s) && InRange(s, p, k) && |t.order| == |s.order|
    requires forall x: nat :: PageFree(t, x) <==> PageFree(s, x) || Down(x, k) == p
    ensures FreePages(t) == FreePages(s) + PagesOf(p, k)
  {
    BlockInArea(s, p, k);
  }

  lemma BlockInArea(s: State, p: nat, k: nat)
    requires Shape(s) && InRange(s, p, k)
    ensures forall x: nat :: Down(x, k) == p <==> x in PagesOf(p, k)
    ensures forall x :: x in PagesOf(p, k) ==> x < |s.order|
  {
    InArea(|s.order|, p, k, ORDER_MAX);
    forall x: nat | Down(x, k) == p ensures x < p + Size(k) {
      InBlock(x, p, k);
    }
  }

  /** page_alloc fails exactly when the order is out of range or no free block is large enough;
      otherwise it hands out an aligned block of free pages and changes nothing else page-wise. */
  lemma AllocEffect(s: State, k: nat)
    requires Inv(s)
    ensures Inv(Alloc(s, k).1)
    ensures Alloc(s, k).0.None? <==> k > ORDER_MAX || !CanCarve(s, k)
    ensures Alloc(s, k).0.None? ==> Alloc(s, k).1 == s
    ensures Alloc(s, k).0.Some? ==>
      var p, t := Alloc(s, k).0.value, Alloc(s, k).1;
      && InRange(s, p, k) && (forall j: nat :: !IsUsed(s, p, j))
      && t.used == s.used + {Block(p, k)}
      && t.invalid == s.invalid && |t.order| == |s.order|
      && t.uses == s.uses[p := 1] && s.uses[p] == 0
      && PagesOf(p, k) <= FreePages(s) && FreePages(t) == FreePages(s) - PagesOf(p, k)
  {
    if k <= ORDER_MAX && CanCarve(s, k) {
      CarveEffect(s, k);
      var c, t := Carve(s, k), Alloc(s, k).1;
      UsesChange(s, c.state, t, c.pfn, k);
      SameBlocks(c.state, t);
      PagesLeave(s, c.state, c.pfn, k);
    }
  }

  /** Adjusting one use count along with the ledger. */
  lemma UsesChange(s: State, c: State, t: State, p: nat, k: nat)
    requires Inv(s) && Core(c) && InRange(s, p, k) && c.used == s.used + {Block(p, k)} && c.uses == s.uses
    requires forall j: nat :: !IsUsed(s, p, j)
    requires |c.order| == |s.order|
    requires t == c.(uses := CountUse(c.uses, p, 1))
    ensures Inv(t) && s.uses[p] == 0
  {
    assert s.uses[p] == 0;
    SameBlocks(c, t);
    forall x | 0 <= x < |t.order|
      ensures t.uses[x] > 0 <==> exists j :: 0 <= j <= ORDER_MAX && IsUsed(t, x, j)
    {
      assert IsUsed(t, p, k);
      forall j: nat | x != p ensures IsUsed(t, x, j) == IsUsed(s, x, j) {
      }
    }
  }

  lemma SamePages(s: State, t: State)
    requires t.lists == s.lists
    ensures forall x: nat :: PageFree(t, x) == PageFree(s, x)
  {
    forall x: nat ensures PageFree(t, x) == PageFree(s, x) {
      forall j: nat ensures FreeAt(t, x, j) == FreeAt(s, x, j) {
      }
    }
  }

  /** The block structure does not depend on the use counts. */
  lemma SameBlocks(s: State, t: State)
    requires Core(s) && Shape(t)
    requires t.order == s.order && t.invalid == s.invalid && t.lists == s.lists && t.used == s.used
    ensures Core(t) && FreePages(t) == FreePages(s)
  {
    forall r: nat, j: nat ensures
      IsFree(t, r, j) == IsFree(s, r, j) && IsUsed(t, r, j) == IsUsed(s, r, j) && IsBlock(t, r, j) == IsBlock(s, r, j)
    {
    }
    forall x: nat, j: nat ensures CoveredAt(t, x, j) == CoveredAt(s, x, j) {
    }
    SamePages(s, t);
  }

  /** page_free gives back exactly the pages of the block, once its last user has let go. */
  lemma FreeEffect(s: State, p: nat, k: nat)
    requires Inv(s) && IsUsed(s, p, k)
    ensures InRange(s, p, k) && s.uses[p] >= 1
    ensures var t := Free(s, p, k);
      && Inv(t) && t.invalid == s.invalid && |t.order| == |s.order|
      && t.uses == s.uses[p := s.uses[p] - 1]
      && (if s.uses[p] > 1 then t.used == s.used && FreePages(t) == FreePages(s)
          else t.used == s.used - {Block(p, k)} && FreePages(t) == FreePages(s) + PagesOf(p, k))
      && PagesOf(p, k) !! FreePages(s)
  {
    UsedHasUses(s, p, k);
    UsedNotFree(s, p, k);
    var t := Free(s, p, k);
    if s.uses[p] > 1 {
      SameBlocks(s, t);
      forall x: nat, j: nat ensures IsUsed(t, x, j) == IsUsed(s, x, j) {
      }
    } else {
      var m := s.(order := s.order[p := k]);
      StaleOrder(s, p, k, k);
      MergeEffect(m, p, k);
      var c := Merge(m, p, k);
      SameBlocks(c, t);
      FreedUses(s, t, p, k);
      SamePages(s, m);
      PagesReturn(s, c, p, k);
    }
  }

  lemma FreedUses(s: State, t: State, p: nat, k: nat)
    requires Inv(s) && IsUsed(s, p, k) && InRange(s, p, k) && s.uses[p] == 1
    requires Core(t) && t.used == s.used - {Block(p, k)} && |t.order| == |s.order|
    requires t.uses == s.uses[p := 0]
    ensures UsesMatch(t)
  {
    assert IsBlock(s, p, k);
    OneHead(s, p, k);
    forall x | 0 <= x < |t.order|
      ensures t.uses[x] > 0 <==> exists j :: 0 <= j <= ORDER_MAX && IsUsed(t, x, j)
    {
      if x == p {
        forall j: nat | IsUsed(t, x, j) ensures false {
          assert IsBlock(s, x, j);
        }
      } else {
        forall j: nat ensures IsUsed(t, x, j) == IsUsed(s, x, j) {
        }
      }
    }
  }

  /** No page of a block in use is free. */
  lemma UsedNotFree(s: State, p: nat, k: nat)
    requires Core(s) && IsUsed(s, p, k)
    ensures PagesOf(p, k) !! FreePages(s)
  {
    forall x | x in PagesOf(p, k) && x in FreePages(s) ensures false {
      var j :| 0 <= j <= ORDER_MAX && FreeAt(s, x, j);
      assert CoveredAt(s, x, j) && CoveredAt(s, x, k);
    }
  }

  /** page_initial_free adds exactly the page that was just made valid. */
  lemma InitialFreeEffect(s: State, p: nat)
    requires Inv(s) && p < |s.order| && s.invalid[p]
    ensures var t := InitialFree(s, p);
      && Inv(t) && t.invalid == s.invalid[p := false] && |t.order| == |s.order|
      && t.uses == s.uses && t.used == s.used
      && FreePages(t) == FreePages(s) + {p} && p !in FreePages(s)
  {
    Validate(s, p);
    var m := s.(invalid := s.invalid[p := false], used := s.used + {Block(p, 0)});
    MergeEffect(m, p, 0);
    var t := InitialFree(s, p);
    InvalidNotCovered(s, p);
    assert t.used == s.used;
    forall x: nat, j: nat ensures IsUsed(t, x, j) == IsUsed(s, x, j) {
    }
    SamePages(s, m);
    assert FreePages(t) == FreePages(s) + {p};
  }
}
