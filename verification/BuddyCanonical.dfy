/** Properties of every reachable state of the page allocator: the free blocks are the canonical
    ones, and runs that leave the same pages in use leave the same blocks. */
module BuddyCanonical {
  import opened Blocks
  import opened Sequences
  import opened Buddy
  import opened BuddyOps

  // ---------------------------------------------------------------- canonical form

  /** The independent description of a free block: an aligned block of free pages, not contained
      in a larger one. It mentions only the set of free pages. */
  predicate MaximalFree(free: set<nat>, p: nat, k: nat) {
    && k <= ORDER_MAX && Aligned(p, k)
    && PagesOf(p, k) <= free
    && (k < ORDER_MAX ==> !(PagesOf(Down(p, k + 1), k + 1) <= free))
  }

  /** If every page of an aligned block is free then one free block of at least that order covers it. */
  lemma {:induction false} FullBlockCovered(s: State, p: nat, k: nat) returns (j: nat)
    requires Core(s) && k <= ORDER_MAX && Aligned(p, k)
    requires forall x: nat :: Down(x, k) == p ==> PageFree(s, x)
    ensures k <= j <= ORDER_MAX && FreeAt(s, p, j)
    decreases k
  {
    hide FlipBit, Orders;
    if k == 0 {
      assert Down(p, 0) == p;
      j :| 0 <= j <= ORDER_MAX && FreeAt(s, p, j);
    } else {
      var h := p + Size(k - 1);
      Halves(p, k - 1);
      forall x: nat | Down(x, k - 1) == p || Down(x, k - 1) == h ensures PageFree(s, x) {
        HalvesCover(p, k - 1, x);
      }
      j := FullBlockCovered(s, p, k - 1);
      if j == k - 1 {
        var i := FullBlockCovered(s, h, k - 1);
        if i == k - 1 {
          assert false;  // both halves would be free buddies
        } else {
          HalvesCover(p, k - 1, h);
          DownDown(h, k, i);
          DownDown(p, k, i);
          j := i;
        }
      }
    }
  }

  /** Canonical form: the free blocks are exactly the maximal aligned blocks of free pages. */
  lemma CanonicalForm(s: State, p: nat, k: nat)
    requires Inv(s)
    ensures IsFree(s, p, k) <==> MaximalFree(FreePages(s), p, k)
  {
    if IsFree(s, p, k) {
      FreeIsMaximal(s, p, k);
    } else if MaximalFree(FreePages(s), p, k) {
      PagesAllFree(s, p, k);
      var j := FullBlockCovered(s, p, k);
      if j > k {
        assert IsBlock(s, Down(p, j), j);
        var q := Down(p, k + 1);
        forall x: nat | Down(x, k + 1) == q ensures x in FreePages(s) {
          DownDown(x, k + 1, j);
          DownDown(p, k + 1, j);
          assert FreeAt(s, x, j);
          FreePageInRange(s, x, j);
        }
      }
    }
  }

  lemma FreePageInRange(s: State, x: nat, j: nat)
    requires Core(s) && FreeAt(s, x, j)
    ensures x < |s.order| && x in FreePages(s)
  {
    assert IsBlock(s, Down(x, j), j);
    BlockInArea(s, Down(x, j), j);
    assert x in PagesOf(Down(x, j), j);
  }

  lemma PagesAllFree(s: State, p: nat, k: nat)
    requires PagesOf(p, k) <= FreePages(s) && Aligned(p, k)
    ensures forall x: nat :: Down(x, k) == p ==> PageFree(s, x)
  {
    forall x: nat | Down(x, k) == p ensures PageFree(s, x) {
      InBlock(x, p, k);
      assert x in PagesOf(p, k);
    }
  }

  lemma FreeIsMaximal(s: State, p: nat, k: nat)
    requires Core(s) && IsFree(s, p, k)
    ensures MaximalFree(FreePages(s), p, k)
  {
    assert IsBlock(s, p, k);
    forall x | x in PagesOf(p, k) ensures x in FreePages(s) {
      assert FreeAt(s, x, k);
      FreePageInRange(s, x, k);
    }
    if k < ORDER_MAX {
      var q := Down(p, k + 1);
      DownDown(p, k, k + 1);
      if PagesOf(q, k + 1) <= FreePages(s) {
        DownDown(p, k + 1, k + 1);
        PagesAllFree(s, q, k + 1);
        var j := FullBlockCovered(s, q, k + 1);
        DownDown(p, k + 1, j);
        assert CoveredAt(s, p, j) && CoveredAt(s, p, k);
        assert false;
      }
    }
  }

  /** The set of free pages determines the free lists up to order: same members, same lengths. */
  lemma FreePagesDetermineLists(s: State, t: State)
    requires Inv(s) && Inv(t) && FreePages(s) == FreePages(t)
    ensures forall k :: 0 <= k <= ORDER_MAX ==> multiset(s.lists[k]) == multiset(t.lists[k])
    ensures forall k :: 0 <= k <= ORDER_MAX ==> |s.lists[k]| == |t.lists[k]|
  {
    forall k | 0 <= k <= ORDER_MAX
      ensures multiset(s.lists[k]) == multiset(t.lists[k]) && |s.lists[k]| == |t.lists[k]|
    {
      forall p: nat ensures p in s.lists[k] <==> p in t.lists[k] {
        CanonicalForm(s, p, k);
        CanonicalForm(t, p, k);
        assert IsFree(s, p, k) <==> IsFree(t, p, k);
      }
      SameMembers(s.lists[k], t.lists[k]);
      assert |multiset(s.lists[k])| == |multiset(t.lists[k])|;
    }
  }

  /** Two states have the same free pages if and only if each list has the same members in both. */
  lemma ListsIffFreePages(s: State, t: State)
    requires Inv(s) && Inv(t)
    ensures FreePages(s) == FreePages(t) <==> SameLists(s, t)
  {
    if FreePages(s) == FreePages(t) {
      FreePagesDetermineLists(s, t);
    }
    if SameLists(s, t) {
      ListsKeepFree(s, t);
      ListsKeepFree(t, s);
    }
  }

  /** The seven lists have the same members, whatever their order. */
  predicate SameLists(s: State, t: State) {
    |s.lists| == |t.lists| && forall k :: 0 <= k < |s.lists| ==> multiset(s.lists[k]) == multiset(t.lists[k])
  }

  lemma ListsKeepFree(s: State, t: State)
    requires Inv(s) && Inv(t) && SameLists(s, t)
    ensures FreePages(s) <= FreePages(t)
  {
    forall x | x in FreePages(s) ensures x in FreePages(t) {
      var k :| 0 <= k <= ORDER_MAX && FreeAt(s, x, k);
      assert Down(x, k) in multiset(s.lists[k]);
      assert Down(x, k) in multiset(t.lists[k]);
      assert FreeAt(t, x, k);
      FreePageInRange(t, x, k);
    }
  }

  lemma SameMembers<T>(a: seq<T>, b: seq<T>)
    requires NoDup(a) && NoDup(b)
    requires forall x :: x in a <==> x in b
    ensures multiset(a) == multiset(b)
  {
    forall x ensures multiset(a)[x] == multiset(b)[x] {
      NoDupOnce(a, x);
      NoDupOnce(b, x);
    }
  }

  lemma NoDupOnce<T>(a: seq<T>, x: T)
    requires NoDup(a)
    ensures multiset(a)[x] == if x in a then 1 else 0
  {
    if x in a {
      var i := IndexOf(a, x);
      assert a == a[..i] + [x] + a[i + 1..];
      assert x !in a[..i] && x !in a[i + 1..];
    }
  }

  // ---------------------------------------------------------------- runs

  /** One atomic step of the allocator; `Share` is the PAGE_INC_USES of ptable_copy_range. */
  datatype Op = Init(p: nat) | Get(k: nat) | Release(p: nat, k: nat) | Share(p: nat, k: nat)

  /** What callers must respect: boot frees each invalid page once, and only blocks in use are
      shared or released, with the order they were allocated with. */
  predicate Enabled(s: State, op: Op) {
    match op
    case Init(p) => p < |s.order| && p < |s.invalid| && s.invalid[p]
    case Get(_) => true
    case Release(p, k) => IsUsed(s, p, k)
    case Share(p, k) => IsUsed(s, p, k)
  }

  ghost function Apply(s: State, op: Op): State
    requires Inv(s) && Enabled(s, op)
  {
    match op
    case Init(p) => InitialFree(s, p)
    case Get(k) => Alloc(s, k).1
    case Release(p, k) => Free(s, p, k)
    case Share(p, k) => AddUser(s, p, k)
  }

  ghost function AddUser(s: State, p: nat, k: nat): State
    requires Inv(s) && IsUsed(s, p, k)
  {
    UsedHasUses(s, p, k);
    s.(uses := CountUse(s.uses, p, 1))
  }

  lemma AddUserEffect(s: State, p: nat, k: nat)
    requires Inv(s) && IsUsed(s, p, k)
    ensures InRange(s, p, k)
    ensures var t := AddUser(s, p, k);
      Inv(t) && FreePages(t) == FreePages(s) && t.uses == s.uses[p := s.uses[p] + 1]
  {
    UsedHasUses(s, p, k);
    var t := AddUser(s, p, k);
    SameBlocks(s, t);
    forall x: nat, j: nat ensures IsUsed(t, x, j) == IsUsed(s, x, j) {
    }
  }

  /** Every step keeps the invariant and the page area. */
  lemma StepKeepsInv(s: State, op: Op)
    requires Inv(s) && Enabled(s, op)
    ensures Inv(Apply(s, op)) && |Apply(s, op).order| == |s.order|
    ensures !op.Init? ==> Apply(s, op).invalid == s.invalid
  {
    match op
    case Init(p) => InitialFreeEffect(s, p);
    case Get(k) => AllocEffect(s, k);
    case Release(p, k) => FreeEffect(s, p, k);
    case Share(p, k) => AddUserEffect(s, p, k);
  }

  ghost predicate Legal(s: State, ops: seq<Op>)
    requires Inv(s)
    decreases |ops|
  {
    ops != [] ==>
      && Enabled(s, ops[0])
      && (StepKeepsInv(s, ops[0]); Legal(Apply(s, ops[0]), ops[1..]))
  }

  ghost function Run(s: State, ops: seq<Op>): State
    requires Inv(s) && Legal(s, ops)
    decreases |ops|
  {
    if ops == [] then s else
      StepKeepsInv(s, ops[0]);
      Run(Apply(s, ops[0]), ops[1..])
  }

  /** What buddy_init leaves: every page invalid with order 0, every list empty. */
  function Initial(n: nat): State {
    State(seq(n, _ => 0), seq(n, _ => true), seq(n, _ => 0), seq(ORDER_MAX + 1, _ => []), {})
  }

  lemma InitialInv(n: nat)
    requires Aligned(n, ORDER_MAX)
    ensures Inv(Initial(n)) && FreePages(Initial(n)) == {}
  {
    var s := Initial(n);
    forall p: nat, k: nat ensures !IsBlock(s, p, k) && !IsFree(s, p, k) && !IsUsed(s, p, k) {
    }
    forall x: nat, k: nat ensures !CoveredAt(s, x, k) && !FreeAt(s, x, k) {
    }
  }

  lemma {:induction false} RunKeepsInv(s: State, ops: seq<Op>)
    requires Inv(s) && Legal(s, ops)
    ensures Inv(Run(s, ops)) && |Run(s, ops).order| == |s.order|
    ensures (forall i :: 0 <= i < |ops| ==> !ops[i].Init?) ==> Run(s, ops).invalid == s.invalid
    decreases |ops|
  {
    if ops != [] {
      StepKeepsInv(s, ops[0]);
      RunKeepsInv(Apply(s, ops[0]), ops[1..]);
    }
  }

  // ---------------------------------------------------------------- what runs determine

  /** The pages that callers hold. */
  ghost predicate PageUsed(s: State, x: nat) {
    exists k :: 0 <= k <= ORDER_MAX && IsUsed(s, Down(x, k), k)
  }

  /** Free pages are the valid pages that nobody holds. */
  lemma FreeIsValidUnused(s: State, x: nat)
    requires Inv(s) && x < |s.order|
    ensures x in FreePages(s) <==> !s.invalid[x] && !PageUsed(s, x)
  {
    if x in FreePages(s) {
      var j :| 0 <= j <= ORDER_MAX && FreeAt(s, x, j);
      assert CoveredAt(s, x, j);
      forall k: nat | IsUsed(s, Down(x, k), k) ensures false {
        assert CoveredAt(s, x, k);
      }
    } else if !s.invalid[x] {
      var j :| 0 <= j <= ORDER_MAX && CoveredAt(s, x, j);
      assert !FreeAt(s, x, j);
      assert IsUsed(s, Down(x, j), j);
    }
  }

  /** Any two runs of the allocator, of whatever length and history, that leave the same pages
      valid and the same pages in use leave the same free blocks. */
  lemma RunsConfluent(n: nat, a: seq<Op>, b: seq<Op>)
    requires Aligned(n, ORDER_MAX)
    requires Inv(Initial(n)) && Legal(Initial(n), a) && Legal(Initial(n), b)
    requires Run(Initial(n), a).invalid == Run(Initial(n), b).invalid
    requires forall x | 0 <= x < n :: PageUsed(Run(Initial(n), a), x) <==> PageUsed(Run(Initial(n), b), x)
    ensures var s, t := Run(Initial(n), a), Run(Initial(n), b);
      && |s.lists| == |t.lists| == ORDER_MAX + 1
      && (forall p: nat, k: nat :: IsFree(s, p, k) <==> IsFree(t, p, k))
      && (forall k :: 0 <= k <= ORDER_MAX ==> |s.lists[k]| == |t.lists[k]|)
  {
    var s, t := Run(Initial(n), a), Run(Initial(n), b);
    RunKeepsInv(Initial(n), a);
    RunKeepsInv(Initial(n), b);
    forall x ensures x in FreePages(s) <==> x in FreePages(t) {
      if 0 <= x < n {
        FreeIsValidUnused(s, x);
        FreeIsValidUnused(t, x);
      }
    }
    assert FreePages(s) == FreePages(t);
    forall p: nat, k: nat ensures IsFree(s, p, k) <==> IsFree(t, p, k) {
      CanonicalForm(s, p, k);
      CanonicalForm(t, p, k);
    }
    FreePagesDetermineLists(s, t);
  }

  /** Once everything has been given back, in whatever order, the free blocks are those there were
      after boot. */
  lemma FreeingAllRestores(s: State, ops: seq<Op>)
    requires Inv(s) && s.used == {} && Legal(s, ops)
    requires forall i :: 0 <= i < |ops| ==> !ops[i].Init?
    requires Run(s, ops).used == {}
    ensures forall p: nat, k: nat :: IsFree(Run(s, ops), p, k) <==> IsFree(s, p, k)
    ensures forall k :: 0 <= k <= ORDER_MAX ==> |Run(s, ops).lists| == |s.lists| == ORDER_MAX + 1 && |Run(s, ops).lists[k]| == |s.lists[k]|
  {
    var t := Run(s, ops);
    RunKeepsInv(s, ops);
    forall x ensures x in FreePages(s) <==> x in FreePages(t) {
      if 0 <= x < |s.order| {
        FreeIsValidUnused(s, x);
        FreeIsValidUnused(t, x);
      }
    }
    assert FreePages(s) == FreePages(t);
    forall p: nat, k: nat ensures IsFree(t, p, k) <==> IsFree(s, p, k) {
      CanonicalForm(s, p, k);
      CanonicalForm(t, p, k);
    }
    FreePagesDetermineLists(s, t);
  }

  // ---------------------------------------------------------------- the page area

  /** buddy_get does no bounds check: the buddy of every block in the page area lies in the area as well
      exactly when the page count is a multiple of 2^ORDER_MAX. */
  lemma BuddyLookupsInArea(n: nat)
    ensures (forall p: nat, k: nat :: p + Size(k) <= n && k < ORDER_MAX && Aligned(p, k) ==> FlipBit(p, k) < n)
       <==> Aligned(n, ORDER_MAX)
  {
    if Aligned(n, ORDER_MAX) {
      forall p: nat, k: nat | p + Size(k) <= n && k < ORDER_MAX && Aligned(p, k) ensures FlipBit(p, k) < n {
        BuddyPair(p, k);
        InArea(n, ClearBit(p, k), k + 1, ORDER_MAX);
      }
    } else {
      var p, k := EscapingBuddy(n, ORDER_MAX);
    }
  }

  /** A page count that is not a multiple of 2^m has a block, wholly in the area, whose buddy starts just
      past it. */
  lemma {:induction false} EscapingBuddy(n: nat, m: nat) returns (p: nat, k: nat)
    requires !Aligned(n, m)
    ensures k < m && p + Size(k) == n && Aligned(p, k) && FlipBit(p, k) == n
  {
    if Aligned(n, m - 1) {
      DownStep(n, m - 1);
      p, k := Down(n, m), m - 1;
      DownDown(n, m, m);
      Halves(p, k);
    } else {
      p, k := EscapingBuddy(n, m - 1);
    }
  }

  // ---------------------------------------------------------------- accounting

  /** The pages promised by the free counts: the sum of free_count[k] * 2^k from order `k` up. */
  function CountedFrom(lists: seq<seq<nat>>, k: nat): nat
    requires k <= |lists|
    decreases |lists| - k
  {
    if k == |lists| then 0 else |lists[k]| * Size(k) + CountedFrom(lists, k + 1)
  }

  lemma {:induction false} BlockPageCount(p: nat, k: nat)
    requires Aligned(p, k)
    ensures |PagesOf(p, k)| == Size(k)
    decreases k
  {
    if k == 0 {
      assert PagesOf(p, 0) == {p};
    } else {
      var h := p + Size(k - 1);
      Halves(p, k - 1);
      BlockPageCount(p, k - 1);
      BlockPageCount(h, k - 1);
      forall x ensures x in PagesOf(p, k) <==> x in PagesOf(p, k - 1) || x in PagesOf(h, k - 1) {
        if x >= 0 {
          HalvesCover(p, k - 1, x);
          InBlock(x, p, k);
          InBlock(x, p, k - 1);
          InBlock(x, h, k - 1);
        }
      }
      assert PagesOf(p, k) == PagesOf(p, k - 1) + PagesOf(h, k - 1);
      assert PagesOf(p, k - 1) !! PagesOf(h, k - 1);
    }
  }

  /** All pages of the order-`k` blocks headed by the elements of `l`. */
  function ListPages(l: seq<nat>, k: nat): set<nat> {
    if l == [] then {} else PagesOf(l[0], k) + ListPages(l[1..], k)
  }

  lemma {:induction false} ListPagesIn(l: seq<nat>, k: nat, x: nat)
    requires forall p :: p in l ==> Aligned(p, k)
    ensures x in ListPages(l, k) <==> Down(x, k) in l
  {
    if l != [] {
      ListPagesIn(l[1..], k, x);
      InBlock(x, l[0], k);
    }
  }

  lemma {:induction false} ListPageCount(l: seq<nat>, k: nat)
    requires NoDup(l) && forall p :: p in l ==> Aligned(p, k)
    ensures |ListPages(l, k)| == |l| * Size(k)
  {
    if l != [] {
      BlockPageCount(l[0], k);
      ListPageCount(l[1..], k);
      forall x | x in PagesOf(l[0], k) ensures x !in ListPages(l[1..], k) {
        ListPagesIn(l[1..], k, x);
      }
      assert |l| * Size(k) == Size(k) + (|l| - 1) * Size(k);
    }
  }

  predicate FreeAtLeast(s: State, x: nat, k: nat) {
    exists j :: k <= j <= ORDER_MAX && FreeAt(s, x, j)
  }

  /** The free pages whose free block has order at least `k`. */
  function FreeFrom(s: State, k: nat): set<nat> {
    set x | 0 <= x < |s.order| && FreeAtLeast(s, x, k)
  }

  lemma FreeFromStep(s: State, k: nat, x: nat)
    requires Core(s) && k <= ORDER_MAX
    ensures x in FreeFrom(s, k) <==> FreeAt(s, x, k) || x in FreeFrom(s, k + 1)
    ensures !(FreeAt(s, x, k) && x in FreeFrom(s, k + 1))
  {
    if FreeAt(s, x, k) {
      FreePageInRange(s, x, k);
      forall j: nat | FreeAt(s, x, j) ensures j == k {
        assert CoveredAt(s, x, j) && CoveredAt(s, x, k);
      }
    }
  }

  lemma {:induction false} CountedFromExact(s: State, k: nat)
    requires Core(s) && k <= ORDER_MAX + 1
    ensures CountedFrom(s.lists, k) == |FreeFrom(s, k)|
    decreases ORDER_MAX + 1 - k
  {
    if k == ORDER_MAX + 1 {
      assert FreeFrom(s, k) == {};
    } else {
      CountedFromExact(s, k + 1);
      var l := s.lists[k];
      forall p | p in l ensures Aligned(p, k) {
        assert IsFree(s, p, k) && IsBlock(s, p, k);
      }
      ListPageCount(l, k);
      forall x: nat ensures x in FreeFrom(s, k) <==> x in ListPages(l, k) || x in FreeFrom(s, k + 1)
                    ensures !(x in ListPages(l, k) && x in FreeFrom(s, k + 1))
      {
        ListPagesIn(l, k, x);
        FreeFromStep(s, k, x);
      }
      assert FreeFrom(s, k) == ListPages(l, k) + FreeFrom(s, k + 1);
      assert ListPages(l, k) !! FreeFrom(s, k + 1);
    }
  }

  /** The free counts account for every free page: the sum of free_count[k] * 2^k is their number. */
  lemma PageAccounting(s: State)
    requires Inv(s)
    ensures CountedFrom(s.lists, 0) == |FreePages(s)|
  {
    CountedFromExact(s, 0);
    assert FreeFrom(s, 0) == FreePages(s);
  }
}
