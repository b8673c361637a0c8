/** Physical frames as the page tables see them: a set of free frames and a use count for every frame
    handed out singly. The buddy allocator implements this view. */
module Frames {
  import opened Kernel
  import opened Blocks
  import Buddy
  import BuddyOps
  import BuddyCanonical

  /** Frames handed out as order-0 blocks, with their use counts; all other free pages are in `free`. */
  datatype Pool = Pool(free: set<nat>, uses: map<nat, nat>)

  /** page_alloc(0) returning frame `x`. */
  function Take(p: Pool, x: nat): Pool {
    Pool(p.free - {x}, p.uses[x := 1])
  }

  /** page_free(x, 0): a shared frame loses a user, any other goes back to the free frames. */
  function Drop(p: Pool, x: nat): Pool
    requires x in p.uses
  {
    if p.uses[x] > 1 then p.(uses := p.uses[x := p.uses[x] - 1])
    else Pool(p.free + {x}, p.uses - {x})
  }

  /** PAGE_INC_USES. */
  function Share(p: Pool, x: nat): Pool
    requires x in p.uses
  {
    p.(uses := p.uses[x := p.uses[x] + 1])
  }

  // ---------------------------------------------------------------- the buddy allocator implements it

  function Singles(uses: map<nat, nat>): set<Buddy.Block> {
    set x | x in uses :: Buddy.Block(x, 0)
  }

  /** The allocator state shows this pool, the blocks of `outside` being held by others. */
  ghost predicate Shows(s: Buddy.State, p: Pool, outside: set<Buddy.Block>) {
    && Buddy.Inv(s) && p.free == Buddy.FreePages(s)
    && s.used == outside + Singles(p.uses) && outside !! Singles(p.uses)
    && (forall x :: x in p.uses ==> x < |s.order| && s.uses[x] == p.uses[x])
  }

  /** A single page can be had exactly when a page is free. */
  lemma CanTakeIff(s: Buddy.State)
    requires Buddy.Inv(s)
    ensures BuddyOps.CanCarve(s, 0) <==> Buddy.FreePages(s) != {}
  {
    if BuddyOps.CanCarve(s, 0) {
      var k :| 0 <= k < |s.lists| && s.lists[k] != [];
      var p := s.lists[k][0];
      assert Buddy.IsFree(s, p, k) && Buddy.IsBlock(s, p, k);
      assert Buddy.FreeAt(s, p, k);
      BuddyCanonical.FreePageInRange(s, p, k);
    } else {
      forall x: nat, k: nat ensures !Buddy.FreeAt(s, x, k) {
        assert k < |s.lists| ==> s.lists[k] == [];
      }
    }
  }

  /** page_alloc(0) fails exactly when no frame is free, and otherwise takes a free frame. */
  lemma AllocTakes(s: Buddy.State, p: Pool, outside: set<Buddy.Block>)
    requires Shows(s, p, outside)
    ensures var r := BuddyOps.Alloc(s, 0);
      if p.free == {} then r == (None, s)
      else r.0.Some? && r.0.value in p.free && Shows(r.1, Take(p, r.0.value), outside)
  {
    CanTakeIff(s);
    BuddyOps.AllocEffect(s, 0);
    var r := BuddyOps.Alloc(s, 0);
    if r.0.Some? {
      var x, t := r.0.value, r.1;
      assert Buddy.PagesOf(x, 0) == {x};
      assert !Buddy.IsUsed(s, x, 0);
      var q := Take(p, x);
      assert forall y :: y in p.uses ==> Buddy.Block(y, 0) in Singles(p.uses);
      assert Singles(q.uses) == Singles(p.uses) + {Buddy.Block(x, 0)};
    }
  }

  /** page_free(x, 0) drops a user. */
  lemma FreeDrops(s: Buddy.State, p: Pool, outside: set<Buddy.Block>, x: nat)
    requires Shows(s, p, outside) && x in p.uses
    ensures Buddy.IsUsed(s, x, 0) && Shows(BuddyOps.Free(s, x, 0), Drop(p, x), outside)
  {
    assert Buddy.Block(x, 0) in Singles(p.uses);
    assert Buddy.IsUsed(s, x, 0);
    BuddyOps.FreeEffect(s, x, 0);
    assert Buddy.PagesOf(x, 0) == {x};
    var q := Drop(p, x);
    if p.uses[x] > 1 {
      assert Singles(q.uses) == Singles(p.uses);
    } else {
      assert Singles(q.uses) == Singles(p.uses) - {Buddy.Block(x, 0)};
    }
  }

  /** page_alloc of any order by others: its pages leave the free frames, and the block is held outside. */
  lemma OthersTake(s: Buddy.State, p: Pool, outside: set<Buddy.Block>, k: nat)
    requires Shows(s, p, outside)
    ensures var (x, t) := BuddyOps.Alloc(s, k);
      if x.None? then t == s
      else
        && Buddy.PagesOf(x.value, k) <= p.free && x.value in Buddy.PagesOf(x.value, k)
        && Shows(t, p.(free := p.free - Buddy.PagesOf(x.value, k)), outside + {Buddy.Block(x.value, k)})
  {
    BuddyOps.AllocEffect(s, k);
    var (x, t) := BuddyOps.Alloc(s, k);
    if x.Some? {
      DownBounds(x.value, k);
      assert Down(x.value, k) == x.value;
      assert !Buddy.IsUsed(s, x.value, k);
      forall y | y in p.uses ensures y != x.value {
        assert Buddy.Block(y, 0) in Singles(p.uses);
        assert Buddy.IsUsed(s, y, 0);
      }
    }
  }

  /** page_free of a block that others hold. */
  lemma OthersGive(s: Buddy.State, p: Pool, outside: set<Buddy.Block>, x: nat, k: nat)
    requires Shows(s, p, outside) && Buddy.Block(x, k) in outside
    ensures Buddy.IsUsed(s, x, k) && x < |s.uses|
    ensures var t := BuddyOps.Free(s, x, k);
      if s.uses[x] > 1 then Shows(t, p, outside)
      else Shows(t, p.(free := p.free + Buddy.PagesOf(x, k)), outside - {Buddy.Block(x, k)})
  {
    assert Buddy.IsUsed(s, x, k) && Buddy.IsBlock(s, x, k);
    BuddyOps.FreeEffect(s, x, k);
    Buddy.OneHead(s, x, k);
    forall y | y in p.uses ensures y != x {
      assert Buddy.Block(y, 0) in Singles(p.uses);
      assert Buddy.IsUsed(s, y, 0) && Buddy.IsBlock(s, y, 0);
    }
  }

  /** No frame is free and handed out at once. */
  lemma ShownApart(s: Buddy.State, p: Pool, outside: set<Buddy.Block>)
    requires Shows(s, p, outside)
    ensures p.free !! p.uses.Keys
  {
    forall x | x in p.uses ensures x !in p.free {
      assert Buddy.Block(x, 0) in Singles(p.uses);
      assert Buddy.IsUsed(s, x, 0);
      BuddyOps.UsedNotFree(s, x, 0);
      assert x in Buddy.PagesOf(x, 0);
    }
  }

  /** What the kernel reads off a page: a free page has no users, and a frame that is handed out singly has
      as many as the pool says. */
  lemma ShownUses(s: Buddy.State, p: Pool, outside: set<Buddy.Block>, x: nat)
    requires Shows(s, p, outside) && (x in p.free || x in p.uses)
    ensures x < |s.uses| && s.uses[x] == if x in p.free then 0 else p.uses[x]
    ensures x in p.free <==> x in Buddy.FreePages(s)
  {
    if x in p.free {
      var k :| 0 <= k <= Buddy.ORDER_MAX && Buddy.FreeAt(s, x, k);
      assert Buddy.CoveredAt(s, x, k);
      forall j: nat ensures !Buddy.IsUsed(s, x, j) {
        if Buddy.IsUsed(s, x, j) {
          assert Buddy.IsBlock(s, x, j);
          assert Buddy.CoveredAt(s, x, j);
        }
      }
    }
  }

  /** Adding a user. */
  lemma ShareAddsUser(s: Buddy.State, p: Pool, outside: set<Buddy.Block>, x: nat)
    requires Shows(s, p, outside) && x in p.uses
    ensures Buddy.IsUsed(s, x, 0) && Shows(BuddyCanonical.AddUser(s, x, 0), Share(p, x), outside)
  {
    assert Buddy.Block(x, 0) in Singles(p.uses);
    assert Buddy.IsUsed(s, x, 0);
    BuddyCanonical.AddUserEffect(s, x, 0);
    assert Singles(Share(p, x).uses) == Singles(p.uses);
  }
}
