/** ptable_copy_range of kernel/mm/ptable.c with PTC_SHARE, on values: which pages the loops share, and when
    the use counts still account for every frame afterwards. */
module Sharing {
  import opened Frames
  import opened PageTables
  import opened RefCounts

  // ---------------------------------------------------------------- which pages are shared

  /** Pages from `lo` up to `hi` that `src` maps are not mapped by `dst`. */
  ghost predicate Disjoint(leaves: map<Key, nat>, src: nat, dst: nat, lo: nat, hi: nat) {
    forall v: nat :: lo <= v < hi && (src, v) in leaves ==> (dst, v) !in leaves
  }

  /** `after` is `leaves` with the entries of `src` from page `lo` up to `hi` copied to `dst`. */
  ghost predicate SharedRange(leaves: map<Key, nat>, after: map<Key, nat>, src: nat, dst: nat, lo: nat, hi: nat) {
    forall k: Key ::
      if k.0 == dst && lo <= k.1 < hi && (src, k.1) in leaves
      then k in after && after[k] == leaves[(src, k.1)]
      else (k in after <==> k in leaves) && (k in after ==> after[k] == leaves[k])
  }

  lemma SharedJoin(l0: map<Key, nat>, l1: map<Key, nat>, l2: map<Key, nat>, src: nat, dst: nat, lo: nat, mid: nat, hi: nat)
    requires src != dst && lo <= mid <= hi && SharedRange(l0, l1, src, dst, lo, mid) && SharedRange(l1, l2, src, dst, mid, hi)
    ensures SharedRange(l0, l2, src, dst, lo, hi)
  {
    forall k: Key ensures (src, k.1) in l1 <==> (src, k.1) in l0 {
    }
    assert forall v: nat :: (src, v) in l1 ==> l1[(src, v)] == l0[(src, v)];
  }

  /** What the first part of a range leaves for the second: the same entries on both sides. */
  lemma LaterPages(l0: map<Key, nat>, l1: map<Key, nat>, src: nat, dst: nat, lo: nat, mid: nat, v: nat)
    requires src != dst && mid <= v && SharedRange(l0, l1, src, dst, lo, mid)
    ensures (src, v) in l1 <==> (src, v) in l0
    ensures (dst, v) in l1 <==> (dst, v) in l0
    ensures (dst, v) in l0 ==> l1[(dst, v)] == l0[(dst, v)]
  {
    assert (src, v) in l1 <==> (src, v) in l0;
    assert (dst, v) in l1 <==> (dst, v) in l0;
  }

  // ---------------------------------------------------------------- the end of the range

  /** The page at which ptable_copy_range stops: the end of the range, except that when the range lies
      in one directory slot the loop ignores the end and runs to the end of that table. */
  function CopyEnd(first: nat, last: nat): nat {
    if DirOf(first) == DirOf(last) then (DirOf(first) + 1) * ENTRIES else last
  }

  /** The inner loop bounds, slot by slot. */
  lemma CopyBounds(first: nat, last: nat, i: nat)
    requires DirOf(first) <= i <= DirOf(last) && first <= last
    ensures var lo := if i == DirOf(first) then SlotOf(first) else 0;
      var hi := if i != DirOf(first) && i == DirOf(last) then SlotOf(last) else ENTRIES;
      && i * ENTRIES + lo == (if i == DirOf(first) then first else i * ENTRIES)
      && i * ENTRIES + hi == (if i < DirOf(last) then (i + 1) * ENTRIES else CopyEnd(first, last))
      && lo <= hi <= ENTRIES
      && i * ENTRIES + hi <= CopyEnd(first, last)
  {
  }

  /** What ptable_copy_range shares is exactly the pages of the source from the start up to the end address
      if and only if each page that the source maps from there up to where the loops stop had the very same
      entry in the destination already. */
  lemma CopyPastEnd(l0: map<Key, nat>, l1: map<Key, nat>, src: nat, dst: nat, first: nat, last: nat)
    requires first <= last && SharedRange(l0, l1, src, dst, first, CopyEnd(first, last))
    ensures SharedRange(l0, l1, src, dst, first, last) <==>
      DirOf(first) != DirOf(last) || forall v: nat ::
        last <= v < (DirOf(first) + 1) * ENTRIES && (src, v) in l0 ==> (dst, v) in l0 && l0[(dst, v)] == l0[(src, v)]
  {
    var end := CopyEnd(first, last);
    assert last <= end;
    forall v: nat | last <= v < end && (src, v) in l0 ensures (dst, v) in l1 && l1[(dst, v)] == l0[(src, v)] {
      assert (dst, v).1 == v;
    }
    if SharedRange(l0, l1, src, dst, first, last) {
      forall v: nat | last <= v < end && (src, v) in l0 ensures (dst, v) in l0 && l0[(dst, v)] == l0[(src, v)] {
        assert (dst, v) in l1 <==> (dst, v) in l0;
      }
    }
    if forall v: nat :: last <= v < end && (src, v) in l0 ==> (dst, v) in l0 && l0[(dst, v)] == l0[(src, v)] {
      forall k: Key ensures
        if k.0 == dst && first <= k.1 < last && (src, k.1) in l0
        then k in l1 && l1[k] == l0[(src, k.1)]
        else (k in l1 <==> k in l0) && (k in l1 ==> l1[k] == l0[k])
      {
        assert k == (k.0, k.1);
      }
    }
  }

  /** With a destination that maps none of those pages, the end address is respected if and only if it lies
      in another directory slot than the start, or the source maps nothing from it to the end of the slot. */
  lemma CopyEndExact(l0: map<Key, nat>, l1: map<Key, nat>, src: nat, dst: nat, first: nat, last: nat)
    requires first <= last && SharedRange(l0, l1, src, dst, first, CopyEnd(first, last))
    requires Disjoint(l0, src, dst, first, CopyEnd(first, last))
    ensures SharedRange(l0, l1, src, dst, first, last) <==>
      DirOf(first) != DirOf(last) || forall v: nat :: last <= v < (DirOf(first) + 1) * ENTRIES ==> (src, v) !in l0
  {
    CopyPastEnd(l0, l1, src, dst, first, last);
  }

  // ---------------------------------------------------------------- accounting

  /** How far the use count of a frame exceeds the number of entries for it. */
  function Surplus(p: Pool, l: Ledger, f: nat): int
    requires f in p.uses
  {
    p.uses[f] - |Users(l.leaves, f)|
  }

  ghost predicate Rose(p: Pool, l: Ledger, q: Pool, k: Ledger, f: nat) {
    f in p.uses && f in q.uses && Surplus(p, l, f) < Surplus(q, k, f)
  }

  ghost predicate NoLess(p: Pool, l: Ledger, q: Pool, k: Ledger) {
    forall f :: f in p.uses ==> f in q.uses && Surplus(p, l, f) <= Surplus(q, k, f)
  }

  /** Every frame that is mapped is in use. */
  ghost predicate Housed(p: Pool, l: Ledger) { LeafFrames(l.leaves) <= p.uses.Keys }

  /** The counts are exact and nothing else is unaccounted for than before. */
  ghost predicate Accounted(p: Pool, l: Ledger, q: Pool, k: Ledger) {
    Counted(q, k) && Outside(q, k) == Outside(p, l)
  }

  /** The effect of sharing the pages from `lo` up to `hi`: the entries, and for each entry that was written
      over a frame whose use count is now too high. */
  ghost predicate Shared(p: Pool, l: Ledger, q: Pool, k: Ledger, src: nat, dst: nat, lo: nat, hi: nat) {
    && k.dirs == l.dirs && k.tabs == l.tabs && SharedRange(l.leaves, k.leaves, src, dst, lo, hi)
    && NoLess(p, l, q, k)
    && (Counted(p, l) && Disjoint(l.leaves, src, dst, lo, hi) ==> Accounted(p, l, q, k))
    && (forall v: nat :: lo <= v < hi && (src, v) in l.leaves && (dst, v) in l.leaves ==>
          Rose(p, l, q, k, FrameOf(l.leaves[(dst, v)])))
  }

  lemma SharedNothing(p: Pool, l: Ledger, src: nat, dst: nat, lo: nat, hi: nat)
    requires forall v: nat :: lo <= v < hi ==> (src, v) !in l.leaves
    ensures Shared(p, l, p, l, src, dst, lo, hi)
  {
  }

  lemma MappedFrame(leaves: map<Key, nat>, key: Key)
    requires key in leaves
    ensures FrameOf(leaves[key]) in LeafFrames(leaves)
  {
  }

  /** One entry that maps a frame in use is added, perhaps over another. */
  lemma ShareSurplus(p: Pool, l: Ledger, key: Key, e: nat)
    requires Housed(p, l) && FrameOf(e) in p.uses
    ensures var q, k := Share(p, FrameOf(e)), l.(leaves := l.leaves[key := e]);
      && Housed(q, k) && NoLess(p, l, q, k)
      && (key in l.leaves ==> Rose(p, l, q, k, FrameOf(l.leaves[key])))
  {
    hide Users, LeafFrames, FrameOf;
    if key in l.leaves {
      var rest := l.leaves - {key};
      MappedFrame(l.leaves, key);
      RemoveUser(l.leaves, key);
      AddUser(rest, key, e);
      assert rest[key := e] == l.leaves[key := e];
    } else {
      AddUser(l.leaves, key, e);
    }
  }

  /** Sharing one page that the source maps. */
  lemma SharedOne(p: Pool, l: Ledger, src: nat, dst: nat, v: nat)
    requires src != dst && Housed(p, l) && (src, v) in l.leaves
    ensures FrameOf(l.leaves[(src, v)]) in p.uses
    ensures var e := l.leaves[(src, v)];
      var q, k := Share(p, FrameOf(e)), l.(leaves := l.leaves[(dst, v) := e]);
      Housed(q, k) && Shared(p, l, q, k, src, dst, v, v + 1)
  {
    hide Counted, Outside, Surplus, NoLess, Rose, FrameOf;
    var e := l.leaves[(src, v)];
    assert FrameOf(e) in LeafFrames(l.leaves);
    ShareSurplus(p, l, (dst, v), e);
    if Counted(p, l) && (dst, v) !in l.leaves {
      ShareLeaf(p, l, (dst, v), e);
    }
  }

  lemma SurplusJoin(p: Pool, l: Ledger, q: Pool, k: Ledger, r: Pool, j: Ledger)
    requires NoLess(p, l, q, k) && NoLess(q, k, r, j)
    ensures NoLess(p, l, r, j)
    ensures forall f :: Rose(p, l, q, k, f) ==> Rose(p, l, r, j, f)
    ensures forall f :: f in p.uses && Rose(q, k, r, j, f) ==> Rose(p, l, r, j, f)
  {
    hide Surplus;
  }

  /** Sharing one range and then the next is sharing the two together. */
  lemma SharedBoth(p: Pool, l: Ledger, q: Pool, k: Ledger, r: Pool, j: Ledger, src: nat, dst: nat, lo: nat, mid: nat, hi: nat)
    requires src != dst && lo <= mid <= hi && Housed(p, l)
    requires Shared(p, l, q, k, src, dst, lo, mid) && Shared(q, k, r, j, src, dst, mid, hi)
    ensures Shared(p, l, r, j, src, dst, lo, hi)
  {
    hide Counted, Outside, Surplus, NoLess, Rose, FrameOf;
    SharedJoin(l.leaves, k.leaves, j.leaves, src, dst, lo, mid, hi);
    SurplusJoin(p, l, q, k, r, j);
    forall v: nat | mid <= v < hi ensures
      && ((src, v) in k.leaves <==> (src, v) in l.leaves)
      && ((dst, v) in k.leaves <==> (dst, v) in l.leaves)
      && ((dst, v) in l.leaves ==> k.leaves[(dst, v)] == l.leaves[(dst, v)])
    {
      LaterPages(l.leaves, k.leaves, src, dst, lo, mid, v);
    }
    forall v: nat | lo <= v < hi && (src, v) in l.leaves && (dst, v) in l.leaves
      ensures Rose(p, l, r, j, FrameOf(l.leaves[(dst, v)]))
    {
      assert FrameOf(l.leaves[(dst, v)]) in LeafFrames(l.leaves);
    }
  }

  /** Sharing a range keeps every use count exact, and leaves no frame unaccounted for, if and only if the
      destination mapped none of the pages that the source shares with it. */
  lemma SharingAccounts(p: Pool, l: Ledger, q: Pool, k: Ledger, src: nat, dst: nat, lo: nat, hi: nat)
    requires Counted(p, l) && Shared(p, l, q, k, src, dst, lo, hi)
    ensures Accounted(p, l, q, k) <==> Disjoint(l.leaves, src, dst, lo, hi)
  {
    if v: nat :| lo <= v < hi && (src, v) in l.leaves && (dst, v) in l.leaves {
      var f := FrameOf(l.leaves[(dst, v)]);
      assert f in LeafFrames(l.leaves);
      assert Rose(p, l, q, k, f);
      InLeafFrames(k.leaves, f);
    }
  }
}
