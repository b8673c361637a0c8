/** Reference counting of frames: the use count of a frame that page tables map is the number of table
    entries that map it. */
module RefCounts {
  import opened Frames
  import opened PageTables

  /** The entries that map frame `f`. */
  function Users(leaves: map<Key, nat>, f: nat): set<Key> {
    set k | k in leaves && FrameOf(leaves[k]) == f
  }

  function LeafFrames(leaves: map<Key, nat>): set<nat> {
    set k | k in leaves :: FrameOf(leaves[k])
  }

  /** The frames that the ledger's directories, tables and pages occupy. */
  function Owned(l: Ledger): set<nat> {
    l.dirs + l.tabs.Values + LeafFrames(l.leaves)
  }

  ghost predicate Counted(p: Pool, l: Ledger) {
    && p.free !! p.uses.Keys
    && (forall d :: d in l.dirs ==> d in p.uses && p.uses[d] == 1)
    && (forall t :: t in l.tabs.Values ==> t in p.uses && p.uses[t] == 1)
    && (forall f :: f in LeafFrames(l.leaves) ==> f in p.uses && p.uses[f] == |Users(l.leaves, f)|)
    && l.dirs !! LeafFrames(l.leaves) && l.tabs.Values !! LeafFrames(l.leaves)
  }

  /** The frames in use that the ledger does not account for. */
  function Outside(p: Pool, l: Ledger): set<nat> {
    p.uses.Keys - Owned(l)
  }

  // ---------------------------------------------------------------- counting

  lemma InLeafFrames(leaves: map<Key, nat>, f: nat)
    ensures f in LeafFrames(leaves) <==> Users(leaves, f) != {}
    ensures f in LeafFrames(leaves) <==> |Users(leaves, f)| >= 1
  {
    if f in LeafFrames(leaves) {
      var k :| k in leaves && FrameOf(leaves[k]) == f;
      assert k in Users(leaves, f);
    } else {
      assert Users(leaves, f) == {};
    }
  }

  lemma UsersAdd(leaves: map<Key, nat>, k: Key, e: nat, f: nat)
    requires k !in leaves
    ensures Users(leaves[k := e], f) == if f == FrameOf(e) then Users(leaves, f) + {k} else Users(leaves, f)
    ensures f in LeafFrames(leaves[k := e]) <==> f in LeafFrames(leaves) || f == FrameOf(e)
  {
    hide FrameOf;
    var m := leaves[k := e];
    assert m[k] == e;
    if f in LeafFrames(leaves) {
      var j :| j in leaves && FrameOf(leaves[j]) == f;
      assert m[j] == leaves[j];
    }
  }

  lemma AddUser(leaves: map<Key, nat>, k: Key, e: nat)
    requires k !in leaves
    ensures forall f :: Users(leaves[k := e], f) == if f == FrameOf(e) then Users(leaves, f) + {k} else Users(leaves, f)
    ensures |Users(leaves[k := e], FrameOf(e))| == |Users(leaves, FrameOf(e))| + 1
    ensures LeafFrames(leaves[k := e]) == LeafFrames(leaves) + {FrameOf(e)}
  {
    forall f: nat ensures
      && Users(leaves[k := e], f) == (if f == FrameOf(e) then Users(leaves, f) + {k} else Users(leaves, f))
      && (f in LeafFrames(leaves[k := e]) <==> f in LeafFrames(leaves) || f == FrameOf(e))
    {
      UsersAdd(leaves, k, e, f);
    }
    assert k !in Users(leaves, FrameOf(e));
    hide Users, LeafFrames, FrameOf;
  }

  lemma RemoveUser(leaves: map<Key, nat>, k: Key)
    requires k in leaves
    ensures forall f :: Users(leaves - {k}, f) == if f == FrameOf(leaves[k]) then Users(leaves, f) - {k} else Users(leaves, f)
    ensures |Users(leaves - {k}, FrameOf(leaves[k]))| == |Users(leaves, FrameOf(leaves[k]))| - 1
    ensures LeafFrames(leaves - {k}) <= LeafFrames(leaves) <= LeafFrames(leaves - {k}) + {FrameOf(leaves[k])}
    ensures FrameOf(leaves[k]) in LeafFrames(leaves - {k}) <==> |Users(leaves, FrameOf(leaves[k]))| > 1
  {
    var m, g := leaves - {k}, FrameOf(leaves[k]);
    forall f ensures Users(m, f) == if f == g then Users(leaves, f) - {k} else Users(leaves, f) {
    }
    assert k in Users(leaves, g);
    forall f | f in LeafFrames(leaves) ensures f in LeafFrames(m) || f == g {
      var j :| j in leaves && FrameOf(leaves[j]) == f;
      if j != k { assert m[j] == leaves[j]; }
    }
    InLeafFrames(m, g);
  }

  // ---------------------------------------------------------------- taking frames

  /** A frame taken for a directory. */
  lemma TakeDir(p: Pool, l: Ledger, x: nat)
    requires Counted(p, l) && x in p.free
    ensures var k := l.(dirs := l.dirs + {x});
      x !in Owned(l) && Counted(Take(p, x), k) && Outside(Take(p, x), k) == Outside(p, l)
  {
    assert x !in p.uses.Keys;
  }

  /** A frame taken for a page table. */
  lemma TakeTable(p: Pool, l: Ledger, x: nat, key: Key)
    requires Counted(p, l) && x in p.free && key !in l.tabs
    ensures var k := l.(tabs := l.tabs[key := x]);
      x !in Owned(l) && Counted(Take(p, x), k) && Outside(Take(p, x), k) == Outside(p, l)
  {
    assert x !in p.uses.Keys;
    var k := l.(tabs := l.tabs[key := x]);
    AddValue(l.tabs, key, x);
    assert k.tabs.Values == l.tabs.Values + {x};
  }

  lemma AddValue(m: map<Key, nat>, key: Key, x: nat)
    requires key !in m
    ensures m[key := x].Values == m.Values + {x}
  {
    var n := m[key := x];
    forall y ensures y in n.Values <==> y in m.Values || y == x {
      if y in m.Values {
        var j :| j in m && m[j] == y;
        assert n[j] == y;
      }
      assert n[key] == x;
    }
  }

  /** A frame taken for a page, which one new entry maps. */
  lemma TakeLeaf(p: Pool, l: Ledger, x: nat, key: Key, e: nat)
    requires Counted(p, l) && x in p.free && key !in l.leaves && FrameOf(e) == x
    ensures var k := l.(leaves := l.leaves[key := e]);
      x !in Owned(l) && Counted(Take(p, x), k) && Outside(Take(p, x), k) == Outside(p, l)
  {
    assert x !in p.uses.Keys;
    AddUser(l.leaves, key, e);
    InLeafFrames(l.leaves, x);
  }

  /** The same when an entry is overwritten that was the only one to map its frame: that frame is
      still in use but nothing maps it any more. */
  lemma OverwriteLeaf(p: Pool, l: Ledger, x: nat, key: Key, e: nat)
    requires Counted(p, l) && x in p.free && key in l.leaves && FrameOf(e) == x
    requires |Users(l.leaves, FrameOf(l.leaves[key]))| == 1
    ensures var k := l.(leaves := l.leaves[key := e]);
      && x !in Owned(l) && Counted(Take(p, x), k)
      && FrameOf(l.leaves[key]) !in Outside(p, l)
      && Outside(Take(p, x), k) == Outside(p, l) + {FrameOf(l.leaves[key])}
  {
    var g, rest := FrameOf(l.leaves[key]), l.leaves - {key};
    assert x !in p.uses.Keys;
    assert g in LeafFrames(l.leaves);
    RemoveUser(l.leaves, key);
    AddUser(rest, key, e);
    InLeafFrames(rest, x);
    assert rest[key := e] == l.leaves[key := e];
  }

  /** PTC_SHARE: one more entry for a frame that is mapped already. */
  lemma ShareLeaf(p: Pool, l: Ledger, key: Key, e: nat)
    requires Counted(p, l) && key !in l.leaves && FrameOf(e) in LeafFrames(l.leaves)
    ensures FrameOf(e) in p.uses
    ensures var k := l.(leaves := l.leaves[key := e]);
      Counted(Share(p, FrameOf(e)), k) && Outside(Share(p, FrameOf(e)), k) == Outside(p, l)
  {
    AddUser(l.leaves, key, e);
  }

  // ---------------------------------------------------------------- giving frames back

  /** page_free on a mapped frame as its entry goes away: the frame is returned exactly when that was
      the last entry. */
  lemma DropLeaf(p: Pool, l: Ledger, key: Key)
    requires Counted(p, l) && key in l.leaves
    ensures FrameOf(l.leaves[key]) in p.uses
    ensures var f, k := FrameOf(l.leaves[key]), l.(leaves := l.leaves - {key});
      && Counted(Drop(p, f), k) && Outside(Drop(p, f), k) == Outside(p, l)
      && (f in Drop(p, f).free <==> Users(k.leaves, f) == {})
  {
    var f := FrameOf(l.leaves[key]);
    assert f in LeafFrames(l.leaves);
    RemoveUser(l.leaves, key);
    InLeafFrames(l.leaves - {key}, f);
  }

  lemma DropTable(p: Pool, l: Ledger, key: Key)
    requires Counted(p, l) && Separate(l) && key in l.tabs
    ensures l.tabs[key] in p.uses
    ensures var t, k := l.tabs[key], l.(tabs := l.tabs - {key});
      Counted(Drop(p, t), k) && Outside(Drop(p, t), k) == Outside(p, l) && Separate(k)
  {
    var t, k := l.tabs[key], l.(tabs := l.tabs - {key});
    assert t in l.tabs.Values;
    forall y ensures y in k.tabs.Values <==> y in l.tabs.Values && y != t {
      if y in l.tabs.Values && y != t {
        var j :| j in l.tabs && l.tabs[j] == y;
        assert k.tabs[j] == y;
      }
    }
    assert k.tabs.Values == l.tabs.Values - {t};
  }

  lemma DropDir(p: Pool, l: Ledger, d: nat)
    requires Counted(p, l) && d in l.dirs && d !in l.tabs.Values
    ensures d in p.uses
    ensures var k := l.(dirs := l.dirs - {d});
      Counted(Drop(p, d), k) && Outside(Drop(p, d), k) == Outside(p, l)
  {
  }

  // ---------------------------------------------------------------- what a count means

  /** A frame that page tables map stays in use as long as one live directory maps it, and its use count
      is the number of entries that do. */
  lemma MappedIsUsed(p: Pool, l: Ledger, f: nat)
    requires Counted(p, l)
    ensures (exists k :: k in l.leaves && FrameOf(l.leaves[k]) == f) ==> f in p.uses && f !in p.free && p.uses[f] == |Users(l.leaves, f)|
    ensures f in p.uses && f !in Outside(p, l) && f !in l.dirs && f !in l.tabs.Values ==>
              exists k :: k in l.leaves && FrameOf(l.leaves[k]) == f
  {
    if k :| k in l.leaves && FrameOf(l.leaves[k]) == f {
      assert f in LeafFrames(l.leaves);
    }
  }

  // ---------------------------------------------------------------- tearing directories down in any order

  function WithoutDirs(l: Ledger, ds: seq<nat>): Ledger {
    if ds == [] then l else WithoutDir(WithoutDirs(l, ds[..|ds| - 1]), ds[|ds| - 1])
  }

  lemma {:induction false} WithoutDirsIs(l: Ledger, ds: seq<nat>)
    ensures forall k :: k in WithoutDirs(l, ds).leaves <==> k in l.leaves && k.0 !in ds
    ensures forall k :: k in WithoutDirs(l, ds).leaves ==> WithoutDirs(l, ds).leaves[k] == l.leaves[k]
    ensures forall k :: k in WithoutDirs(l, ds).tabs ==> k in l.tabs && WithoutDirs(l, ds).tabs[k] == l.tabs[k]
    ensures WithoutDirs(l, ds).dirs <= l.dirs
  {
    if ds != [] {
      WithoutDirsIs(l, ds[..|ds| - 1]);
      assert ds == ds[..|ds| - 1] + [ds[|ds| - 1]];
    }
  }

  /** Freeing the directory at position `j` leaves the frames outside the ledger alone and loses none. */
  ghost predicate FreedOnly(l: Ledger, pools: seq<Pool>, ds: seq<nat>, j: nat)
    requires j < |ds| && j + 1 < |pools|
  {
    && Outside(pools[j + 1], WithoutDirs(l, ds[..j + 1])) == Outside(pools[j], WithoutDirs(l, ds[..j]))
    && pools[j + 1].free + pools[j + 1].uses.Keys == pools[j].free + pools[j].uses.Keys
  }

  /** Reference counting over a teardown: whatever the order `ds` in which directories are freed, a frame
      that tables share is in use after the first `i` of them exactly as long as some directory not yet
      freed maps it, its use count is then the number of remaining entries, and it is free otherwise.
      `pools[i]` is the pool after `i` directories have been freed. */
  lemma SharedUntilLast(l: Ledger, pools: seq<Pool>, ds: seq<nat>, f: nat, i: nat)
    requires |pools| == |ds| + 1 && i <= |ds| && f in LeafFrames(l.leaves)
    requires forall j :: 0 <= j <= |ds| ==> Counted(pools[j], WithoutDirs(l, ds[..j]))
    requires forall j :: 0 <= j < |ds| ==> FreedOnly(l, pools, ds, j)
    ensures f in pools[i].uses <==> exists k :: k in l.leaves && FrameOf(l.leaves[k]) == f && k.0 !in ds[..i]
    ensures f in pools[i].uses ==> pools[i].uses[f] == |Users(WithoutDirs(l, ds[..i]).leaves, f)|
    ensures f !in pools[i].uses ==> f in pools[i].free
  {
    TeardownConstants(l, pools, ds, i);
    var w := WithoutDirs(l, ds[..i]);
    WithoutDirsIs(l, ds[..i]);
    assert ds[..0] == [] && Counted(pools[0], WithoutDirs(l, ds[..0]));
    assert f in pools[0].uses && f !in Outside(pools[0], l);
    forall k | k in w.tabs ensures w.tabs[k] != f {
      assert l.tabs[k] in l.tabs.Values;
    }
    assert f !in w.dirs && f !in w.tabs.Values;
    assert Counted(pools[i], w);
    MappedIsUsed(pools[i], w, f);
    if f in pools[i].uses {
      var k :| k in w.leaves && FrameOf(w.leaves[k]) == f;
      assert k in l.leaves && FrameOf(l.leaves[k]) == f && k.0 !in ds[..i];
    } else {
      forall k | k in l.leaves && FrameOf(l.leaves[k]) == f ensures k.0 in ds[..i] {
        assert k.0 !in ds[..i] ==> k in w.leaves;
      }
    }
  }

  lemma {:induction false} TeardownConstants(l: Ledger, pools: seq<Pool>, ds: seq<nat>, i: nat)
    requires |pools| == |ds| + 1 && i <= |ds|
    requires forall j :: 0 <= j < |ds| ==> FreedOnly(l, pools, ds, j)
    ensures Outside(pools[i], WithoutDirs(l, ds[..i])) == Outside(pools[0], l)
    ensures pools[i].free + pools[i].uses.Keys == pools[0].free + pools[0].uses.Keys
  {
    assert ds[..0] == [];
    if i > 0 {
      TeardownConstants(l, pools, ds, i - 1);
      assert FreedOnly(l, pools, ds, i - 1);
    }
  }
}
