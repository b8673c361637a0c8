/** The seven free lists of kernel/mm/palloc.c as rings of page nodes, each with its free_count. */
module FreeLists {
  import opened Sequences
  import opened Rings
  import opened Buddy
  import opened BuddyOps

  /** The address of the list node in page `p`, and of the sentinel of list `k` in an area of `n` pages. */
  function PageNode(p: nat): nat { p + 1 }
  function HeadNode(n: nat, k: nat): nat { n + 1 + k }

  function Nodes(l: seq<nat>): seq<nat> {
    seq(|l|, i requires 0 <= i < |l| => PageNode(l[i]))
  }

  function RingOf(n: nat, k: nat, l: seq<nat>): seq<nat> {
    [HeadNode(n, k)] + Nodes(l)
  }

  /** Page numbers in range, and no page in two places. */
  ghost predicate Separate(lists: seq<seq<nat>>, n: nat) {
    && |lists| == ORDER_MAX + 1
    && (forall k :: 0 <= k <= ORDER_MAX ==> NoDup(lists[k]))
    && (forall k, p :: 0 <= k <= ORDER_MAX && p in lists[k] ==> p < n)
    && (forall j, k, p :: 0 <= j <= ORDER_MAX && 0 <= k <= ORDER_MAX && p in lists[j] && p in lists[k] ==> j == k)
  }

  /** Ring `k` holds exactly the pages of list `k`, front to back, and free_count is its length. */
  ghost predicate Linked(l: Links, counts: seq<nat>, lists: seq<seq<nat>>, n: nat) {
    && Separate(lists, n)
    && |counts| == ORDER_MAX + 1
    && (forall k :: 0 <= k <= ORDER_MAX ==> counts[k] == |lists[k]|)
    && (forall k :: 0 <= k <= ORDER_MAX ==> Ring(l, RingOf(n, k, lists[k])))
  }

  lemma RingMembers(n: nat, k: nat, l: seq<nat>)
    ensures forall x :: x in RingOf(n, k, l) <==> x == HeadNode(n, k) || (x >= 1 && x - 1 in l)
  {
    forall x ensures x in Nodes(l) <==> x >= 1 && x - 1 in l {
      if x >= 1 && x - 1 in l {
        assert Nodes(l)[IndexOf(l, x - 1)] == x;
      }
    }
  }

  lemma RingsDisjoint(lists: seq<seq<nat>>, n: nat, j: nat, k: nat)
    requires Separate(lists, n) && j <= ORDER_MAX && k <= ORDER_MAX && j != k
    ensures forall x :: x in RingOf(n, j, lists[j]) ==> x !in RingOf(n, k, lists[k])
  {
    RingMembers(n, j, lists[j]);
    RingMembers(n, k, lists[k]);
  }

  /** The node before the sentinel is the last page of the list. */
  lemma LastNode(l: Links, counts: seq<nat>, lists: seq<seq<nat>>, n: nat, k: nat)
    requires Linked(l, counts, lists, n) && k <= ORDER_MAX
    ensures HeadNode(n, k) in l.prev
    ensures lists[k] != [] ==> l.prev[HeadNode(n, k)] == PageNode(Last(lists[k]))
  {
    var r := RingOf(n, k, lists[k]);
    assert Ring(l, r) && r[0] == HeadNode(n, k);
    RingAt(l, r, 0);
  }

  lemma DropFromRing(n: nat, k: nat, l: seq<nat>, i: nat)
    requires i < |l|
    ensures DropAt(RingOf(n, k, l), i + 1) == RingOf(n, k, DropAt(l, i))
  {
    var a, b := DropAt(RingOf(n, k, l), i + 1), RingOf(n, k, DropAt(l, i));
    forall j | 0 <= j < |b| ensures a[j] == b[j] {
      if 0 < j <= i {
        assert DropAt(l, i)[j - 1] == l[j - 1];
      } else if j > i {
        assert DropAt(l, i)[j - 1] == l[j];
      }
    }
  }

  lemma SeparateCons(lists: seq<seq<nat>>, n: nat, p: nat, k: nat)
    requires Separate(lists, n) && k <= ORDER_MAX && p < n
    requires forall j :: 0 <= j <= ORDER_MAX ==> p !in lists[j]
    ensures Separate(lists[k := [p] + lists[k]], n)
  {
    ConsMembers(p, lists[k]);
    var m := lists[k := [p] + lists[k]];
    assert forall j, q :: 0 <= j <= ORDER_MAX && q in m[j] ==> q in lists[j] || (q == p && j == k);
  }

  lemma SeparateWithout(lists: seq<seq<nat>>, n: nat, p: nat, k: nat)
    requires Separate(lists, n) && k <= ORDER_MAX && p in lists[k]
    ensures Separate(lists[k := Without(lists[k], p)], n)
  {
    WithoutMembers(lists[k], p);
    var m := lists[k := Without(lists[k], p)];
    assert forall j, q :: 0 <= j <= ORDER_MAX && q in m[j] ==> q in lists[j];
  }

  lemma RingCons(n: nat, k: nat, p: nat, l: seq<nat>)
    ensures [HeadNode(n, k), PageNode(p)] + RingOf(n, k, l)[1..] == RingOf(n, k, [p] + l)
  {
    assert RingOf(n, k, l)[1..] == Nodes(l);
    assert Nodes([p] + l) == [PageNode(p)] + Nodes(l);
  }

  lemma FrontOwn(l: Links, lists: seq<seq<nat>>, n: nat, p: nat, k: nat)
    requires Separate(lists, n) && k <= ORDER_MAX && p < n && p !in lists[k]
    requires Ring(l, RingOf(n, k, lists[k]))
    ensures HeadNode(n, k) in l.next
    ensures Ring(AddLinks(l, HeadNode(n, k), PageNode(p)), RingOf(n, k, [p] + lists[k]))
  {
    var r := RingOf(n, k, lists[k]);
    assert r[0] == HeadNode(n, k);
    RingMembers(n, k, lists[k]);
    AddRing(l, r, PageNode(p));
    RingCons(n, k, p, lists[k]);
  }

  lemma FrontOther(l: Links, lists: seq<seq<nat>>, n: nat, p: nat, k: nat, j: nat)
    requires Separate(lists, n) && k <= ORDER_MAX && p < n && j <= ORDER_MAX && j != k && p !in lists[j]
    requires Ring(l, RingOf(n, k, lists[k])) && Ring(l, RingOf(n, j, lists[j]))
    ensures HeadNode(n, k) in l.next
    ensures Ring(AddLinks(l, HeadNode(n, k), PageNode(p)), RingOf(n, j, lists[j]))
  {
    var r, h, x := RingOf(n, k, lists[k]), HeadNode(n, k), PageNode(p);
    assert r[0] == h;
    RingAt(l, r, 0);
    RingsDisjoint(lists, n, j, k);
    RingMembers(n, j, lists[j]);
    OtherRing(l, AddLinks(l, h, x), r + [x], RingOf(n, j, lists[j]));
  }

  /** clist_add and free_count++. */
  lemma LinkFront(l: Links, counts: seq<nat>, lists: seq<seq<nat>>, n: nat, p: nat, k: nat)
    requires Linked(l, counts, lists, n) && k <= ORDER_MAX && p < n
    requires forall j :: 0 <= j <= ORDER_MAX ==> p !in lists[j]
    ensures HeadNode(n, k) in l.next
    ensures Linked(AddLinks(l, HeadNode(n, k), PageNode(p)), counts[k := counts[k] + 1], lists[k := [p] + lists[k]], n)
  {
    FrontOwn(l, lists, n, p, k);
    SeparateCons(lists, n, p, k);
    forall j | 0 <= j <= ORDER_MAX && j != k
      ensures Ring(AddLinks(l, HeadNode(n, k), PageNode(p)), RingOf(n, j, lists[j]))
    {
      FrontOther(l, lists, n, p, k, j);
    }
  }

  lemma UnlinkOwn(l: Links, lists: seq<seq<nat>>, n: nat, p: nat, k: nat)
    requires k < |lists| && p in lists[k] && Ring(l, RingOf(n, k, lists[k]))
    ensures var x, r := PageNode(p), RingOf(n, k, lists[k]);
      x in l.next && x in l.prev && l.next[x] in r && l.prev[x] in r && l.next[x] in l.next
    ensures Ring(DeleteLinks(l, PageNode(p)), RingOf(n, k, Without(lists[k], p)))
  {
    var r, i := RingOf(n, k, lists[k]), IndexOf(lists[k], p);
    assert r[i + 1] == PageNode(p);
    RingAt(l, r, i + 1);
    DeleteRing(l, r, i + 1);
    DropFromRing(n, k, lists[k], i);
  }

  lemma UnlinkOther(l: Links, lists: seq<seq<nat>>, n: nat, p: nat, k: nat, j: nat)
    requires Separate(lists, n) && k <= ORDER_MAX && p in lists[k] && j <= ORDER_MAX && j != k
    requires Ring(l, RingOf(n, k, lists[k])) && Ring(l, RingOf(n, j, lists[j]))
    requires PageNode(p) in l.next && PageNode(p) in l.prev
    ensures Ring(DeleteLinks(l, PageNode(p)), RingOf(n, j, lists[j]))
  {
    UnlinkOwn(l, lists, n, p, k);
    RingsDisjoint(lists, n, j, k);
    OtherRing(l, DeleteLinks(l, PageNode(p)), RingOf(n, k, lists[k]), RingOf(n, j, lists[j]));
  }

  /** clist_delete_node and free_count--. */
  lemma Unlink(l: Links, counts: seq<nat>, lists: seq<seq<nat>>, n: nat, p: nat, k: nat)
    requires Linked(l, counts, lists, n) && k <= ORDER_MAX && p in lists[k]
    ensures PageNode(p) in l.next && PageNode(p) in l.prev && l.next[PageNode(p)] in l.next && counts[k] > 0
    ensures Linked(DeleteLinks(l, PageNode(p)), counts[k := counts[k] - 1], lists[k := Without(lists[k], p)], n)
  {
    UnlinkOwn(l, lists, n, p, k);
    SeparateWithout(lists, n, p, k);
    forall j | 0 <= j <= ORDER_MAX && j != k
      ensures Ring(DeleteLinks(l, PageNode(p)), RingOf(n, j, lists[j]))
    {
      UnlinkOther(l, lists, n, p, k, j);
    }
  }
}
