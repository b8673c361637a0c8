/** Circular doubly-linked lists of include/rotary/list.h.

    Node addresses are natural numbers, and the `next` and `prev` words of all nodes are kept in
    two maps, as the memory the source writes through its pointers. */
module Rings {
  import opened Kernel
  import opened Sequences

  datatype Links = Links(next: map<nat, nat>, prev: map<nat, nat>)

  // ---------------------------------------------------------------- what a ring is

  function Succ(i: nat, n: nat): nat {
    if i + 1 == n then 0 else i + 1
  }

  /** `s` lists the nodes of a ring in the order of the next pointers, and prev is the inverse of next. */
  ghost predicate Ring(l: Links, s: seq<nat>) {
    && s != [] && NoDup(s) && NULL !in s
    && forall i :: 0 <= i < |s| ==> LinkedAt(l, s, i)
  }

  /** Node `i` and its successor point to each other. */
  predicate LinkedAt(l: Links, s: seq<nat>, i: nat)
    requires i < |s|
  {
    var x, y := s[i], s[Succ(i, |s|)];
    x in l.next && y in l.prev && l.next[x] == y && l.prev[y] == x
  }

  /** What a ring says about its node `i`. */
  lemma RingAt(l: Links, s: seq<nat>, i: nat)
    requires Ring(l, s) && i < |s|
    ensures s[i] in l.next && s[i] in l.prev && s[i] != NULL
    ensures l.next[s[i]] == s[Succ(i, |s|)]
    ensures s[Succ(i, |s|)] in l.prev && l.prev[s[Succ(i, |s|)]] == s[i]
    ensures l.prev[s[i]] == s[if i == 0 then |s| - 1 else i - 1]
    ensures l.next[s[i]] in l.next
  {
    assert LinkedAt(l, s, i);
    assert LinkedAt(l, s, Succ(i, |s|));
    assert LinkedAt(l, s, if i == 0 then |s| - 1 else i - 1);
  }

  // ---------------------------------------------------------------- the operations as link updates

  function InitLinks(l: Links, node: nat): Links {
    Links(l.next[node := node], l.prev[node := node])
  }

  function AddLinks(l: Links, head: nat, node: nat): Links
    requires head in l.next
  {
    var first := l.next[head];
    var prev := if first != NULL then l.prev[first := node] else l.prev;
    Links(l.next[node := first][head := node], prev[node := head])
  }

  function DeleteLinks(l: Links, node: nat): Links
    requires node in l.next && node in l.prev
  {
    Links(l.next[l.prev[node] := l.next[node]], l.prev[l.next[node] := l.prev[node]])
  }

  // ---------------------------------------------------------------- their effect on rings

  /** A fresh node forms a ring of its own. */
  lemma InitRing(l: Links, node: nat)
    requires node != NULL
    ensures Ring(InitLinks(l, node), [node])
  {
    assert LinkedAt(InitLinks(l, node), [node], 0);
  }

  /** clist_add puts the node right after the head. */
  lemma AddRing(l: Links, s: seq<nat>, node: nat)
    requires Ring(l, s) && node != NULL && node !in s
    ensures s[0] in l.next
    ensures Ring(AddLinks(l, s[0], node), [s[0], node] + s[1..])
  {
    RingAt(l, s, 0);
    var m, t := AddLinks(l, s[0], node), [s[0], node] + s[1..];
    AddNoDup(s, node);
    assert NULL !in t;
    forall i | 0 <= i < |t| ensures LinkedAt(m, t, i) {
      AddLink(l, s, node, i);
    }
  }

  lemma AddNoDup(s: seq<nat>, node: nat)
    requires s != [] && NoDup(s) && node !in s
    ensures NoDup([s[0], node] + s[1..])
  {
    var t := [s[0], node] + s[1..];
    forall i, j | 0 <= i < j < |t| ensures t[i] != t[j] {
      assert j >= 2 ==> t[j] == s[j - 1];
      assert i >= 2 ==> t[i] == s[i - 1];
    }
  }

  lemma AddLink(l: Links, s: seq<nat>, node: nat, i: nat)
    requires Ring(l, s) && node != NULL && node !in s && i <= |s|
    ensures s[0] in l.next
    ensures LinkedAt(AddLinks(l, s[0], node), [s[0], node] + s[1..], i)
  {
    RingAt(l, s, 0);
    var m, t := AddLinks(l, s[0], node), [s[0], node] + s[1..];
    var first := s[Succ(0, |s|)];
    if i >= 2 {
      RingAt(l, s, i - 1);
      assert t[i] == s[i - 1];
      assert t[Succ(i, |t|)] == s[Succ(i - 1, |s|)];
    } else if i == 1 {
      assert t[Succ(1, |t|)] == first;
    }
  }

  /** Two neighbours in the ring without its node `i`: they were neighbours before, or node `i`
      stood between them. */
  lemma DropNeighbours(s: seq<nat>, i: nat, j: nat)
    requires |s| > 1 && i < |s| && j < |s| - 1 && NoDup(s)
    ensures var t, a := DropAt(s, i), if j < i then j else j + 1;
      && t[j] == s[a]
      && t[Succ(j, |t|)] == s[if Succ(a, |s|) == i then Succ(i, |s|) else Succ(a, |s|)]
  {
    var t, a := DropAt(s, i), if j < i then j else j + 1;
    var c := if Succ(a, |s|) == i then Succ(i, |s|) else Succ(a, |s|);
    assert c != i;
    if c < i {
      assert c == Succ(j, |t|);
    } else {
      assert c - 1 == Succ(j, |t|);
    }
  }

  /** clist_delete_node takes exactly that node out, and the node keeps its own two pointers. */
  lemma DeleteRing(l: Links, s: seq<nat>, i: nat)
    requires Ring(l, s) && |s| > 1 && i < |s|
    ensures s[i] in l.next && s[i] in l.prev
    ensures Ring(DeleteLinks(l, s[i]), DropAt(s, i))
    ensures DeleteLinks(l, s[i]).next[s[i]] == l.next[s[i]] && DeleteLinks(l, s[i]).prev[s[i]] == l.prev[s[i]]
  {
    RingAt(l, s, i);
    var m, t := DeleteLinks(l, s[i]), DropAt(s, i);
    forall j | 0 <= j < |t| ensures LinkedAt(m, t, j) {
      DeleteLink(l, s, i, j);
    }
    DropNoDup(s, i);
  }

  lemma DropNoDup(s: seq<nat>, i: nat)
    requires NoDup(s) && i < |s|
    ensures NoDup(DropAt(s, i)) && forall x :: x in DropAt(s, i) ==> x in s
  {
    var t := DropAt(s, i);
    assert forall j :: 0 <= j < |t| ==> t[j] == s[if j < i then j else j + 1];
  }

  lemma DeleteLink(l: Links, s: seq<nat>, i: nat, j: nat)
    requires Ring(l, s) && |s| > 1 && i < |s| && j < |s| - 1
    ensures s[i] in l.next && s[i] in l.prev
    ensures LinkedAt(DeleteLinks(l, s[i]), DropAt(s, i), j)
  {
    RingAt(l, s, i);
    var m, t := DeleteLinks(l, s[i]), DropAt(s, i);
    DropNeighbours(s, i, j);
    var a := if j < i then j else j + 1;
    var before := if i == 0 then |s| - 1 else i - 1;
    RingAt(l, s, a);
    if Succ(a, |s|) == i {
      assert a == before;
    } else {
      assert s[a] != s[before] && s[Succ(a, |s|)] != s[Succ(i, |s|)];
    }
  }

  /** Linking or unlinking nodes of one ring leaves a disjoint ring alone. */
  lemma OtherRing(l: Links, m: Links, s: seq<nat>, r: seq<nat>)
    requires Ring(l, r) && forall x :: x in r ==> x !in s
    requires forall x :: x in l.next && x !in s ==> x in m.next && m.next[x] == l.next[x]
    requires forall x :: x in l.prev && x !in s ==> x in m.prev && m.prev[x] == l.prev[x]
    ensures Ring(m, r)
  {
    forall i | 0 <= i < |r| ensures LinkedAt(m, r, i) {
      RingAt(l, r, i);
      assert r[Succ(i, |r|)] in r && r[i] in r;
    }
  }

  // ---------------------------------------------------------------- the memory that holds the nodes

  class NodeMemory {
    var next: map<nat, nat>
    var prev: map<nat, nat>

    ghost function View(): Links
      reads this
    {
      Links(next, prev)
    }

    constructor ()
      ensures View() == Links(map[], map[])
    {
      next, prev := map[], map[];
    }

    method ClistInit(node: nat)
      modifies this
      ensures View() == if node == NULL then old(View()) else InitLinks(old(View()), node)
    {
      if node == NULL { return; }
      next := next[node := node];
      prev := prev[node := node];
    }

    method ClistAdd(head: nat, node: nat)
      requires head in next
      modifies this
      ensures View() == AddLinks(old(View()), head, node)
    {
      if next[head] != NULL {
        prev := prev[next[head] := node];
      }
      next := next[node := next[head]];
      prev := prev[node := head];
      next := next[head := node];
    }

    method ClistDeleteNode(node: nat)
      requires node != NULL ==> node in next && node in prev && next[node] in next
      modifies this
      ensures View() == if node == NULL then old(View()) else DeleteLinks(old(View()), node)
    {
      if node == NULL { return; }
      next := next[prev[node] := next[node]];
      prev := prev[next[node] := prev[node]];
    }
  }
}
