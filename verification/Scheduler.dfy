/** kernel/sched/task.c in the source's own form: task structures in memory, linked into a ring with a
    sentinel, and the search loop of task_schedule. Each operation is proved against `Tasks`. */
module Scheduler {
  import opened Kernel
  import opened Sequences
  import opened Rings
  import T = Tasks

  type TaskState = T.TaskState

  const HEAD: nat := T.HEAD
  const TASK_PRIORITY_MIN: nat := 1
  const TASK_PRIORITY_MAX: nat := 5

  // ---------------------------------------------------------------- the ring before and after a purge

  /** The node at position `p` of the ring, the sentinel standing after the last task. */
  function At(l: seq<nat>, p: nat): nat { if p < |l| then l[p] else HEAD }

  /** The tasks of `l` that are not dead, in order. */
  function Keep(l: seq<nat>, dead: set<nat>): seq<nat> {
    if l == [] then [] else if l[0] in dead then Keep(l[1..], dead) else [l[0]] + Keep(l[1..], dead)
  }

  lemma {:induction false} KeepConcat(a: seq<nat>, b: seq<nat>, dead: set<nat>)
    ensures Keep(a + b, dead) == Keep(a, dead) + Keep(b, dead)
  {
    if a == [] {
      assert a + b == b;
    } else {
      KeepConcat(a[1..], b, dead);
      assert (a + b)[1..] == a[1..] + b;
      assert (a + b)[0] == a[0];
    }
  }

  lemma {:induction false} KeepMembers(l: seq<nat>, dead: set<nat>)
    ensures forall x :: x in Keep(l, dead) <==> x in l && x !in dead
  {
    if l != [] {
      KeepMembers(l[1..], dead);
      assert forall x :: x in l <==> x == l[0] || x in l[1..];
    }
  }

  /** The first position at or after `p` whose task is not dead. */
  function NextLive(l: seq<nat>, dead: set<nat>, p: nat): (q: nat)
    requires p <= |l|
    ensures p <= q <= |l|
    ensures forall i :: p <= i < q ==> l[i] in dead
    ensures q < |l| ==> l[q] !in dead
    decreases |l| - p
  {
    if p == |l| || l[p] !in dead then p else NextLive(l, dead, p + 1)
  }

  lemma {:induction false} KeepFrom(l: seq<nat>, dead: set<nat>, p: nat)
    requires p <= |l|
    ensures var q, k := NextLive(l, dead, p), Keep(l[p..], dead);
      if q == |l| then k == [] else k != [] && k[0] == l[q]
    decreases |l| - p
  {
    if p < |l| {
      assert l[p..][1..] == l[p + 1..];
      if l[p] in dead { KeepFrom(l, dead, p + 1); }
    }
  }

  /** Where a live task stands among the remaining ones, and who comes after it. */
  lemma KeepPlace(l: seq<nat>, dead: set<nat>, i: nat) returns (k: nat)
    requires i < |l| && l[i] !in dead
    ensures var kept := Keep(l, dead);
      && k < |kept| && kept[k] == l[i]
      && At(kept, k + 1) == At(l, NextLive(l, dead, i + 1))
  {
    k := |Keep(l[..i], dead)|;
    var rest := Keep(l[i + 1..], dead);
    assert l == l[..i] + ([l[i]] + l[i + 1..]);
    KeepConcat(l[..i], [l[i]] + l[i + 1..], dead);
    assert ([l[i]] + l[i + 1..])[1..] == l[i + 1..];
    assert Keep(l, dead) == Keep(l[..i], dead) + ([l[i]] + rest);
    KeepFrom(l, dead, i + 1);
  }

  lemma RingNext(links: Links, kept: seq<nat>, k: nat)
    requires Ring(links, [HEAD] + kept) && k < |kept|
    ensures kept[k] in links.next && links.next[kept[k]] == At(kept, k + 1)
  {
    var r := [HEAD] + kept;
    assert r[k + 1] == kept[k];
    Neighbours(links, r, k + 1);
  }

  /** In the ring of the remaining tasks every next pointer leads to the next live task of the ring
      as it was before the purge. */
  lemma LiveNext(links: Links, l: seq<nat>, dead: set<nat>, i: nat)
    requires Ring(links, [HEAD] + Keep(l, dead)) && i < |l| && l[i] !in dead
    ensures l[i] in links.next && links.next[l[i]] == At(l, NextLive(l, dead, i + 1))
  {
    var k := KeepPlace(l, dead, i);
    RingNext(links, Keep(l, dead), k);
  }

  lemma HeadNext(links: Links, l: seq<nat>, dead: set<nat>)
    requires Ring(links, [HEAD] + Keep(l, dead))
    ensures HEAD in links.next && links.next[HEAD] == At(l, NextLive(l, dead, 0))
  {
    var r := [HEAD] + Keep(l, dead);
    RingAt(links, r, 0);
    KeepFrom(l, dead, 0);
    assert l[0..] == l;
  }

  /** After a purge of the dead tasks of ring `l`, a dead task still points to its old successor, and
      every other node to the next live task. */
  ghost predicate Threaded(links: Links, l: seq<nat>, dead: set<nat>) {
    && Ring(links, [HEAD] + Keep(l, dead))
    && (forall i :: 0 <= i < |l| && l[i] in dead ==> l[i] in links.next && links.next[l[i]] == At(l, i + 1))
  }

  /** Following the next pointer of the task at position `p`, dead or not, leads to a later position,
      and only dead tasks are skipped. */
  lemma StepFrom(links: Links, l: seq<nat>, dead: set<nat>, p: nat) returns (q: nat)
    requires Threaded(links, l, dead) && p < |l|
    ensures l[p] in links.next && p < q <= |l| && links.next[l[p]] == At(l, q)
    ensures forall j :: p < j < q ==> l[j] in dead
  {
    if l[p] in dead {
      q := p + 1;
    } else {
      LiveNext(links, l, dead, p);
      q := NextLive(l, dead, p + 1);
    }
  }

  /** clist_delete_node of a task between `a` and `b`: it keeps its own next pointer, and only its
      predecessor's next pointer changes. */
  lemma DeleteMiddle(links: Links, a: seq<nat>, x: nat, b: seq<nat>)
    requires Ring(links, [HEAD] + (a + [x] + b))
    ensures x in links.next && x in links.prev && links.next[x] in links.next
    ensures links.next[x] == At(b, 0) && (links.prev[x] == HEAD || links.prev[x] in a)
    ensures Ring(DeleteLinks(links, x), [HEAD] + (a + b))
    ensures DeleteLinks(links, x).next[x] == links.next[x]
  {
    var r, k := [HEAD] + (a + [x] + b), |a| + 1;
    Middle(a, x, b);
    Neighbours(links, r, k);
    DeleteRing(links, r, k);
  }

  lemma Middle(a: seq<nat>, x: nat, b: seq<nat>)
    ensures var r, k := [HEAD] + (a + [x] + b), |a| + 1;
      && r[k] == x && r[Succ(k, |r|)] == At(b, 0) && (r[k - 1] == HEAD || r[k - 1] in a)
      && DropAt(r, k) == [HEAD] + (a + b)
  {
    var r, k := [HEAD] + (a + [x] + b), |a| + 1;
    assert DropAt(r, k) == [HEAD] + (a + b);
  }

  lemma Neighbours(links: Links, r: seq<nat>, k: nat)
    requires Ring(links, r) && 1 <= k < |r|
    ensures r[k] in links.next && r[k] in links.prev
    ensures links.next[r[k]] == r[Succ(k, |r|)] && links.prev[r[k]] == r[k - 1] && links.next[r[k]] in links.next
  {
    RingAt(links, r, k);
  }

  /** clist_delete_node of the task at position `j`, all dead tasks before it being gone already. */
  lemma DeleteDead(links: Links, l: seq<nat>, dead: set<nat>, j: nat)
    requires HEAD !in l && j < |l| && l[j] in dead
    requires Ring(links, [HEAD] + (Keep(l[..j], dead) + l[j..]))
    ensures l[j] in links.next && l[j] in links.prev && links.next[l[j]] in links.next
    ensures links.next[l[j]] == At(l, j + 1)
    ensures Ring(DeleteLinks(links, l[j]), [HEAD] + (Keep(l[..j + 1], dead) + l[j + 1..]))
    ensures DeleteLinks(links, l[j]).next[l[j]] == At(l, j + 1)
    ensures links.prev[l[j]] == HEAD || (links.prev[l[j]] in l && links.prev[l[j]] !in dead)
  {
    var kept := Keep(l[..j], dead);
    assert kept + l[j..] == kept + [l[j]] + l[j + 1..];
    DeleteMiddle(links, kept, l[j], l[j + 1..]);
    assert At(l[j + 1..], 0) == At(l, j + 1);
    KeepDead(l, dead, j);
    KeepMembers(l[..j], dead);
  }

  lemma KeepDead(l: seq<nat>, dead: set<nat>, j: nat)
    requires j < |l| && l[j] in dead
    ensures Keep(l[..j + 1], dead) == Keep(l[..j], dead)
  {
    assert l[..j + 1] == l[..j] + [l[j]];
    KeepConcat(l[..j], [l[j]], dead);
    assert Keep([l[j]], dead) == [];
  }

  lemma KeepLive(l: seq<nat>, dead: set<nat>, j: nat)
    requires j < |l| && l[j] !in dead
    ensures Keep(l[..j + 1], dead) + l[j + 1..] == Keep(l[..j], dead) + l[j..]
  {
    assert l[..j + 1] == l[..j] + [l[j]];
    KeepConcat(l[..j], [l[j]], dead);
    assert l[j..] == [l[j]] + l[j + 1..];
  }

  // ---------------------------------------------------------------- tasks in memory

  /** Every task of `l` has its fields in memory. */
  ghost predicate Stored(l: seq<nat>, id: map<nat, nat>, state: map<nat, TaskState>) {
    forall i :: 0 <= i < |l| ==> l[i] in id && l[i] in state
  }

  ghost function TasksOf(l: seq<nat>, id: map<nat, nat>, state: map<nat, TaskState>): seq<T.Task>
    requires Stored(l, id, state)
  {
    seq(|l|, i requires 0 <= i < |l| => T.Task(l[i], id[l[i]], state[l[i]]))
  }

  /** The killed tasks of `l`. */
  ghost function Dead(l: seq<nat>, state: map<nat, TaskState>): set<nat> {
    set x | x in l && x in state && state[x] == T.KILLED
  }

  /** Purging the table is keeping the live tasks. */
  lemma {:induction false} KeepIsPurge(l: seq<nat>, id: map<nat, nat>, state: map<nat, TaskState>, dead: set<nat>)
    requires Stored(l, id, state) && forall x :: x in l ==> (x in dead <==> state[x] == T.KILLED)
    ensures Stored(Keep(l, dead), id, state)
    ensures TasksOf(Keep(l, dead), id, state) == T.Purge(TasksOf(l, id, state))
  {
    if l != [] {
      KeepIsPurge(l[1..], id, state, dead);
      assert TasksOf(l, id, state)[1..] == TasksOf(l[1..], id, state);
      assert TasksOf(l, id, state)[0] == T.Task(l[0], id[l[0]], state[l[0]]);
      if l[0] !in dead {
        assert TasksOf([l[0]] + Keep(l[1..], dead), id, state)
            == [T.Task(l[0], id[l[0]], state[l[0]])] + TasksOf(Keep(l[1..], dead), id, state);
      }
    }
  }

  /** Purge loop: the tasks before position `j` have been looked at. */
  ghost predicate PurgedTo(links: Links, l: seq<nat>, dead: set<nat>, j: nat) {
    && j <= |l|
    && Ring(links, [HEAD] + (Keep(l[..j], dead) + l[j..]))
    && (forall i :: 0 <= i < j && l[i] in dead ==> l[i] in links.next && links.next[l[i]] == At(l, i + 1))
  }

  /** Looking at a live task changes nothing. */
  lemma PassLive(links: Links, l: seq<nat>, dead: set<nat>, j: nat)
    requires PurgedTo(links, l, dead, j) && j < |l|
    ensures l[j] in links.next && links.next[l[j]] == At(l, j + 1)
    ensures l[j] !in dead ==> PurgedTo(links, l, dead, j + 1)
  {
    var kept := Keep(l[..j], dead);
    RingNext(links, kept + l[j..], |kept|);
    assert (kept + l[j..])[|kept|] == l[j];
    if l[j] !in dead { KeepLive(l, dead, j); }
  }

  /** Unlinking a dead task. */
  lemma PassDead(links: Links, l: seq<nat>, dead: set<nat>, j: nat)
    requires PurgedTo(links, l, dead, j) && j < |l| && l[j] in dead && HEAD !in l && NoDup(l)
    ensures l[j] in links.next && l[j] in links.prev
    ensures PurgedTo(DeleteLinks(links, l[j]), l, dead, j + 1)
  {
    DeleteDead(links, l, dead, j);
    var m := DeleteLinks(links, l[j]);
    forall i | 0 <= i < j + 1 && l[i] in dead ensures l[i] in m.next && m.next[l[i]] == At(l, i + 1) {
    }
  }

  lemma PurgeDone(links: Links, l: seq<nat>, dead: set<nat>)
    requires PurgedTo(links, l, dead, |l|)
    ensures Threaded(links, l, dead)
  {
    assert l[..|l|] == l;
    assert Keep(l, dead) + l[|l|..] == Keep(l, dead);
  }

  /** How far the search of task_schedule has come: in the first lap nothing runnable has been met
      between position `i` and `p`; in the second lap nothing after `i` and nothing before `p`. */
  ghost predicate Searched(tasks: seq<T.Task>, i: nat, p: nat, lap: nat) {
    && i < |tasks| && p <= |tasks| && lap <= 1
    && (forall j :: i < j < (if lap == 0 then p else |tasks|) ==> !T.Runnable(tasks[j].state))
    && (lap == 0 ==> i < p)
    && (lap == 1 ==> forall j :: 0 <= j < p ==> !T.Runnable(tasks[j].state))
  }

  /** The first runnable task that the search meets is the first in rotated ring order. */
  lemma FoundIsFirst(tasks: seq<T.Task>, i: nat, p: nat, lap: nat)
    requires Searched(tasks, i, p, lap) && p < |tasks| && T.Runnable(tasks[p].state)
    ensures var r := T.Rotate(tasks, i);
      T.FirstRunnable(r) < |tasks| && r[T.FirstRunnable(r)] == tasks[p]
  {
    var r, h := T.Rotate(tasks, i), |tasks| - i - 1;
    var k := if lap == 0 then p - i - 1 else h + p;
    assert r[k] == tasks[p];
    forall j | 0 <= j < k ensures !T.Runnable(r[j].state) {
      assert r[j] == if j < h then tasks[i + 1 + j] else tasks[j - h];
    }
    assert T.FirstRunnable(r) == k;
  }

  /** Fields of other tasks do not matter. */
  lemma TasksStay(l: seq<nat>, id: map<nat, nat>, state: map<nat, TaskState>, id': map<nat, nat>, state': map<nat, TaskState>)
    requires Stored(l, id, state)
    requires forall x :: x in l ==> x in id' && x in state' && id'[x] == id[x] && state'[x] == state[x]
    ensures Stored(l, id', state') && TasksOf(l, id', state') == TasksOf(l, id, state)
  {
  }

  /** Marking one task as killed. */
  lemma MarkTask(l: seq<nat>, id: map<nat, nat>, state: map<nat, TaskState>, i: nat)
    requires Stored(l, id, state) && i < |l|
    requires forall x, y :: 0 <= x < y < |l| ==> TasksOf(l, id, state)[x].addr != TasksOf(l, id, state)[y].addr
    ensures Stored(l, id, state[l[i] := T.KILLED])
    ensures var t := TasksOf(l, id, state);
      TasksOf(l, id, state[l[i] := T.KILLED]) == t[i := t[i].(state := T.KILLED)]
  {
    var t := TasksOf(l, id, state);
    forall x | 0 <= x < |l| && x != i ensures l[x] != l[i] {
      if x < i { assert t[x].addr != t[i].addr; } else { assert t[i].addr != t[x].addr; }
    }
  }

  lemma TasksCons(x: nat, l: seq<nat>, id: map<nat, nat>, state: map<nat, TaskState>)
    requires Stored(l, id, state) && x in id && x in state
    ensures Stored([x] + l, id, state)
    ensures TasksOf([x] + l, id, state) == [T.Task(x, id[x], state[x])] + TasksOf(l, id, state)
  {
  }

  lemma RingStart(links: Links, l: seq<nat>)
    requires Ring(links, [HEAD] + l)
    ensures HEAD in links.next && links.next[HEAD] == At(l, 0) && HEAD !in l && NoDup(l)
  {
    var r := [HEAD] + l;
    assert r[0] == HEAD;
    RingAt(links, r, 0);
    assert forall k :: 0 <= k < |l| ==> r[k + 1] == l[k];
  }

  lemma LinkFirst(links: Links, l: seq<nat>, x: nat)
    requires Ring(links, [HEAD] + l) && HEAD in links.next && x != NULL && x != HEAD && x !in l
    ensures Ring(AddLinks(links, HEAD, x), [HEAD] + ([x] + l))
  {
    AddRing(links, [HEAD] + l, x);
    assert [HEAD, x] + ([HEAD] + l)[1..] == [HEAD] + ([x] + l);
  }

  lemma LaterIds(s: T.State)
    requires T.Inv(s)
    ensures T.Inv(s.(lastId := s.lastId + 1))
  {
  }

  /** The ring and the tasks that a purge starts from. */
  ghost predicate Original(l: seq<nat>, id: map<nat, nat>, state: map<nat, TaskState>, lastId: nat) {
    && Stored(l, id, state) && HEAD !in l && NoDup(l)
    && T.Table(TasksOf(l, id, state), lastId) && T.HasIdle(TasksOf(l, id, state))
  }

  lemma PurgeStarts(links: Links, l: seq<nat>, dead: set<nat>)
    requires Ring(links, [HEAD] + l)
    ensures HEAD in links.next && links.next[HEAD] == At(l, 0) && HEAD !in l
    ensures PurgedTo(links, l, dead, 0) && Keep(l[..0], dead) + l[0..] == l
  {
    RingStart(links, l);
    assert l[..0] == [] && l[0..] == l;
    assert Keep([], dead) + l == l;
  }

  lemma PurgeEnds(links: Links, l: seq<nat>, id0: map<nat, nat>, id: map<nat, nat>, state: map<nat, TaskState>)
    requires Stored(l, id0, state) && PurgedTo(links, l, Dead(l, state), |l|)
    requires forall i :: 0 <= i < |l| && l[i] !in Dead(l, state) ==> l[i] in id && id[l[i]] == id0[l[i]]
    ensures var kept := Keep(l, Dead(l, state));
      && Keep(l[..|l|], Dead(l, state)) + l[|l|..] == kept
      && Threaded(links, l, Dead(l, state)) && Stored(kept, id, state)
      && (forall x :: x in kept ==> x in id && x in id0 && id[x] == id0[x])
  {
    var dead := Dead(l, state);
    PurgeDone(links, l, dead);
    assert l[..|l|] == l && l[|l|..] == [];
    KeepMembers(l, dead);
    forall x | x in Keep(l, dead) ensures x in id && x in id0 && x in state && id[x] == id0[x] {
      assert l[IndexOf(l, x)] == x;
    }
  }

  /** In the middle of the purge the killed task at position `j` is the one found under its id. */
  lemma PurgeFinds(l: seq<nat>, id0: map<nat, nat>, state: map<nat, TaskState>, id: map<nat, nat>, dead: set<nat>, j: nat, lastId: nat)
    requires Stored(l, id0, state) && T.Table(TasksOf(l, id0, state), lastId) && T.HasIdle(TasksOf(l, id0, state))
    requires dead == Dead(l, state) && j < |l| && l[j] in dead
    requires forall i :: 0 <= i < |l| && (j <= i || l[i] !in dead) ==> l[i] in id && id[l[i]] == id0[l[i]]
    ensures var o := Keep(l[..j], dead) + l[j..];
      && Stored(o, id, state) && id[l[j]] != 0
      && T.IndexOfId(TasksOf(o, id, state), id[l[j]]) == |Keep(l[..j], dead)|
      && o[|Keep(l[..j], dead)|] == l[j]
      && DropAt(o, |Keep(l[..j], dead)|) == Keep(l[..j], dead) + l[j + 1..]
  {
    var t, kept := TasksOf(l, id0, state), Keep(l[..j], dead);
    var o, k := kept + l[j..], |kept|;
    KeepMembers(l[..j], dead);
    forall i | 0 <= i < |o| ensures o[i] in id && o[i] in state && (i < k ==> id[o[i]] != id0[l[j]]) {
      if i < k {
        assert o[i] in kept;
        var h := IndexOf(l[..j], o[i]);
        assert l[h] == o[i] && t[h].id != t[j].id;
      } else {
        assert o[i] == l[j + (i - k)];
      }
    }
    var d :| 0 <= d < |t| && T.IsIdle(t[d]);
    assert d != j && (d < j ==> t[d].id != t[j].id) && (j < d ==> t[j].id != t[d].id);
    var u := TasksOf(o, id, state);
    assert u[k].id == id[l[j]];
    assert forall i :: 0 <= i < k ==> u[i].id != id[l[j]];
    assert T.IndexOfId(u, id[l[j]]) == k;
  }

  /** `tasks` describes the ring `l` with the states in memory. */
  ghost predicate Snapshot(l: seq<nat>, tasks: seq<T.Task>, state: map<nat, TaskState>) {
    && |tasks| == |l| && HEAD !in l && NULL !in l
    && (forall j :: 0 <= j < |l| ==> l[j] in state && tasks[j].addr == l[j] && tasks[j].state == state[l[j]])
  }

  /** Going from position `p` to `q` past dead tasks passes no runnable one. */
  lemma SkipDead(l: seq<nat>, tasks: seq<T.Task>, state: map<nat, TaskState>, i: nat, p: nat, q: nat, lap: nat)
    requires Snapshot(l, tasks, state) && i < |l| && p < q <= |l|
    requires (p == i && lap == 0) || (Searched(tasks, i, p, lap) && !T.Runnable(tasks[p].state))
    requires forall j :: p < j < q ==> l[j] in Dead(l, state)
    ensures Searched(tasks, i, q, lap)
  {
    forall j | p < j < q ensures !T.Runnable(tasks[j].state) {
      assert l[j] in Dead(l, state);
    }
  }

  /** Coming back to the sentinel starts the second lap. */
  lemma SecondLap(l: seq<nat>, tasks: seq<T.Task>, state: map<nat, TaskState>, i: nat, q: nat)
    requires Snapshot(l, tasks, state) && Searched(tasks, i, |l|, 0) && q <= |l|
    requires forall j :: 0 <= j < q ==> l[j] in Dead(l, state)
    ensures Searched(tasks, i, q, 1)
  {
    forall j | 0 <= j < q ensures !T.Runnable(tasks[j].state) {
      assert l[j] in Dead(l, state);
    }
  }

  /** The second lap cannot run out, since the idle task is runnable. */
  lemma FirstLap(tasks: seq<T.Task>, i: nat, lap: nat)
    requires T.HasIdle(tasks) && Searched(tasks, i, |tasks|, lap)
    ensures lap == 0
  {
    var d :| 0 <= d < |tasks| && T.IsIdle(tasks[d]);
  }

  /** Every node of the old ring still has a next pointer. */
  lemma RingHas(links: Links, l: seq<nat>, dead: set<nat>, p: nat)
    requires Threaded(links, l, dead) && p < |l|
    ensures l[p] in links.next
  {
    var _ := StepFrom(links, l, dead, p);
  }

  /** The state updates at the end of task_schedule. */
  function SwitchStates(state: map<nat, TaskState>, prev: nat, next: nat): map<nat, TaskState>
    requires prev in state
  {
    (if state[prev] == T.RUNNING then state[prev := T.WAITING] else state)[next := T.RUNNING]
  }

  /** They turn the purged table into the one that `Tasks.Switch` describes. */
  lemma Switched(l: seq<nat>, id0: map<nat, nat>, id: map<nat, nat>, state: map<nat, TaskState>, prev: nat, next: nat, lastId: nat)
    requires Original(l, id0, state, lastId) && prev in state
    requires forall x :: x in Keep(l, Dead(l, state)) ==> x in id && x in id0 && id[x] == id0[x]
    ensures var kept, after := Keep(l, Dead(l, state)), SwitchStates(state, prev, next);
      && Stored(kept, id, after)
      && TasksOf(kept, id, after) == T.Switch(T.Purge(TasksOf(l, id0, state)), prev, next)
  {
    var dead := Dead(l, state);
    var kept, after := Keep(l, dead), SwitchStates(state, prev, next);
    KeepIsPurge(l, id0, state, dead);
    forall j | 0 <= j < |kept| ensures kept[j] in id && kept[j] in after {
      assert kept[j] in kept;
    }
    var a, b := TasksOf(kept, id, after), T.Switch(T.Purge(TasksOf(l, id0, state)), prev, next);
    forall j | 0 <= j < |kept| ensures a[j] == b[j] {
      assert kept[j] in kept;
      assert T.Purge(TasksOf(l, id0, state))[j] == T.Task(kept[j], id0[kept[j]], state[kept[j]]);
    }
  }

  lemma FoundInRing(tasks: seq<T.Task>, i: nat, l: seq<nat>, next: nat)
    requires |tasks| == |l| && i < |l| && HEAD !in l && forall j :: 0 <= j < |l| ==> tasks[j].addr == l[j]
    requires var r := T.Rotate(tasks, i); T.FirstRunnable(r) < |tasks| && next == r[T.FirstRunnable(r)].addr
    ensures next in l && next != HEAD
  {
    var r := T.Rotate(tasks, i);
    var k, h := T.FirstRunnable(r), |tasks| - i - 1;
    assert r[k] == tasks[if k < h then i + 1 + k else k - h];
  }

  /** The ring `l` and the tasks in memory that task_schedule works on. */
  ghost predicate Scheduling(s: T.State, l: seq<nat>, id: map<nat, nat>, state: map<nat, TaskState>) {
    && Original(l, id, state, s.lastId) && s.tasks == TasksOf(l, id, state) && Snapshot(l, s.tasks, state)
    && T.IndexOfAddr(s.tasks, s.current) < |l| && l[T.IndexOfAddr(s.tasks, s.current)] == s.current
  }

  lemma ScheduleParts(s: T.State, l: seq<nat>, id: map<nat, nat>, state: map<nat, TaskState>)
    requires Scheduling(s, l, id, state)
    ensures Original(l, id, state, s.lastId) && Snapshot(l, s.tasks, state) && T.HasIdle(s.tasks)
    ensures T.IndexOfAddr(s.tasks, s.current) < |l| && l[T.IndexOfAddr(s.tasks, s.current)] == s.current
  {
  }

  /** The new table, given the task that the search has found. */
  lemma TickIs(s: T.State, l: seq<nat>, id0: map<nat, nat>, id: map<nat, nat>, state: map<nat, TaskState>, next: nat)
    requires Scheduling(s, l, id0, state)
    requires forall x :: x in Keep(l, Dead(l, state)) ==> x in id && x in id0 && id[x] == id0[x]
    requires var r := T.Rotate(s.tasks, T.IndexOfAddr(s.tasks, s.current));
      T.FirstRunnable(r) < |s.tasks| && next == r[T.FirstRunnable(r)].addr
    ensures var kept := Keep(l, Dead(l, state));
      && s.current in state && next != HEAD && s.current != HEAD
      && Stored(kept, id, SwitchStates(state, s.current, next))
      && T.State(TasksOf(kept, id, SwitchStates(state, s.current, next)), next, s.lastId) == T.Tick(s)
      && (forall x :: x in kept ==> x in l)
  {
    var i := T.IndexOfAddr(s.tasks, s.current);
    assert s.current in l;
    FoundInRing(s.tasks, i, l, next);
    Switched(l, id0, id, state, s.current, next, s.lastId);
    KeepMembers(l, Dead(l, state));
  }

  class TaskScheduler {
    const nodes: NodeMemory
    var id: map<nat, nat>
    var state: map<nat, TaskState>
    var ticks: map<nat, nat>
    var current: nat
    var lastId: nat
    var enabled: bool
    ghost var order: seq<nat>

    /** The ring holds the tasks of `order` after the sentinel, and their fields are in memory. */
    ghost predicate Wired()
      reads this, nodes
    {
      && Ring(nodes.View(), [HEAD] + order) && Stored(order, id, state)
      && HEAD in state && state[HEAD] == T.INVALID
    }

    ghost function View(): T.State
      requires Wired()
      reads this, nodes
    {
      T.State(TasksOf(order, id, state), current, lastId)
    }

    ghost predicate Valid()
      reads this, nodes
    {
      Wired() && T.Inv(View()) && forall x :: x in order ==> x in ticks
    }

    /** task_init, with the idle task's structure allocated at `idle`. */
    constructor (idle: nat)
      requires idle > HEAD
      ensures Valid() && View() == T.State([T.Task(idle, 0, T.RUNNING)], idle, 1) && enabled && fresh(nodes)
    {
      nodes := new NodeMemory();
      id := map[idle := 0];
      state := map[HEAD := T.INVALID, idle := T.RUNNING];
      ticks := map[idle := 0];
      current, lastId, enabled := idle, 1, true;
      order := [idle];
      new;
      nodes.ClistInit(HEAD);
      InitRing(nodes.View(), HEAD);
      AddRing(nodes.View(), [HEAD], idle);
      assert [HEAD, idle] + [HEAD][1..] == [HEAD] + [idle];
      nodes.ClistAdd(HEAD, idle);
      assert T.IsIdle(View().tasks[0]) && T.IsCurrent(View().tasks[0], idle);
    }

    /** task_get_from_id: the task's address, or NULL. */
    method GetFromId(taskId: nat) returns (task: nat)
      requires Wired()
      ensures var i := T.IndexOfId(View().tasks, taskId);
        task == if i < |order| then order[i] else NULL
    {
      ghost var j := 0;
      RingStart(nodes.View(), order);
      task := nodes.next[HEAD];
      while task != HEAD
        invariant 0 <= j <= |order| && task == At(order, j)
        invariant forall k :: 0 <= k < j ==> View().tasks[k].id != taskId
        decreases |order| - j
      {
        if id[task] == taskId {
          assert View().tasks[j].id == taskId;
          assert T.IndexOfId(View().tasks, taskId) == j;
          return task;
        }
        RingNext(nodes.View(), order, j);
        task := nodes.next[task];
        j := j + 1;
      }
      return NULL;
    }

    /** task_alloc_struct, with kmalloc having returned `task`. */
    method AllocStruct(task: nat, initial: TaskState)
      requires Wired() && task > HEAD && task !in order
      modifies this, nodes
      ensures Wired() && View() == old(View()).(lastId := old(lastId) + 1)
      ensures ticks.Keys == old(ticks).Keys + {task}
      ensures order == old(order) && task in id && task in state && id[task] == old(lastId) && state[task] == initial
    {
      TasksStay(order, id, state, id[task := lastId], state[task := initial]);
      id := id[task := lastId];
      state := state[task := initial];
      ticks := ticks[task := 0];
      lastId := lastId + 1;
      assert forall x :: x in [HEAD] + order ==> x == HEAD || x in order;
      OtherRing(nodes.View(), InitLinks(nodes.View(), task), [task], [HEAD] + order);
      nodes.ClistInit(task);
    }

    /** clist_add of a new task after the sentinel. */
    method LinkTask(task: nat)
      requires Wired() && task != NULL && task != HEAD && task !in order && task in id && task in state
      modifies this`order, nodes
      ensures Wired() && order == [task] + old(order)
      ensures View() == old(View()).(tasks := [T.Task(task, id[task], state[task])] + old(View()).tasks)
    {
      RingStart(nodes.View(), order);
      LinkFirst(nodes.View(), order, task);
      nodes.ClistAdd(HEAD, task);
      TasksCons(task, order, id, state);
      order := [task] + order;
    }

    /** task_create. The outcomes of the allocations it makes are parameters: `mem` is where kmalloc put
        the structure, and the flags say whether the later stages succeed. */
    method Create(initial: TaskState, priority: nat, mem: Option<nat>, stackOk: bool, spaceOk: bool, archOk: bool)
      returns (task: nat)
      requires Valid() && lastId + 1 < T.IDS
      requires mem.Some? ==> mem.value > HEAD && mem.value !in order
      modifies this, nodes
      ensures Valid()
      ensures var ok := (initial == T.PAUSED || initial == T.WAITING) && TASK_PRIORITY_MIN <= priority <= TASK_PRIORITY_MAX;
        && (task != NULL <==> ok && mem.Some? && stackOk && spaceOk && archOk)
        && (task != NULL ==> task == mem.value && View() == T.Create(old(View()), task, initial))
        && (task != NULL ==> order == [task] + old(order) && task in state && state[task] == initial && task in id && id[task] == old(lastId))
        && (task == NULL ==> View() == old(View()).(lastId := old(lastId) + if ok && mem.Some? then 1 else 0))
    {
      if initial != T.PAUSED && initial != T.WAITING { return NULL; }
      if priority < TASK_PRIORITY_MIN || priority > TASK_PRIORITY_MAX { return NULL; }
      if mem.None? { return NULL; }
      var complete := stackOk && spaceOk && archOk;
      CreateAt(mem.value, initial, complete);
      if complete { return mem.value; }
      return NULL;
    }

    /** The part of task_create that works on the task structure. */
    method CreateAt(task: nat, initial: TaskState, complete: bool)
      requires Valid() && task > HEAD && task !in order && (initial == T.WAITING || initial == T.PAUSED)
      modifies this, nodes
      ensures Valid()
      ensures View() == if complete then T.Create(old(View()), task, initial) else old(View()).(lastId := old(lastId) + 1)
      ensures complete ==> order == [task] + old(order) && task in state && state[task] == initial && task in id && id[task] == old(lastId)
    {
      ghost var s := View();
      AllocStruct(task, initial);
      if complete {
        LinkTask(task);
        assert T.Inv(View()) by {
          assert forall i :: 0 <= i < |s.tasks| ==> s.tasks[i].addr == old(order)[i];
          T.CreateKeepsInv(s, task, initial);
        }
      } else {
        LaterIds(s);
      }
    }

    /** task_kill. */
    method Kill(taskId: nat) returns (rv: int)
      requires Valid()
      modifies this`state
      ensures Valid() && View() == T.Kill(old(View()), taskId).1
      ensures rv == (if T.Kill(old(View()), taskId).0 then E_SUCCESS else E_ERROR)
    {
      if taskId == 0 { return E_ERROR; }
      var task := GetFromId(taskId);
      ghost var s, i := View(), T.IndexOfId(View().tasks, taskId);
      T.KillKeepsInv(s, taskId);
      if task == NULL { return E_ERROR; }
      if state[task] == T.INVALID { return E_ERROR; }
      if state[task] != T.RUNNING && state[task] != T.WAITING && state[task] != T.PAUSED { return E_ERROR; }
      MarkTask(order, id, state, i);
      state := state[task := T.KILLED];
      return E_SUCCESS;
    }

    /** task_exit_current; the idle task never calls it. */
    method ExitCurrent() returns (rv: int)
      requires Valid() && View().tasks[T.IndexOfId(View().tasks, 0)].addr != current
      modifies this`state
      ensures Valid() && View() == T.Exit(old(View())) && rv == E_SUCCESS
    {
      ghost var s, i := View(), T.IndexOfAddr(View().tasks, current);
      T.CanSchedule(s);
      T.ExitKeepsInv(s);
      MarkTask(order, id, state, i);
      state := state[current := T.KILLED];
      return E_SUCCESS;
    }

    /** task_purge: a killed task leaves the ring, keeping its own next pointer. Freeing the structure
        lets the slab allocator overwrite its first word, which holds the id. */
    method Purge(taskId: nat, junk: nat -> nat) returns (rv: int)
      requires Wired()
      modifies this`id, this`order, nodes
      ensures var i := T.IndexOfId(old(View()).tasks, taskId);
        if taskId == 0 || i == |old(order)| || old(state)[old(order)[i]] != T.KILLED
        then rv == E_ERROR && order == old(order) && id == old(id) && nodes.View() == old(nodes.View())
        else rv == E_SUCCESS && order == DropAt(old(order), i) && id == old(id)[old(order)[i] := junk(old(order)[i])]
             && Ring(nodes.View(), [HEAD] + order)
             && old(order)[i] in old(nodes.View()).next && old(order)[i] in old(nodes.View()).prev
             && nodes.View() == DeleteLinks(old(nodes.View()), old(order)[i])
    {
      if taskId == 0 { return E_ERROR; }
      var task := GetFromId(taskId);
      ghost var i := T.IndexOfId(View().tasks, taskId);
      if task == NULL { return E_ERROR; }
      if state[task] != T.KILLED { return E_ERROR; }
      assert order == order[..i] + [task] + order[i + 1..];
      DeleteMiddle(nodes.View(), order[..i], task, order[i + 1..]);
      nodes.ClistDeleteNode(task);
      order := DropAt(order, i);
      id := id[task := junk(task)];
      return E_SUCCESS;
    }

    /** The purge of ring `l` has looked at the tasks before position `j`. */
    ghost predicate Midway(l: seq<nat>, id0: map<nat, nat>, j: nat)
      reads this, nodes
    {
      && PurgedTo(nodes.View(), l, Dead(l, state), j)
      && order == Keep(l[..j], Dead(l, state)) + l[j..]
      && HEAD in state && state[HEAD] == T.INVALID
      && (forall i :: 0 <= i < |l| && (j <= i || l[i] !in Dead(l, state)) ==> l[i] in id && l[i] in id0 && id[l[i]] == id0[l[i]])
    }

    /** One round of task_purge_killed_tasks at the task in position `j`; the successor is read first. */
    method PurgeRound(entry: nat, junk: nat -> nat, ghost l: seq<nat>, ghost id0: map<nat, nat>, ghost j: nat) returns (tmp: nat)
      requires Original(l, id0, state, lastId) && Midway(l, id0, j) && j < |l| && entry == l[j]
      modifies this`id, this`order, nodes
      ensures Midway(l, id0, j + 1) && tmp == At(l, j + 1)
    {
      ghost var dead := Dead(l, state);
      PassLive(nodes.View(), l, dead, j);
      tmp := nodes.next[entry];
      if state[entry] == T.KILLED {
        PurgeFinds(l, id0, state, id, dead, j, lastId);
        PassDead(nodes.View(), l, dead, j);
        KeepDead(l, dead, j);
        var _ := Purge(id[entry], junk);
      } else {
        KeepLive(l, dead, j);
      }
    }

    /** task_purge_killed_tasks, walking the ring with the successor read ahead: the killed tasks leave
        the ring, the others stay in order, and each purged task still points to its old successor. */
    method PurgeKilledTasks(junk: nat -> nat)
      requires Wired() && Original(order, id, state, lastId)
      modifies this`id, this`order, nodes
      ensures Wired()
      ensures var dead := Dead(old(order), state);
        && order == Keep(old(order), dead) && Threaded(nodes.View(), old(order), dead)
        && (forall x :: x in order ==> x in id && x in old(id) && id[x] == old(id)[x])
    {
      hide Midway, Keep, Threaded, Dead, Original;
      ghost var l, id0 := order, id;
      ghost var j := 0;
      StartPurge();
      var entry := nodes.next[HEAD];
      while entry != HEAD
        invariant 0 <= j <= |l| && entry == At(l, j) && Midway(l, id0, j)
        decreases |l| - j
      {
        entry := PurgeRound(entry, junk, l, id0, j);
        j := j + 1;
      }
      FinishPurge(l, id0, j);
    }

    lemma StartPurge()
      requires Wired() && Original(order, id, state, lastId)
      ensures Midway(order, id, 0) && HEAD in nodes.next && nodes.next[HEAD] == At(order, 0)
    {
      PurgeStarts(nodes.View(), order, Dead(order, state));
    }

    lemma FinishPurge(l: seq<nat>, id0: map<nat, nat>, j: nat)
      requires Original(l, id0, state, lastId) && Midway(l, id0, j) && j <= |l| && At(l, j) == HEAD
      ensures Wired() && order == Keep(l, Dead(l, state)) && Threaded(nodes.View(), l, Dead(l, state))
      ensures forall x :: x in order ==> x in id && x in id0 && id[x] == id0[x]
    {
      assert j == |l|;
      PurgeEnds(nodes.View(), l, id0, id, state);
    }

    /** What the invariant says about the ring that task_schedule starts from. */
    lemma ScheduleStarts()
      requires Valid()
      ensures Scheduling(View(), order, id, state) && current in ticks
    {
      RingStart(nodes.View(), order);
      T.CanSchedule(View());
      assert forall x :: x in order ==> x in [HEAD] + order;
    }

    /** The search loop of task_schedule, started at the successor of the current task. It may pass
        through tasks that have just been purged, and wraps round through the sentinel. */
    method FindNext(ghost l: seq<nat>, ghost i: nat, ghost tasks: seq<T.Task>) returns (next: nat)
      requires Snapshot(l, tasks, state) && i < |l| && l[i] == current
      requires Threaded(nodes.View(), l, Dead(l, state)) && HEAD in state && state[HEAD] == T.INVALID
      requires T.HasIdle(tasks)
      ensures var r := T.Rotate(tasks, i);
        T.FirstRunnable(r) < |tasks| && next == r[T.FirstRunnable(r)].addr
    {
      ghost var dead := Dead(l, state);
      ghost var p: nat := StepFrom(nodes.View(), l, dead, i);
      ghost var lap: nat := 0;
      SkipDead(l, tasks, state, i, i, p, 0);
      var nextNode := nodes.next[current];
      var found := false;
      next := HEAD;
      while !found
        invariant Searched(tasks, i, p, lap)
        invariant !found ==> nextNode == At(l, p)
        invariant found ==> p < |l| && next == l[p] && T.Runnable(tasks[p].state)
        decreases !found, if lap == 0 then 2 * |l| + 1 - p else |l| - p
      {
        if nextNode == NULL { nextNode := HEAD; }
        var curr := nextNode;
        if state[curr] == T.WAITING || state[curr] == T.RUNNING {
          next := curr;
          found := true;
          RingHas(nodes.View(), l, dead, p);
        } else if p == |l| {
          FirstLap(tasks, i, lap);
          HeadNext(nodes.View(), l, dead);
          ghost var q := NextLive(l, dead, 0);
          SecondLap(l, tasks, state, i, q);
          p, lap := q, 1;
        } else {
          ghost var q: nat := StepFrom(nodes.View(), l, dead, p);
          SkipDead(l, tasks, state, i, p, q, lap);
          p := q;
        }
        nextNode := nodes.next[nextNode];
      }
      FoundIsFirst(tasks, i, p, lap);
    }

    /** task_schedule: disabled, it does nothing; enabled, it counts a tick, purges, and switches to the
        first runnable task after the current one in the ring as it was before the purge. */
    method Schedule(junk: nat -> nat)
      requires Valid()
      modifies this, nodes
      ensures Valid() && enabled == old(enabled)
      ensures !enabled ==> View() == old(View()) && ticks == old(ticks)
      ensures enabled ==> View() == T.Tick(old(View()))
      ensures enabled ==> old(current) in old(ticks) && ticks == old(ticks)[old(current) := old(ticks)[old(current)] + 1]
    {
      hide T.Inv, T.Tick, Scheduling, Ring;
      if !enabled { return; }
      ghost var s := View();
      T.TickKeepsInv(s);
      ScheduleStarts();
      ticks := ticks[current := ticks[current] + 1];
      Advance(junk);
    }

    /** Purge, search and switch. */
    method Advance(junk: nat -> nat)
      requires Wired() && Scheduling(View(), order, id, state)
      modifies this`id, this`order, this`state, this`current, nodes
      ensures Wired() && View() == T.Tick(old(View()))
      ensures forall x :: x in order ==> x in old(order)
    {
      hide Threaded, Dead, Keep, T.Tick, Scheduling, Original, Snapshot, T.HasIdle;
      ghost var s, l, id0, state0 := View(), order, id, state;
      ScheduleParts(s, l, id, state);
      ghost var i := T.IndexOfAddr(s.tasks, s.current);
      PurgeKilledTasks(junk);
      var prev := current;
      var next := FindNext(l, i, s.tasks);
      current := next;
      TickIs(s, l, id0, id, state0, next);
      if state[prev] == T.RUNNING {
        state := state[prev := T.WAITING];
      }
      state := state[next := T.RUNNING];
    }
  }
}
