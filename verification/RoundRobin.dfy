/** Properties of runs of the scheduler: safety of every run, and fairness of consecutive calls to
    task_schedule. */
module RoundRobin {
  import Sequences
  import opened Tasks

  // ---------------------------------------------------------------- runs

  datatype Op = Spawn(addr: nat, state: TaskState) | KillId(id: nat) | ExitCurrent | Timer

  /** What the environment guarantees: kmalloc returns memory of no live task, ids have not wrapped
      round, and the idle task does not exit. */
  ghost predicate Enabled(s: State, op: Op) {
    match op
    case Spawn(addr, state) =>
      && (state == WAITING || state == PAUSED) && addr > HEAD && s.lastId + 1 < IDS
      && (forall i :: 0 <= i < |s.tasks| ==> s.tasks[i].addr != addr)
    case KillId(_) => true
    case ExitCurrent =>
      var i := IndexOfId(s.tasks, 0);
      i < |s.tasks| && s.tasks[i].addr != s.current
    case Timer => true
  }

  ghost function Apply(s: State, op: Op): State
    requires Inv(s) && Enabled(s, op)
  {
    match op
    case Spawn(addr, state) => Create(s, addr, state)
    case KillId(id) => Kill(s, id).1
    case ExitCurrent => Exit(s)
    case Timer => Tick(s)
  }

  lemma StepKeepsInv(s: State, op: Op)
    requires Inv(s) && Enabled(s, op)
    ensures Inv(Apply(s, op))
  {
    match op
    case Spawn(addr, state) => CreateKeepsInv(s, addr, state);
    case KillId(id) => KillKeepsInv(s, id);
    case ExitCurrent => ExitKeepsInv(s);
    case Timer => TickKeepsInv(s);
  }

  ghost predicate Legal(s: State, ops: seq<Op>)
    requires Inv(s)
    decreases |ops|
  {
    ops != [] ==> Enabled(s, ops[0]) && (StepKeepsInv(s, ops[0]); Legal(Apply(s, ops[0]), ops[1..]))
  }

  ghost function Run(s: State, ops: seq<Op>): State
    requires Inv(s) && Legal(s, ops)
    decreases |ops|
  {
    if ops == [] then s else StepKeepsInv(s, ops[0]); Run(Apply(s, ops[0]), ops[1..])
  }

  /** What task_init sets up: the idle task alone, running. */
  function Boot(addr: nat): State { State([Task(addr, 0, RUNNING)], addr, 1) }

  lemma BootInv(addr: nat)
    requires addr > HEAD
    ensures Inv(Boot(addr))
  {
    assert IsIdle(Boot(addr).tasks[0]) && IsCurrent(Boot(addr).tasks[0], addr);
  }

  /** In every state of every run ids and addresses are unique, the idle task can run, and a running
      task is the current one. */
  lemma {:induction false} RunsSafe(s: State, ops: seq<Op>)
    requires Inv(s) && Legal(s, ops)
    ensures Inv(Run(s, ops))
    ensures var t := Run(s, ops).tasks; forall i, j :: 0 <= i < j < |t| ==> t[i].id != t[j].id
    ensures var t := Run(s, ops); forall i :: 0 <= i < |t.tasks| && t.tasks[i].state == RUNNING ==> t.tasks[i].addr == t.current
    decreases |ops|
  {
    if ops != [] {
      StepKeepsInv(s, ops[0]);
      RunsSafe(Apply(s, ops[0]), ops[1..]);
    }
  }

  // ---------------------------------------------------------------- fairness

  /** The runnable tasks in ring order. */
  function Runners(tasks: seq<Task>): seq<nat> {
    if tasks == [] then []
    else if Runnable(tasks[0].state) then [tasks[0].addr] + Runners(tasks[1..])
    else Runners(tasks[1..])
  }

  lemma {:induction false} RunnersConcat(a: seq<Task>, b: seq<Task>)
    ensures Runners(a + b) == Runners(a) + Runners(b)
  {
    if a == [] {
      assert a + b == b;
    } else {
      RunnersConcat(a[1..], b);
      assert (a + b)[1..] == a[1..] + b;
      assert (a + b)[0] == a[0];
    }
  }

  lemma {:induction false} FirstRunnerIsHead(tasks: seq<Task>)
    requires FirstRunnable(tasks) < |tasks|
    ensures Runners(tasks) != [] && Runners(tasks)[0] == tasks[FirstRunnable(tasks)].addr
  {
    if !Runnable(tasks[0].state) {
      FirstRunnerIsHead(tasks[1..]);
    }
  }

  ghost predicate NoneKilled(tasks: seq<Task>) {
    forall i :: 0 <= i < |tasks| ==> !tasks[i].state.KILLED?
  }

  lemma {:induction false} PurgeNothing(tasks: seq<Task>)
    requires NoneKilled(tasks)
    ensures Purge(tasks) == tasks
  {
    if tasks != [] {
      PurgeNothing(tasks[1..]);
      assert tasks == [tasks[0]] + tasks[1..];
    }
  }

  /** Two task lists with the same addresses and the same runnable members. */
  ghost predicate Alike(a: seq<Task>, b: seq<Task>) {
    |a| == |b| && forall i :: 0 <= i < |a| ==> a[i].addr == b[i].addr && Runnable(a[i].state) == Runnable(b[i].state)
  }

  lemma {:induction false} AlikeRunners(a: seq<Task>, b: seq<Task>)
    requires Alike(a, b)
    ensures Runners(a) == Runners(b)
  {
    if a != [] {
      assert Alike(a[1..], b[1..]);
      AlikeRunners(a[1..], b[1..]);
    }
  }

  /** Position `i` on a circle of `m` places, for `i` up to two rounds. */
  function Around(i: nat, m: nat): nat { if i < m then i else i - m }

  /** The current task's place among the runnable ones. */
  ghost predicate Place(s: State, k: nat) {
    k < |Runners(s.tasks)| && Runners(s.tasks)[k] == s.current
  }

  lemma SplitRunners(t: seq<Task>, i: nat)
    requires i < |t| && Runnable(t[i].state)
    ensures Runners(t) == Runners(t[..i]) + [t[i].addr] + Runners(t[i + 1..])
  {
    assert t == t[..i] + ([t[i]] + t[i + 1..]);
    RunnersConcat(t[..i], [t[i]] + t[i + 1..]);
    assert ([t[i]] + t[i + 1..])[1..] == t[i + 1..];
    assert Runners([t[i]] + t[i + 1..]) == [t[i].addr] + Runners(t[i + 1..]);
    assert Runners(t[..i]) + ([t[i].addr] + Runners(t[i + 1..])) == Runners(t[..i]) + [t[i].addr] + Runners(t[i + 1..]);
  }

  /** Seen from a runnable task, the first runnable one after it is its neighbour in the circle. */
  lemma NeighbourIsNext(t: seq<Task>, i: nat)
    requires i < |t| && Runnable(t[i].state)
    ensures var r, k := Rotate(t, i), |Runners(t[..i])|;
      && FirstRunnable(r) < |t| && k < |Runners(t)| && Runners(t)[k] == t[i].addr
      && r[FirstRunnable(r)].addr == Runners(t)[Around(k + 1, |Runners(t)|)]
  {
    var r := Rotate(t, i);
    SplitRunners(t, i);
    assert r[|t| - 1] == t[i];
    FirstRunnerIsHead(r);
    RunnersConcat(t[i + 1..], t[..i + 1]);
    SplitRunners(t[..i + 1], i);
    assert t[..i + 1][..i] == t[..i] && t[..i + 1][i] == t[i] && t[..i + 1][i + 1..] == [];
    assert Runners(r) == Runners(t[i + 1..]) + (Runners(t[..i]) + [t[i].addr] + []);
  }

  lemma CurrentRuns(s: State)
    requires Inv(s) && NoneKilled(s.tasks)
    ensures var i := IndexOfAddr(s.tasks, s.current);
      i < |s.tasks| && s.tasks[i].addr == s.current && s.tasks[i].state == RUNNING
  {
    var c :| 0 <= c < |s.tasks| && IsCurrent(s.tasks[c], s.current);
  }

  lemma FindPlace(s: State) returns (k: nat)
    requires Inv(s) && NoneKilled(s.tasks)
    ensures Place(s, k) && IndexOfAddr(s.tasks, s.current) < |s.tasks|
    ensures k == |Runners(s.tasks[..IndexOfAddr(s.tasks, s.current)])|
  {
    CurrentRuns(s);
    var i := IndexOfAddr(s.tasks, s.current);
    SplitRunners(s.tasks, i);
    k := |Runners(s.tasks[..i])|;
  }

  /** One call to task_schedule moves the CPU to the next runnable task in the circle and changes
      neither the ring nor who is runnable. */
  lemma ScheduleAdvances(s: State) returns (k: nat)
    requires Inv(s) && NoneKilled(s.tasks)
    ensures IndexOfAddr(s.tasks, s.current) < |s.tasks|
    ensures FirstRunnable(Rotate(s.tasks, IndexOfAddr(s.tasks, s.current))) < |s.tasks|
    ensures Inv(Schedule(s)) && NoneKilled(Schedule(s).tasks)
    ensures Runners(Schedule(s).tasks) == Runners(s.tasks)
    ensures Place(s, k) && Schedule(s).current == Runners(s.tasks)[Around(k + 1, |Runners(s.tasks)|)]
  {
    ScheduleKeepsInv(s);
    CurrentRuns(s);
    var i := IndexOfAddr(s.tasks, s.current);
    NeighbourIsNext(s.tasks, i);
    k := |Runners(s.tasks[..i])|;
    SameRunners(s.tasks, s.current, Pick(s), i);
  }

  lemma SameRunners(t: seq<Task>, prev: nat, next: nat, i: nat)
    requires i < |t| && var r := Rotate(t, i); FirstRunnable(r) < |t| && r[FirstRunnable(r)].addr == next
    requires forall x, y :: 0 <= x < y < |t| ==> t[x].addr != t[y].addr
    requires NoneKilled(t)
    ensures Runners(Switch(Purge(t), prev, next)) == Runners(t)
  {
    PurgeNothing(t);
    SwitchAlike(t, prev, next, i);
    AlikeRunners(Switch(t, prev, next), t);
  }

  lemma SwitchAlike(t: seq<Task>, prev: nat, next: nat, i: nat)
    requires i < |t| && var r := Rotate(t, i); FirstRunnable(r) < |t| && r[FirstRunnable(r)].addr == next
    requires forall x, y :: 0 <= x < y < |t| ==> t[x].addr != t[y].addr
    ensures Alike(Switch(t, prev, next), t)
  {
    var r := Rotate(t, i);
    var k := FirstRunnable(r);
    var p := if k < |t| - i - 1 then k + i + 1 else k - (|t| - i - 1);
    assert r[k] == t[p];
    forall x | 0 <= x < |t| && t[x].addr == next ensures x == p {
    }
  }

  /** `n` consecutive calls to task_schedule. */
  function Ticks(s: State, n: nat): State
    decreases n
  {
    if n == 0 then s else Ticks(Tick(s), n - 1)
  }

  /** Addresses in the ring are unique, so a runnable task has one place in the circle. */
  lemma {:induction false} RunnersUnique(tasks: seq<Task>)
    requires forall x, y :: 0 <= x < y < |tasks| ==> tasks[x].addr != tasks[y].addr
    ensures Sequences.NoDup(Runners(tasks))
    ensures forall a :: a in Runners(tasks) ==> exists i :: 0 <= i < |tasks| && tasks[i].addr == a
  {
    if tasks != [] {
      RunnersUnique(tasks[1..]);
      var r := Runners(tasks[1..]);
      forall a | a in r ensures a != tasks[0].addr && exists i :: 0 <= i < |tasks| && tasks[i].addr == a {
        var i :| 0 <= i < |tasks[1..]| && tasks[1..][i].addr == a;
        assert tasks[i + 1].addr == a;
      }
      if Runnable(tasks[0].state) {
        Sequences.ConsMembers(tasks[0].addr, r);
      }
    }
  }

  /** All tasks can be scheduled for ever: nothing is killed, and the current task has place `k` in the
      circle `r`. */
  ghost predicate Turning(s: State, r: seq<nat>, k: nat) {
    Inv(s) && NoneKilled(s.tasks) && Runners(s.tasks) == r && k < |r| && r[k] == s.current
  }

  lemma AdvanceOnce(s: State, r: seq<nat>, k: nat)
    requires Turning(s, r, k)
    ensures Turning(Tick(s), r, Around(k + 1, |r|))
  {
    var j := ScheduleAdvances(s);
    RunnersUnique(s.tasks);
    SamePlace(r, j, k);
  }

  /** After `n` calls, up to a full round, the CPU is `n` places further round the circle. */
  lemma {:induction false} TicksAdvance(s: State, r: seq<nat>, k: nat, n: nat)
    requires Turning(s, r, k) && n <= |r|
    ensures Turning(Ticks(s, n), r, Around(k + n, |r|))
    decreases n
  {
    hide Inv, NoneKilled, Runners, Tick;
    if n > 0 {
      AdvanceOnce(s, r, k);
      TicksAdvance(Tick(s), r, Around(k + 1, |r|), n - 1);
      assert Around(Around(k + 1, |r|) + (n - 1), |r|) == Around(k + n, |r|);
    }
  }

  lemma SamePlace(r: seq<nat>, i: nat, j: nat)
    requires Sequences.NoDup(r) && i < |r| && j < |r| && r[i] == r[j]
    ensures i == j
  {
  }

  /** Round-robin fairness: with `m` runnable tasks and nothing created or killed, any `m` consecutive
      calls to task_schedule run every runnable task exactly once and end on the starting task. */
  lemma RoundRobinFair(s: State, a: nat)
    requires Inv(s) && NoneKilled(s.tasks) && a in Runners(s.tasks)
    ensures exists n :: 1 <= n <= |Runners(s.tasks)| && Ticks(s, n).current == a
    ensures forall i, j :: 1 <= i < j <= |Runners(s.tasks)| ==> Ticks(s, i).current != Ticks(s, j).current
    ensures Ticks(s, |Runners(s.tasks)|).current == s.current
  {
    var r, m := Runners(s.tasks), |Runners(s.tasks)|;
    var k := FindPlace(s);
    RunnersDistinct(s);
    var run := seq(m + 1, n requires 0 <= n => Ticks(s, n).current);
    forall n | 0 <= n <= m ensures run[n] == r[Around(k + n, m)] {
      TicksAdvance(s, r, k, n);
    }
    FullRound(r, run, k, a);
    var n :| 1 <= n <= m && run[n] == a;
    assert Ticks(s, n).current == a;
    forall i, j | 1 <= i < j <= m ensures Ticks(s, i).current != Ticks(s, j).current {
      assert run[i] != run[j];
    }
    assert run[m] == s.current;
  }

  lemma RunnersDistinct(s: State)
    requires Inv(s)
    ensures Sequences.NoDup(Runners(s.tasks))
  {
    RunnersUnique(s.tasks);
  }

  /** Going once round a circle from place `k` visits every place exactly once and ends at `k`. */
  lemma FullRound(r: seq<nat>, run: seq<nat>, k: nat, a: nat)
    requires Sequences.NoDup(r) && k < |r| && |run| == |r| + 1 && a in r
    requires forall n :: 0 <= n <= |r| ==> run[n] == r[Around(k + n, |r|)]
    ensures exists n :: 1 <= n <= |r| && run[n] == a
    ensures forall i, j :: 1 <= i < j <= |r| ==> run[i] != run[j]
    ensures run[|r|] == r[k]
  {
    var m := |r|;
    var p :| 0 <= p < m && r[p] == a;
    assert run[if p > k then p - k else p + m - k] == a;
    forall i, j | 1 <= i < j <= m ensures run[i] != run[j] {
      if run[i] == run[j] {
        SamePlace(r, Around(k + i, m), Around(k + j, m));
      }
    }
  }

  // ---------------------------------------------------------------- what becomes of a new task

  /** A new task is first in the ring, with the next id and the state asked for; the others stay in order. Created
      WAITING it is first in the circle of those that run, created PAUSED it is not in it. */
  lemma CreatedIs(s: State, addr: nat, state: TaskState)
    requires state == WAITING || state == PAUSED
    ensures var t := Create(s, addr, state);
      && |t.tasks| == |s.tasks| + 1 && t.tasks[1..] == s.tasks && t.current == s.current && t.lastId == s.lastId + 1
      && t.tasks[0].addr == addr && t.tasks[0].id == s.lastId && t.tasks[0].state == state
      && Runners(t.tasks) == if state == WAITING then [addr] + Runners(s.tasks) else Runners(s.tasks)
  {
    var t := Create(s, addr, state);
    assert t.tasks[1..] == s.tasks;
  }

  /** A task created WAITING runs within one round. */
  lemma CreatedRuns(s: State, addr: nat)
    requires Inv(s) && NoneKilled(s.tasks) && addr > HEAD && forall i :: 0 <= i < |s.tasks| ==> s.tasks[i].addr != addr
    ensures exists n :: 1 <= n <= |Runners(s.tasks)| + 1 && Ticks(Create(s, addr, WAITING), n).current == addr
  {
    var t := Create(s, addr, WAITING);
    CreatedIs(s, addr, WAITING);
    CreateKeepsInv(s, addr, WAITING);
    RoundRobinFair(t, addr);
  }

  // ---------------------------------------------------------------- ids are not used again

  /** The ring holds a task with this id at this address. */
  ghost predicate HasTask(tasks: seq<Task>, id: nat, addr: nat) {
    exists i :: 0 <= i < |tasks| && tasks[i].id == id && tasks[i].addr == addr
  }

  /** Every task of `t` with an id below `bound` was in `s` already, at the same address. */
  ghost predicate OldIdsStay(s: State, t: State, bound: nat) {
    forall i :: 0 <= i < |t.tasks| && t.tasks[i].id < bound ==> HasTask(s.tasks, t.tasks[i].id, t.tasks[i].addr)
  }

  lemma StepKeepsIds(s: State, op: Op)
    requires Inv(s) && Enabled(s, op)
    ensures s.lastId <= Apply(s, op).lastId && OldIdsStay(s, Apply(s, op), s.lastId)
  {
    var t := Apply(s, op);
    forall i | 0 <= i < |t.tasks| && t.tasks[i].id < s.lastId ensures HasTask(s.tasks, t.tasks[i].id, t.tasks[i].addr) {
      match op
      case Spawn(_, _) => assert t.tasks[i] == s.tasks[i - 1];
      case KillId(_) => assert t.tasks[i].addr == s.tasks[i].addr && t.tasks[i].id == s.tasks[i].id;
      case ExitCurrent => assert t.tasks[i].addr == s.tasks[i].addr && t.tasks[i].id == s.tasks[i].id;
      case Timer =>
        CanSchedule(s);
        var k := KeptFrom(s.tasks, i);
        assert s.tasks[k].id == t.tasks[i].id && s.tasks[k].addr == t.tasks[i].addr;
    }
  }

  /** Over every run an id, once given out, never comes to mean another task: whatever has an id that was
      given out before the run is the task that had it then. */
  lemma {:induction false} IdsNeverReused(s: State, ops: seq<Op>)
    requires Inv(s) && Legal(s, ops)
    ensures s.lastId <= Run(s, ops).lastId && OldIdsStay(s, Run(s, ops), s.lastId)
    decreases |ops|
  {
    if ops != [] {
      StepKeepsInv(s, ops[0]);
      StepKeepsIds(s, ops[0]);
      IdsNeverReused(Apply(s, ops[0]), ops[1..]);
      OldIdsJoin(s, Apply(s, ops[0]), Run(s, ops));
    }
  }

  lemma OldIdsJoin(s: State, t: State, u: State)
    requires s.lastId <= t.lastId && OldIdsStay(s, t, s.lastId) && OldIdsStay(t, u, t.lastId)
    ensures OldIdsStay(s, u, s.lastId)
  {
    forall i | 0 <= i < |u.tasks| && u.tasks[i].id < s.lastId ensures HasTask(s.tasks, u.tasks[i].id, u.tasks[i].addr) {
      var j :| 0 <= j < |t.tasks| && t.tasks[j].id == u.tasks[i].id && t.tasks[j].addr == u.tasks[i].addr;
    }
  }

  // ---------------------------------------------------------------- what becomes of a killed task

  function Ids(tasks: seq<Task>): seq<nat> {
    seq(|tasks|, i requires 0 <= i < |tasks| => tasks[i].id)
  }

  function Marked(s: State, i: nat): State
    requires i < |s.tasks|
  {
    s.(tasks := s.tasks[i := s.tasks[i].(state := KILLED)])
  }

  /** The ids of the tasks that are not marked as killed, in ring order. */
  function LiveIds(tasks: seq<Task>): seq<nat> {
    if tasks == [] then []
    else
      var x := tasks[|tasks| - 1];
      LiveIds(tasks[..|tasks| - 1]) + if x.state.KILLED? then [] else [x.id]
  }

  /** `l` without `v`, which it may not hold. */
  function Except(l: seq<nat>, v: nat): seq<nat> { if v in l then Sequences.Without(l, v) else l }

  lemma {:induction false} LiveIdsConcat(a: seq<Task>, b: seq<Task>)
    ensures LiveIds(a + b) == LiveIds(a) + LiveIds(b)
  {
    if b == [] {
      assert a + b == a;
    } else {
      LiveIdsConcat(a, b[..|b| - 1]);
      assert (a + b)[|a + b| - 1] == b[|b| - 1] && (a + b)[..|a + b| - 1] == a + b[..|b| - 1];
    }
  }

  lemma {:induction false} LiveIdsIn(tasks: seq<Task>, id: nat)
    ensures id in LiveIds(tasks) <==> exists i :: 0 <= i < |tasks| && tasks[i].id == id && !tasks[i].state.KILLED?
  {
    if tasks != [] {
      var t := tasks[..|tasks| - 1];
      LiveIdsIn(t, id);
      assert forall i :: 0 <= i < |t| ==> t[i] == tasks[i];
    }
  }

  lemma {:induction false} PurgedIds(tasks: seq<Task>)
    ensures Ids(Purge(tasks)) == LiveIds(tasks)
  {
    if tasks != [] {
      hide LiveIds, Ids;
      var x, rest := tasks[0], tasks[1..];
      PurgedIds(rest);
      assert tasks == [x] + rest;
      LiveIdsConcat([x], rest);
      OneId(x);
      IdsCons(x, Purge(rest));
    }
  }

  lemma IdsCons(x: Task, tasks: seq<Task>)
    ensures Ids([x] + tasks) == [x.id] + Ids(tasks)
  {
  }

  /** In every state of the scheduler task_schedule leaves exactly the tasks that are not marked, in order. */
  lemma ScheduleLeavesLive(s: State)
    requires Inv(s)
    ensures Ids(Tick(s).tasks) == LiveIds(s.tasks)
  {
    hide Inv, Purge, Rotate, FirstRunnable, Switch, Pick, IndexOfAddr, Ids, LiveIds;
    CanSchedule(s);
    SwitchIds(Purge(s.tasks), s.current, Pick(s));
    PurgedIds(s.tasks);
  }

  /** Marking one more task takes exactly its id from those that will be left. */
  lemma MarkedIds(s: State, i: nat)
    requires Inv(s) && i < |s.tasks|
    ensures LiveIds(Marked(s, i).tasks) == Except(LiveIds(s.tasks), s.tasks[i].id)
  {
    var t, x := s.tasks, s.tasks[i];
    var y := x.(state := KILLED);
    hide LiveIds, Except;
    var a, b := t[..i], t[i + 1..];
    assert t == a + [x] + b;
    assert Marked(s, i).tasks == a + [y] + b;
    SplitIds(a, x, b);
    SplitIds(a, y, b);
    LiveIdsIn(a, x.id);
    LiveIdsIn(b, x.id);
    assert x.id !in LiveIds(a) && x.id !in LiveIds(b);
    WithoutMiddle(LiveIds(a), x.id, LiveIds(b));
  }

  lemma SplitIds(a: seq<Task>, x: Task, b: seq<Task>)
    ensures LiveIds(a + [x] + b) == LiveIds(a) + (if x.state.KILLED? then [] else [x.id]) + LiveIds(b)
  {
    hide LiveIds;
    LiveIdsConcat(a + [x], b);
    LiveIdsConcat(a, [x]);
    OneId(x);
  }

  lemma OneId(x: Task)
    ensures LiveIds([x]) == if x.state.KILLED? then [] else [x.id]
  {
    assert [x][..0] == [];
  }

  lemma WithoutMiddle(a: seq<nat>, v: nat, b: seq<nat>)
    requires v !in a && v !in b
    ensures Except(a + [v] + b, v) == a + b && Except(a + b, v) == a + b
    ensures Except(a + [] + b, v) == a + b
  {
    var l := a + [v] + b;
    assert l[|a|] == v;
    var i := Sequences.IndexOf(l, v);
    assert i == |a| by {
      assert forall j :: 0 <= j < |a| ==> l[j] == a[j] && a[j] in a;
    }
    assert l[..i] + l[i + 1..] == a + b;
    assert a + [] + b == a + b;
  }

  /** A task that is marked is gone after the next task_schedule, whoever was current and whatever others are
      marked: the rest are in the ring as before, and the CPU is not with it. */
  lemma MarkedGoes(s: State, i: nat)
    requires Inv(s) && i < |s.tasks| && s.tasks[i].id != 0
    ensures var t := Tick(Marked(s, i));
      Ids(t.tasks) == Except(LiveIds(s.tasks), s.tasks[i].id) && t.current != s.tasks[i].addr
  {
    hide Inv, Purge, Rotate, FirstRunnable, Switch, Pick, IndexOfAddr, Ids, LiveIds, Except;
    var m := Marked(s, i);
    MarkKeepsInv(s, i);
    CanSchedule(m);
    ScheduleLeavesLive(m);
    MarkedIds(s, i);
    PickedOther(s, i);
  }

  lemma SwitchIds(tasks: seq<Task>, prev: nat, next: nat)
    ensures Ids(Switch(tasks, prev, next)) == Ids(tasks)
  {
  }

  lemma PickedOther(s: State, i: nat)
    requires Inv(s) && i < |s.tasks| && Inv(Marked(s, i))
    ensures var m := Marked(s, i);
      && IndexOfAddr(m.tasks, m.current) < |m.tasks|
      && FirstRunnable(Rotate(m.tasks, IndexOfAddr(m.tasks, m.current))) < |m.tasks|
      && Pick(m) != s.tasks[i].addr
  {
    hide Rotate, FirstRunnable, Pick;
    var m := Marked(s, i);
    PickedSurvives(m);
    AddrAt(m, i);
  }

  lemma AddrAt(s: State, i: nat)
    requires Inv(s) && i < |s.tasks|
    ensures IndexOfAddr(s.tasks, s.tasks[i].addr) == i
  {
  }

  /** task_kill and the next task_schedule take exactly the killed task, and those marked before, out of the
      ring. */
  lemma KilledIsGone(s: State, id: nat)
    requires Inv(s) && Kill(s, id).0
    ensures id in LiveIds(s.tasks)
    ensures Ids(Tick(Kill(s, id).1).tasks) == Sequences.Without(LiveIds(s.tasks), id)
  {
    MarkedGoes(s, IndexOfId(s.tasks, id));
    LiveIdsIn(s.tasks, id);
  }

  /** task_exit_current and the next task_schedule take exactly the current task, and those marked before, out
      of the ring and give the CPU to another. */
  lemma ExitedIsGone(s: State)
    requires Inv(s)
    requires IndexOfAddr(s.tasks, s.current) < |s.tasks| && s.tasks[IndexOfAddr(s.tasks, s.current)].id != 0
    ensures var t, id := Tick(Exit(s)), s.tasks[IndexOfAddr(s.tasks, s.current)].id;
      Ids(t.tasks) == Except(LiveIds(s.tasks), id) && t.current != s.current
  {
    MarkedGoes(s, IndexOfAddr(s.tasks, s.current));
  }
}
