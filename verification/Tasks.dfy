/** The task table of kernel/sched/task.c on values: the ring of tasks in order, and the effect of
    each operation on it. */
module Tasks {
  import opened Sequences

  datatype TaskState = INVALID | RUNNING | WAITING | PAUSED | KILLED

  /** A task: its address, its id and its state. */
  datatype Task = Task(addr: nat, id: nat, state: TaskState)

  /** The ring from the node after the sentinel to the last one, the CPU's current task, and the
      next id to give out. */
  datatype State = State(tasks: seq<Task>, current: nat, lastId: nat)

  const HEAD: nat := 1
  const IDS: nat := 0x1_0000_0000

  predicate Runnable(t: TaskState) { t == WAITING || t == RUNNING }

  // ---------------------------------------------------------------- the invariant

  /** Addresses and ids are unique, ids have been given out, and only real states occur. */
  ghost predicate Table(tasks: seq<Task>, lastId: nat) {
    && (forall i, j :: 0 <= i < j < |tasks| ==> tasks[i].addr != tasks[j].addr && tasks[i].id != tasks[j].id)
    && (forall i :: 0 <= i < |tasks| ==> tasks[i].addr > HEAD && tasks[i].id < lastId && !tasks[i].state.INVALID?)
  }

  ghost predicate Inv(s: State) {
    && Table(s.tasks, s.lastId)
    && HasIdle(s.tasks) && HasCurrent(s.tasks, s.current)
    && (forall i :: 0 <= i < |s.tasks| && s.tasks[i].state == RUNNING ==> s.tasks[i].addr == s.current)
  }

  ghost predicate HasIdle(tasks: seq<Task>) {
    exists i :: 0 <= i < |tasks| && IsIdle(tasks[i])
  }

  ghost predicate HasCurrent(tasks: seq<Task>, current: nat) {
    exists i :: 0 <= i < |tasks| && IsCurrent(tasks[i], current)
  }

  /** The idle task has id 0 and can always run. */
  predicate IsIdle(t: Task) { t.id == 0 && Runnable(t.state) }

  /** The current task is running unless it has just been killed. */
  predicate IsCurrent(t: Task, current: nat) {
    t.addr == current && (t.state == RUNNING || t.state == KILLED)
  }

  function IndexOfAddr(tasks: seq<Task>, a: nat): (i: nat)
    ensures i <= |tasks|
    ensures i < |tasks| ==> tasks[i].addr == a
    ensures forall j :: 0 <= j < i ==> tasks[j].addr != a
  {
    if tasks == [] then 0 else if tasks[0].addr == a then 0 else 1 + IndexOfAddr(tasks[1..], a)
  }

  function IndexOfId(tasks: seq<Task>, id: nat): (i: nat)
    ensures i <= |tasks|
    ensures i < |tasks| ==> tasks[i].id == id
    ensures forall j :: 0 <= j < i ==> tasks[j].id != id
  {
    if tasks == [] then 0 else if tasks[0].id == id then 0 else 1 + IndexOfId(tasks[1..], id)
  }

  // ---------------------------------------------------------------- operations

  /** task_create once the task structure has been allocated at `addr`: the new task goes right after the
      sentinel. */
  function Create(s: State, addr: nat, state: TaskState): State {
    State([Task(addr, s.lastId, state)] + s.tasks, s.current, s.lastId + 1)
  }

  /** task_kill: true if the task was marked. */
  function Kill(s: State, id: nat): (bool, State) {
    var i := IndexOfId(s.tasks, id);
    if id == 0 || i == |s.tasks| || s.tasks[i].state.INVALID? || s.tasks[i].state.KILLED? then (false, s)
    else (true, s.(tasks := s.tasks[i := s.tasks[i].(state := KILLED)]))
  }

  /** task_exit_current. */
  function Exit(s: State): State {
    var i := IndexOfAddr(s.tasks, s.current);
    if i == |s.tasks| then s else s.(tasks := s.tasks[i := s.tasks[i].(state := KILLED)])
  }

  /** task_purge_killed_tasks. */
  function Purge(tasks: seq<Task>): seq<Task> {
    if tasks == [] then []
    else if tasks[0].state.KILLED? then Purge(tasks[1..])
    else [tasks[0]] + Purge(tasks[1..])
  }

  /** The ring order as seen from the current task: everything after it, then round to itself. */
  function Rotate(tasks: seq<Task>, i: nat): seq<Task>
    requires i < |tasks|
  {
    tasks[i + 1..] + tasks[..i + 1]
  }

  function FirstRunnable(tasks: seq<Task>): (i: nat)
    ensures i <= |tasks|
    ensures i < |tasks| ==> Runnable(tasks[i].state)
    ensures forall j :: 0 <= j < i ==> !Runnable(tasks[j].state)
  {
    if tasks == [] || Runnable(tasks[0].state) then 0 else 1 + FirstRunnable(tasks[1..])
  }

  /** The task that task_schedule picks: the first runnable one after the current task in the ring as
      it is before the purge. */
  function Pick(s: State): nat
    requires IndexOfAddr(s.tasks, s.current) < |s.tasks|
    requires FirstRunnable(Rotate(s.tasks, IndexOfAddr(s.tasks, s.current))) < |s.tasks|
  {
    var r := Rotate(s.tasks, IndexOfAddr(s.tasks, s.current));
    r[FirstRunnable(r)].addr
  }

  /** The state updates at the end of task_schedule. */
  function SwitchTask(t: Task, prev: nat, next: nat): Task {
    var u := if t.addr == prev && t.state == RUNNING then t.(state := WAITING) else t;
    if u.addr == next then u.(state := RUNNING) else u
  }

  function Switch(tasks: seq<Task>, prev: nat, next: nat): seq<Task> {
    seq(|tasks|, i requires 0 <= i < |tasks| => SwitchTask(tasks[i], prev, next))
  }

  /** task_schedule with the scheduler enabled. */
  function Schedule(s: State): State
    requires IndexOfAddr(s.tasks, s.current) < |s.tasks|
    requires FirstRunnable(Rotate(s.tasks, IndexOfAddr(s.tasks, s.current))) < |s.tasks|
  {
    State(Switch(Purge(s.tasks), s.current, Pick(s)), Pick(s), s.lastId)
  }

  /** task_schedule as a total function, with the search that never ends left as no change; CanSchedule
      and SearchEndsIff say when that does not arise. */
  function Tick(s: State): State {
    var i := IndexOfAddr(s.tasks, s.current);
    if i < |s.tasks| && FirstRunnable(Rotate(s.tasks, i)) < |s.tasks| then Schedule(s) else s
  }

  // ---------------------------------------------------------------- facts about picking

  /** task_schedule has someone to pick, so its search ends. */
  lemma CanSchedule(s: State)
    requires Inv(s)
    ensures IndexOfAddr(s.tasks, s.current) < |s.tasks|
    ensures FirstRunnable(Rotate(s.tasks, IndexOfAddr(s.tasks, s.current))) < |s.tasks|
  {
    var i := IndexOfAddr(s.tasks, s.current);
    var c :| 0 <= c < |s.tasks| && IsCurrent(s.tasks[c], s.current);
    var r := Rotate(s.tasks, i);
    var d :| 0 <= d < |s.tasks| && IsIdle(s.tasks[d]);
    assert r[if d > i then d - i - 1 else |s.tasks| - i - 1 + d] == s.tasks[d];
  }

  /** The search can end exactly when some task of the ring is runnable; an idle task that exits with
      no other task waiting takes that away. */
  lemma SearchEndsIff(tasks: seq<Task>, i: nat)
    requires i < |tasks|
    ensures FirstRunnable(Rotate(tasks, i)) < |tasks| <==> exists j :: 0 <= j < |tasks| && Runnable(tasks[j].state)
  {
    var r := Rotate(tasks, i);
    forall j | 0 <= j < |tasks| ensures r[if j > i then j - i - 1 else |tasks| - i - 1 + j] == tasks[j] {
    }
    forall j | 0 <= j < |tasks| ensures tasks[if j < |tasks| - i - 1 then j + i + 1 else j - (|tasks| - i - 1)] == r[j] {
    }
  }

  /** If the idle task exits, a later task_schedule finds a task exactly when another one was waiting. */
  lemma IdleExit(s: State)
    requires Inv(s) && s.tasks[IndexOfId(s.tasks, 0)].addr == s.current
    ensures IndexOfAddr(s.tasks, s.current) < |s.tasks|
    ensures FirstRunnable(Rotate(Exit(s).tasks, IndexOfAddr(s.tasks, s.current))) < |s.tasks|
       <==> exists j :: 0 <= j < |s.tasks| && s.tasks[j].state == WAITING
  {
    CanSchedule(s);
    var i := IndexOfAddr(s.tasks, s.current);
    SearchEndsIff(Exit(s).tasks, i);
    var t := Exit(s).tasks;
    if j :| 0 <= j < |t| && Runnable(t[j].state) {
      assert j != i && s.tasks[j] == t[j];
      assert s.tasks[j].state == WAITING;
    }
    if j :| 0 <= j < |s.tasks| && s.tasks[j].state == WAITING {
      assert j != i by {
        var c :| 0 <= c < |s.tasks| && IsCurrent(s.tasks[c], s.current);
        assert c == i;
      }
      assert t[j] == s.tasks[j];
    }
  }

  /** The picked task is in the ring, is runnable, and so survives the purge. */
  lemma PickedSurvives(s: State)
    requires Inv(s)
    ensures IndexOfAddr(s.tasks, s.current) < |s.tasks|
    ensures FirstRunnable(Rotate(s.tasks, IndexOfAddr(s.tasks, s.current))) < |s.tasks|
    ensures var p := IndexOfAddr(s.tasks, Pick(s));
      p < |s.tasks| && Runnable(s.tasks[p].state)
  {
    CanSchedule(s);
    var i := IndexOfAddr(s.tasks, s.current);
    var r := Rotate(s.tasks, i);
    var k := FirstRunnable(r);
    var p := if k < |s.tasks| - i - 1 then k + i + 1 else k - (|s.tasks| - i - 1);
    assert r[k] == s.tasks[p];
  }

  // ---------------------------------------------------------------- purging

  /** Purging is exactly the order-preserving removal of killed tasks. */
  lemma {:induction false} PurgeIsFilter(tasks: seq<Task>, t: Task)
    ensures t in Purge(tasks) <==> t in tasks && !t.state.KILLED?
    ensures |Purge(tasks)| <= |tasks|
  {
    if tasks != [] {
      PurgeIsFilter(tasks[1..], t);
    }
  }

  lemma {:induction false} PurgeKeepsTable(tasks: seq<Task>, lastId: nat)
    requires Table(tasks, lastId)
    ensures Table(Purge(tasks), lastId)
  {
    if tasks != [] {
      PurgeKeepsTable(tasks[1..], lastId);
      FirstIsAlone(tasks, lastId);
    }
  }

  lemma FirstIsAlone(tasks: seq<Task>, lastId: nat)
    requires Table(tasks, lastId) && tasks != []
    ensures forall t :: t in Purge(tasks[1..]) ==> t.addr != tasks[0].addr && t.id != tasks[0].id
  {
    forall t | t in Purge(tasks[1..]) ensures t.addr != tasks[0].addr && t.id != tasks[0].id {
      PurgeIsFilter(tasks[1..], t);
      var k :| 0 <= k < |tasks[1..]| && tasks[1..][k] == t;
      assert tasks[k + 1] == t;
    }
  }

  lemma {:induction false} PurgeConcat(a: seq<Task>, b: seq<Task>)
    ensures Purge(a + b) == Purge(a) + Purge(b)
  {
    if a == [] {
      assert a + b == b;
    } else {
      PurgeConcat(a[1..], b);
      assert (a + b)[0] == a[0] && (a + b)[1..] == a[1..] + b;
    }
  }

  // ---------------------------------------------------------------- every operation keeps the invariant

  lemma SwitchKeepsTable(tasks: seq<Task>, prev: nat, next: nat, lastId: nat)
    requires Table(tasks, lastId)
    ensures Table(Switch(tasks, prev, next), lastId)
  {
  }

  /** After task_schedule exactly one task is running, it is the current one, and it was runnable
      before: paused and killed tasks are never chosen, and no killed task is left. */
  lemma ScheduleKeepsInv(s: State)
    requires Inv(s)
    ensures IndexOfAddr(s.tasks, s.current) < |s.tasks|
    ensures FirstRunnable(Rotate(s.tasks, IndexOfAddr(s.tasks, s.current))) < |s.tasks|
    ensures Inv(Schedule(s))
    ensures forall i :: 0 <= i < |Schedule(s).tasks| ==>
              !Schedule(s).tasks[i].state.KILLED?
              && (Schedule(s).tasks[i].state == RUNNING <==> Schedule(s).tasks[i].addr == Schedule(s).current)
    ensures exists i :: 0 <= i < |s.tasks| && s.tasks[i].addr == Schedule(s).current && Runnable(s.tasks[i].state)
  {
    PickedSurvives(s);
    PurgeKeepsTable(s.tasks, s.lastId);
    SwitchKeepsTable(Purge(s.tasks), s.current, Pick(s), s.lastId);
    ScheduleStates(s.tasks, s.current, Pick(s));
  }

  lemma TickKeepsInv(s: State)
    requires Inv(s)
    ensures Inv(Tick(s))
  {
    ScheduleKeepsInv(s);
  }

  lemma ScheduleStates(tasks: seq<Task>, prev: nat, next: nat)
    requires HasIdle(tasks)
    requires forall i :: 0 <= i < |tasks| && tasks[i].state == RUNNING ==> tasks[i].addr == prev
    requires var p := IndexOfAddr(tasks, next); p < |tasks| && Runnable(tasks[p].state)
    ensures var t := Switch(Purge(tasks), prev, next);
      && HasIdle(t) && HasCurrent(t, next)
      && (forall i :: 0 <= i < |t| ==> !t[i].state.KILLED? && (t[i].state == RUNNING <==> t[i].addr == next))
  {
    var kept, t := Purge(tasks), Switch(Purge(tasks), prev, next);
    var d :| 0 <= d < |tasks| && IsIdle(tasks[d]);
    var e := KeptAt(tasks, d);
    assert IsIdle(t[e]);
    var q := KeptAt(tasks, IndexOfAddr(tasks, next));
    assert IsCurrent(t[q], next);
    forall i | 0 <= i < |t| ensures !t[i].state.KILLED? && (t[i].state == RUNNING <==> t[i].addr == next) {
      var k := KeptFrom(tasks, i);
      assert kept[i] == tasks[k];
    }
  }

  /** Where a task that is not killed ends up after the purge, and where a kept task came from. */
  lemma KeptAt(tasks: seq<Task>, d: nat) returns (e: nat)
    requires d < |tasks| && !tasks[d].state.KILLED?
    ensures e < |Purge(tasks)| && Purge(tasks)[e] == tasks[d]
  {
    PurgeIsFilter(tasks, tasks[d]);
    e :| 0 <= e < |Purge(tasks)| && Purge(tasks)[e] == tasks[d];
  }

  lemma KeptFrom(tasks: seq<Task>, e: nat) returns (d: nat)
    requires e < |Purge(tasks)|
    ensures d < |tasks| && tasks[d] == Purge(tasks)[e] && !tasks[d].state.KILLED?
  {
    PurgeIsFilter(tasks, Purge(tasks)[e]);
    d :| 0 <= d < |tasks| && tasks[d] == Purge(tasks)[e];
  }

  lemma TableCons(x: Task, tasks: seq<Task>, lastId: nat)
    requires Table(tasks, lastId) && x.id == lastId && x.addr > HEAD && !x.state.INVALID?
    requires forall i :: 0 <= i < |tasks| ==> tasks[i].addr != x.addr
    ensures Table([x] + tasks, lastId + 1)
  {
    var t := [x] + tasks;
    forall i, j | 0 <= i < j < |t| ensures t[i].addr != t[j].addr && t[i].id != t[j].id {
      assert t[j] == tasks[j - 1];
      assert i > 0 ==> t[i] == tasks[i - 1];
    }
  }

  lemma CreateKeepsInv(s: State, addr: nat, state: TaskState)
    requires Inv(s) && (state == WAITING || state == PAUSED)
    requires addr > HEAD && forall i :: 0 <= i < |s.tasks| ==> s.tasks[i].addr != addr
    ensures Inv(Create(s, addr, state))
  {
    var t := Create(s, addr, state);
    TableCons(t.tasks[0], s.tasks, s.lastId);
    var d :| 0 <= d < |s.tasks| && IsIdle(s.tasks[d]);
    assert IsIdle(t.tasks[d + 1]);
    var c :| 0 <= c < |s.tasks| && IsCurrent(s.tasks[c], s.current);
    assert IsCurrent(t.tasks[c + 1], t.current);
    forall i | 0 <= i < |t.tasks| && t.tasks[i].state == RUNNING ensures t.tasks[i].addr == t.current {
      assert t.tasks[i] == s.tasks[i - 1];
    }
  }

  lemma KillKeepsInv(s: State, id: nat)
    requires Inv(s)
    ensures Inv(Kill(s, id).1)
    ensures Kill(s, id).0 <==> id != 0 && exists i :: 0 <= i < |s.tasks| && s.tasks[i].id == id && !s.tasks[i].state.KILLED?
  {
    var i, t := IndexOfId(s.tasks, id), Kill(s, id).1;
    if Kill(s, id).0 {
      MarkKeepsInv(s, i);
    }
  }

  lemma MarkKeepsInv(s: State, i: nat)
    requires Inv(s) && i < |s.tasks| && s.tasks[i].id != 0
    ensures Inv(s.(tasks := s.tasks[i := s.tasks[i].(state := KILLED)]))
  {
    var t := s.(tasks := s.tasks[i := s.tasks[i].(state := KILLED)]);
    var d :| 0 <= d < |s.tasks| && IsIdle(s.tasks[d]);
    assert IsIdle(t.tasks[d]);
    var c :| 0 <= c < |s.tasks| && IsCurrent(s.tasks[c], s.current);
    assert IsCurrent(t.tasks[c], t.current);
  }

  lemma ExitKeepsInv(s: State)
    requires Inv(s) && s.tasks[IndexOfId(s.tasks, 0)].addr != s.current
    ensures Inv(Exit(s))
  {
    CanSchedule(s);
    var i := IndexOfAddr(s.tasks, s.current);
    var d :| 0 <= d < |s.tasks| && IsIdle(s.tasks[d]);
    assert d == IndexOfId(s.tasks, 0);
    assert s.tasks[i].id != 0;
    MarkKeepsInv(s, i);
  }
}
