/** The task scheduler (sched.c): run queues linked through the task pool, tasks
    placed on the least loaded CPU, CPU 0 scheduled round robin. */
module Scheduler {
  import opened Basics

  const MAX_TASKS: nat := 256
  const SLICE: nat := 10

  datatype Cpu = Cpu(online: bool, smt: bool)
  datatype Task = Task(slice: nat, runtime: nat)
  datatype Current = Nobody | IdleTask | Running(task: nat)

  /** `queues[i]` lists the tasks of CPU i from the head; tasks are pool indices. */
  datatype State = State(cpus: seq<Cpu>, smtAware: bool, queues: seq<seq<nat>>, currents: seq<Current>, tasks: seq<Task>)

  predicate Shape(s: State) {
    0 < |s.cpus| == |s.queues| == |s.currents|
  }

  predicate Eligible(s: State, i: nat)
    requires i < |s.cpus|
  {
    s.cpus[i].online && !(s.smtAware && s.cpus[i].smt)
  }

  /** The first eligible CPU from `i` on with fewer than `least` tasks and no more
      than any other; `best` when there is none. */
  function LeastLoaded(s: State, i: nat, best: nat, least: Option<nat>): (c: nat)
    requires Shape(s) && i <= |s.cpus| && best < |s.cpus|
    ensures c < |s.cpus|
    decreases |s.cpus| - i
  {
    if i == |s.cpus| then best
    else if Eligible(s, i) && (least.None? || |s.queues[i]| < least.value) then
      LeastLoaded(s, i + 1, i, Some(|s.queues[i]|))
    else LeastLoaded(s, i + 1, best, least)
  }

  function Target(s: State): (c: nat)
    requires Shape(s)
    ensures c < |s.cpus|
  {
    LeastLoaded(s, 0, 0, None)
  }

  /** The target is the first least loaded of the eligible CPUs, and CPU 0 when
      none is eligible. */
  lemma {:induction false} LeastLoadedMeaning(s: State, i: nat, best: nat, least: Option<nat>)
    requires Shape(s) && i <= |s.cpus| && best < |s.cpus|
    requires least.Some? ==> Eligible(s, best) && least.value == |s.queues[best]| && best < i
    requires forall j :: 0 <= j < i && Eligible(s, j) ==> least.Some? && least.value <= |s.queues[j]|
    requires forall j :: 0 <= j < i && j < best && least.Some? && Eligible(s, j) ==> least.value < |s.queues[j]|
    ensures var c := LeastLoaded(s, i, best, least);
            && (forall j :: 0 <= j < |s.cpus| && Eligible(s, j) ==> |s.queues[c]| <= |s.queues[j]|)
            && (forall j :: 0 <= j < c && Eligible(s, j) ==> |s.queues[c]| < |s.queues[j]|)
            && (if exists j :: 0 <= j < |s.cpus| && Eligible(s, j) then Eligible(s, c) else c == best)
    decreases |s.cpus| - i
  {
    if i < |s.cpus| {
      if Eligible(s, i) && (least.None? || |s.queues[i]| < least.value) {
        LeastLoadedMeaning(s, i + 1, i, Some(|s.queues[i]|));
      } else {
        LeastLoadedMeaning(s, i + 1, best, least);
      }
    }
  }

  lemma TargetMeaning(s: State)
    requires Shape(s)
    ensures var c, fit := Target(s), set j | 0 <= j < |s.cpus| && s.cpus[j].online && !(s.smtAware && s.cpus[j].smt);
            && (forall j :: j in fit ==> |s.queues[c]| <= |s.queues[j]|)
            && (forall j :: j in fit && j < c ==> |s.queues[c]| < |s.queues[j]|)
            && (if fit != {} then c in fit else c == 0)
  {
    LeastLoadedMeaning(s, 0, 0, None);
    var fit := set j | 0 <= j < |s.cpus| && s.cpus[j].online && !(s.smtAware && s.cpus[j].smt);
    assert forall j :: 0 <= j < |s.cpus| ==> (Eligible(s, j) <==> j in fit);
    assert fit == {} || exists j :: 0 <= j < |s.cpus| && Eligible(s, j);
  }

  // ---------------------------------------------------------------------------
  // Steps
  // ---------------------------------------------------------------------------

  datatype Step = Create | Schedule | Tick | SetSmtAware(on: bool)

  /** sched_create_task: the new task goes to the head of its queue. */
  function CreateTask(s: State): State
    requires Shape(s)
  {
    if |s.tasks| >= MAX_TASKS then s
    else
      var c := Target(s);
      s.(queues := s.queues[c := [|s.tasks|] + s.queues[c]], tasks := s.tasks + [Task(SLICE, 0)])
  }

  /** sched_schedule: the head of CPU 0's queue runs and goes to the end. */
  function ScheduleNext(s: State): State
    requires Shape(s)
  {
    var q := s.queues[0];
    if q == [] then s.(currents := s.currents[0 := IdleTask])
    else s.(currents := s.currents[0 := Running(q[0])], queues := s.queues[0 := q[1..] + [q[0]]])
  }

  function TickTask(t: Task): Task {
    if t.slice == 0 then t
    else Task(if t.slice == 1 then SLICE else t.slice - 1, t.runtime + 1)
  }

  /** sched_tick over the CPUs from `i` on. */
  function TickFrom(s: State, i: nat): (s': State)
    requires Shape(s) && i <= |s.cpus|
    ensures s'.queues == s.queues && s'.cpus == s.cpus && s'.currents == s.currents && s'.smtAware == s.smtAware
    ensures |s'.tasks| == |s.tasks|
    decreases |s.cpus| - i
  {
    if i == |s.cpus| then s
    else
      var c := s.currents[i];
      if s.cpus[i].online && c.Running? && c.task < |s.tasks| then
        TickFrom(s.(tasks := s.tasks[c.task := TickTask(s.tasks[c.task])]), i + 1)
      else TickFrom(s, i + 1)
  }

  function Take(s: State, e: Step): (s': State)
    requires Shape(s)
    ensures Shape(s') && s'.cpus == s.cpus
  {
    match e
    case Create => CreateTask(s)
    case Schedule => ScheduleNext(s)
    case Tick => TickFrom(s, 0)
    case SetSmtAware(on) => s.(smtAware := on)
  }

  function After(s: State, run: seq<Step>): (s': State)
    requires Shape(s)
    ensures Shape(s')
    decreases |run|
  {
    if run == [] then s else After(Take(s, run[0]), run[1..])
  }

  function Boot(cpus: seq<Cpu>, smtAware: bool): State {
    State(cpus, smtAware, seq(|cpus|, _ => []), seq(|cpus|, _ => Nobody), [])
  }

  // ---------------------------------------------------------------------------
  // Every task in exactly one queue, slices in range
  // ---------------------------------------------------------------------------

  predicate Queued(queues: seq<seq<nat>>, t: nat) {
    exists i :: 0 <= i < |queues| && t in queues[i]
  }

  predicate Apart(queues: seq<seq<nat>>) {
    forall i, j, a, b | 0 <= i < |queues| && 0 <= j < |queues| && 0 <= a < |queues[i]| && 0 <= b < |queues[j]| ::
      queues[i][a] == queues[j][b] ==> i == j && a == b
  }

  predicate InRange(queues: seq<seq<nat>>, n: nat) {
    forall i, a | 0 <= i < |queues| && 0 <= a < |queues[i]| :: queues[i][a] < n
  }

  /** The queues share no task and hold each task of the pool once. */
  ghost predicate Partition(s: State) {
    && Apart(s.queues) && InRange(s.queues, |s.tasks|)
    && forall t: nat :: t < |s.tasks| ==> Queued(s.queues, t)
  }

  /** A slice between 1 and 10 that has run down once per tick. */
  predicate SliceOk(t: Task) {
    1 <= t.slice <= 10 && (t.runtime + t.slice) % 10 == 0
  }

  predicate SlicesOk(tasks: seq<Task>) {
    forall t :: 0 <= t < |tasks| ==> SliceOk(tasks[t])
  }

  ghost predicate Inv(s: State) {
    Shape(s) && Partition(s) && SlicesOk(s.tasks)
  }

  lemma BootInv(cpus: seq<Cpu>, smtAware: bool)
    requires cpus != []
    ensures Inv(Boot(cpus, smtAware))
  {
  }

  lemma PushedAt(queues: seq<seq<nat>>, c: nat, t: nat, n: nat)
    requires c < |queues| && Apart(queues) && InRange(queues, t) && t < n
    ensures var q' := queues[c := [t] + queues[c]];
            Apart(q') && InRange(q', n) && forall u: nat :: Queued(q', u) <==> u == t || Queued(queues, u)
  {
    var q' := queues[c := [t] + queues[c]];
    assert forall a :: 1 <= a < |q'[c]| ==> q'[c][a] == queues[c][a - 1];
    forall u: nat
      ensures Queued(q', u) <==> u == t || Queued(queues, u)
    {
      PushQueued(queues, c, t, u);
    }
    forall i, j, a, b | 0 <= i < |q'| && 0 <= j < |q'| && 0 <= a < |q'[i]| && 0 <= b < |q'[j]| && q'[i][a] == q'[j][b]
      ensures i == j && a == b
    {
      PushApart(queues, c, t, i, j, a, b);
    }
  }

  lemma PushQueued(queues: seq<seq<nat>>, c: nat, t: nat, u: nat)
    requires c < |queues|
    ensures Queued(queues[c := [t] + queues[c]], u) <==> u == t || Queued(queues, u)
  {
    var q' := queues[c := [t] + queues[c]];
    assert q'[c][0] == t;
    if Queued(queues, u) {
      var i :| 0 <= i < |queues| && u in queues[i];
      assert u in q'[i];
    }
  }

  lemma PushApart(queues: seq<seq<nat>>, c: nat, t: nat, i: nat, j: nat, a: nat, b: nat)
    requires c < |queues| && Apart(queues) && InRange(queues, t)
    requires var q' := queues[c := [t] + queues[c]];
             i < |q'| && j < |q'| && a < |q'[i]| && b < |q'[j]| && q'[i][a] == q'[j][b]
    ensures i == j && a == b
  {
    var a0: int := if i == c then a - 1 else a;
    var b0: int := if j == c then b - 1 else b;
    if a0 >= 0 && b0 >= 0 {
      assert queues[i][a0] == queues[j][b0];
    }
  }

  lemma Rotated(queues: seq<seq<nat>>, n: nat)
    requires queues != [] && queues[0] != [] && Apart(queues) && InRange(queues, n)
    ensures var q' := queues[0 := queues[0][1..] + [queues[0][0]]];
            Apart(q') && InRange(q', n) && forall u: nat :: Queued(queues, u) ==> Queued(q', u)
  {
    var q := queues[0];
    var q' := queues[0 := q[1..] + [q[0]]];
    assert forall a :: 0 <= a < |q| ==> q'[0][a] == q[if a == |q| - 1 then 0 else a + 1];
    forall u: nat | Queued(queues, u)
      ensures Queued(q', u)
    {
      var i :| 0 <= i < |queues| && u in queues[i];
      if i == 0 {
        var a :| 0 <= a < |q| && q[a] == u;
        assert q'[0][if a == 0 then |q| - 1 else a - 1] == u;
      }
      assert u in q'[i];
    }
    forall i, j, a, b | 0 <= i < |q'| && 0 <= j < |q'| && 0 <= a < |q'[i]| && 0 <= b < |q'[j]| && q'[i][a] == q'[j][b]
      ensures i == j && a == b
    {
      var a0 := if i == 0 then (if a == |q| - 1 then 0 else a + 1) else a;
      var b0 := if j == 0 then (if b == |q| - 1 then 0 else b + 1) else b;
      assert queues[i][a0] == queues[j][b0];
    }
  }

  lemma TickTaskOk(t: Task)
    requires SliceOk(t)
    ensures SliceOk(TickTask(t))
  {
  }

  lemma {:induction false} TickKeeps(s: State, i: nat)
    requires Shape(s) && i <= |s.cpus| && SlicesOk(s.tasks)
    ensures SlicesOk(TickFrom(s, i).tasks)
    decreases |s.cpus| - i
  {
    if i < |s.cpus| {
      var c := s.currents[i];
      if s.cpus[i].online && c.Running? && c.task < |s.tasks| {
        TickTaskOk(s.tasks[c.task]);
        hide SliceOk, TickTask;
        TickKeeps(s.(tasks := s.tasks[c.task := TickTask(s.tasks[c.task])]), i + 1);
      } else {
        TickKeeps(s, i + 1);
      }
    }
  }

  lemma TakeKeeps(s: State, e: Step)
    requires Inv(s)
    ensures Inv(Take(s, e))
  {
    match e
    case Create =>
      if |s.tasks| < MAX_TASKS {
        PushedAt(s.queues, Target(s), |s.tasks|, |s.tasks| + 1);
        hide Queued, Apart, InRange, Target;
      }
    case Schedule =>
      if s.queues[0] != [] {
        Rotated(s.queues, |s.tasks|);
        hide Queued, Apart, InRange;
      }
    case Tick => TickKeeps(s, 0); hide TickFrom, SlicesOk;
    case SetSmtAware(_) =>
  }

  /** Over every run: queues without repetition or sharing, every task in exactly
      one, every slice in range and in step with the run time. */
  lemma {:induction false} InvOverRuns(s: State, run: seq<Step>)
    requires Inv(s)
    ensures Inv(After(s, run))
    decreases |run|
  {
    hide Inv, Take;
    if run != [] {
      ShapeOf(s);
      TakeKeeps(s, run[0]);
      InvOverRuns(Take(s, run[0]), run[1..]);
    }
  }

  lemma ShapeOf(s: State)
    requires Inv(s)
    ensures Shape(s)
  {
  }

  // ---------------------------------------------------------------------------
  // Balance
  // ---------------------------------------------------------------------------

  predicate Balanced(s: State)
    requires Shape(s)
  {
    forall i, j :: 0 <= i < |s.cpus| && 0 <= j < |s.cpus| && Eligible(s, i) && Eligible(s, j) ==>
      |s.queues[i]| <= |s.queues[j]| + 1
  }

  lemma TakeKeepsBalance(s: State, e: Step)
    requires Shape(s) && Balanced(s) && !e.SetSmtAware?
    ensures Balanced(Take(s, e))
  {
    TargetMeaning(s);
    hide Target;
  }

  /** With the eligible CPUs fixed, their loads never differ by more than one. */
  lemma {:induction false} BalancedOverRuns(s: State, run: seq<Step>)
    requires Shape(s) && Balanced(s) && forall i :: 0 <= i < |run| ==> !run[i].SetSmtAware?
    ensures Balanced(After(s, run))
    decreases |run|
  {
    hide Take, Balanced;
    if run != [] {
      TakeKeepsBalance(s, run[0]);
      BalancedOverRuns(Take(s, run[0]), run[1..]);
    }
  }

  // ---------------------------------------------------------------------------
  // Fairness
  // ---------------------------------------------------------------------------

  function Schedules(run: seq<Step>): nat {
    if run == [] then 0 else (if run[0].Schedule? then 1 else 0) + Schedules(run[1..])
  }

  /** Tasks created on CPU 0 in the course of the run. */
  function Arrivals(s: State, run: seq<Step>): nat
    requires Shape(s)
    decreases |run|
  {
    if run == [] then 0
    else (if run[0].Create? && |s.tasks| < 256 && Target(s) == 0 then 1 else 0) + Arrivals(Take(s, run[0]), run[1..])
  }

  lemma Position(s: State, e: Step, k: nat)
    requires Shape(s) && k < |s.queues[0]|
    ensures var q := Take(s, e).queues[0]; var t := s.queues[0][k];
            && (e.Schedule? && k == 0 ==> Take(s, e).currents[0] == Running(t))
            && (e.Schedule? && k > 0 ==> k - 1 < |q| && q[k - 1] == t)
            && (e.Create? && |s.tasks| < MAX_TASKS && Target(s) == 0 ==> k + 1 < |q| && q[k + 1] == t)
            && (!e.Schedule? && !(e.Create? && |s.tasks| < MAX_TASKS && Target(s) == 0) ==> k < |q| && q[k] == t)
  {
    hide Target;
  }

  /** A task at position k of CPU 0's queue runs within k + 1 schedules, plus one
      for each task created on CPU 0 meanwhile. */
  lemma {:induction false} RunsSoon(s: State, run: seq<Step>, k: nat) returns (i: nat)
    requires Shape(s) && k < |s.queues[0]| && Schedules(run) >= k + 1 + Arrivals(s, run)
    ensures 0 < i <= |run| && After(s, run[..i]).currents[0] == Running(s.queues[0][k])
    decreases |run|
  {
    Position(s, run[0], k);
    var s', rest := Take(s, run[0]), run[1..];
    hide Take, Target;
    if run[0].Schedule? && k == 0 {
      i := 1;
      assert run[..1][0] == run[0] && run[..1][1..] == [];
    } else {
      var k' := if run[0].Schedule? then k - 1
                else if run[0].Create? && |s.tasks| < MAX_TASKS && Target(s) == 0 then k + 1 else k;
      i := RunsSoon(s', rest, k');
      i := i + 1;
      assert run[..i][0] == run[0] && run[..i][1..] == rest[..i - 1];
    }
  }

  // ---------------------------------------------------------------------------
  // Run time
  // ---------------------------------------------------------------------------

  /** Only CPU 0 ever runs a task of the pool. */
  predicate OnlyFirstRuns(s: State)
    requires Shape(s)
  {
    && (forall i :: 0 < i < |s.cpus| ==> !s.currents[i].Running?)
    && (s.currents[0].Running? ==> s.currents[0].task < |s.tasks|)
  }

  /** Ticks on which task `t` was the one CPU 0, online, was running. */
  function Charged(s: State, run: seq<Step>, t: nat): nat
    requires Shape(s)
    decreases |run|
  {
    if run == [] then 0
    else
      (if run[0].Tick? && s.cpus[0].online && s.currents[0] == Running(t) then 1 else 0)
      + Charged(Take(s, run[0]), run[1..], t)
  }

  function RuntimeOf(s: State, t: nat): nat { if t < |s.tasks| then s.tasks[t].runtime else 0 }

  lemma {:induction false} NobodyElseTicks(s: State, i: nat)
    requires Shape(s) && OnlyFirstRuns(s) && 0 < i <= |s.cpus|
    ensures TickFrom(s, i) == s
    decreases |s.cpus| - i
  {
    if i < |s.cpus| {
      NobodyElseTicks(s, i + 1);
    }
  }

  /** A tick adds one to the run time of the task CPU 0 is running, if it is online,
      and to no other. */
  lemma TickCharges(s: State, t: nat)
    requires Shape(s) && OnlyFirstRuns(s) && SlicesOk(s.tasks)
    ensures RuntimeOf(TickFrom(s, 0), t)
            == RuntimeOf(s, t) + (if s.cpus[0].online && s.currents[0] == Running(t) then 1 else 0)
    ensures OnlyFirstRuns(TickFrom(s, 0))
  {
    var c := s.currents[0];
    if s.cpus[0].online && c.Running? {
      assert SliceOk(s.tasks[c.task]);
      NobodyElseTicks(s.(tasks := s.tasks[c.task := TickTask(s.tasks[c.task])]), 1);
    } else {
      NobodyElseTicks(s, 1);
    }
  }

  lemma StepCharges(s: State, e: Step, t: nat)
    requires Inv(s) && OnlyFirstRuns(s)
    ensures OnlyFirstRuns(Take(s, e))
    ensures RuntimeOf(Take(s, e), t)
            == RuntimeOf(s, t) + (if e.Tick? && s.cpus[0].online && s.currents[0] == Running(t) then 1 else 0)
  {
    match e
    case Create =>
    case Schedule =>
      if s.queues[0] != [] {
        assert s.queues[0][0] < |s.tasks|;
      }
    case Tick => TickCharges(s, t);
    case SetSmtAware(_) =>
  }

  /** Over every run the run time of a task grows by exactly the ticks on which CPU 0
      was running it, and what is left of its slice follows from its run time. */
  lemma {:induction false} RuntimeOverRuns(s: State, run: seq<Step>, t: nat)
    requires Inv(s) && OnlyFirstRuns(s)
    ensures RuntimeOf(After(s, run), t) == RuntimeOf(s, t) + Charged(s, run, t)
    ensures t < |After(s, run).tasks| ==> After(s, run).tasks[t].slice == 10 - RuntimeOf(After(s, run), t) % 10
    decreases |run|
  {
    hide Inv, Take, OnlyFirstRuns, RuntimeOf;
    ShapeOf(s);
    if run == [] {
      SliceFromRuntime(s, t);
    } else {
      StepCharges(s, run[0], t);
      TakeKeeps(s, run[0]);
      RuntimeOverRuns(Take(s, run[0]), run[1..], t);
    }
  }

  lemma SliceFromRuntime(s: State, t: nat)
    requires Inv(s)
    ensures t < |s.tasks| ==> s.tasks[t].slice == 10 - RuntimeOf(s, t) % 10
  {
    if t < |s.tasks| {
      assert SliceOk(s.tasks[t]);
      var r, k := s.tasks[t].runtime, s.tasks[t].slice;
      var q := (r + k) / 10;
      assert r + k == q * 10;
      assert r == (q - 1) * 10 + (10 - k);
    }
  }

  /** The tasks in the queues of the other CPUs have not run and are not running. */
  ghost predicate OthersWait(s: State)
    requires Shape(s)
  {
    forall i, a :: 0 < i < |s.queues| && 0 <= a < |s.queues[i]| ==> Waits(s, s.queues[i][a])
  }

  predicate Waits(s: State, t: nat)
    requires Shape(s)
  {
    t < |s.tasks| && s.tasks[t] == Task(10, 0) && s.currents[0] != Running(t)
  }

  lemma StillWaits(s: State, e: Step, t: nat, i: nat)
    requires Inv(s) && OnlyFirstRuns(s) && Waits(s, t) && 0 < i < |s.queues| && t in s.queues[i]
    ensures Waits(Take(s, e), t)
  {
    match e
    case Create =>
    case Schedule => OnOneQueue(s.queues, i, 0, t);
    case Tick =>
      var c := s.currents[0];
      if s.cpus[0].online && c.Running? {
        NobodyElseTicks(s.(tasks := s.tasks[c.task := TickTask(s.tasks[c.task])]), 1);
      } else {
        NobodyElseTicks(s, 1);
      }
    case SetSmtAware(_) =>
  }

  lemma OthersWaitOn(s: State, e: Step)
    requires Inv(s) && OnlyFirstRuns(s) && OthersWait(s)
    ensures OthersWait(Take(s, e))
    ensures forall i :: 0 < i < |s.queues| ==> forall t :: t in s.queues[i] ==> t in Take(s, e).queues[i]
  {
    var s' := Take(s, e);
    hide Inv;
    ShapeOf(s);
    forall i, a | 0 < i < |s'.queues| && 0 <= a < |s'.queues[i]|
      ensures Waits(s', s'.queues[i][a])
    {
      var t := s'.queues[i][a];
      if t in s.queues[i] {
        StillWaits(s, e, t, i);
      } else {
        assert e.Create? && t == |s.tasks|;
      }
    }
  }

  /** A task that sched_create_task has put on another CPU than CPU 0 stays in that
      CPU's queue and never runs, on any run. */
  lemma {:induction false} NeverRunsElsewhere(s: State, run: seq<Step>, i: nat, t: nat)
    requires Inv(s) && OnlyFirstRuns(s) && OthersWait(s) && 0 < i < |s.queues| && t in s.queues[i]
    ensures var s' := After(s, run);
            |s'.queues| == |s.queues| && t in s'.queues[i] && RuntimeOf(s', t) == 0 && s'.currents[0] != Running(t)
    decreases |run|
  {
    hide Inv, Take, OnlyFirstRuns;
    ShapeOf(s);
    if run == [] {
      var a :| 0 <= a < |s.queues[i]| && s.queues[i][a] == t;
      assert Waits(s, s.queues[i][a]);
    } else {
      StepCharges(s, run[0], t);
      TakeKeeps(s, run[0]);
      OthersWaitOn(s, run[0]);
      NeverRunsElsewhere(Take(s, run[0]), run[1..], i, t);
    }
  }

  lemma BootWaits(cpus: seq<Cpu>, smtAware: bool)
    requires cpus != []
    ensures var s := Boot(cpus, smtAware); Inv(s) && OnlyFirstRuns(s) && OthersWait(s)
  {
    BootInv(cpus, smtAware);
  }

  // ---------------------------------------------------------------------------
  // The linked queues
  // ---------------------------------------------------------------------------

  function Behind(q: seq<nat>, i: nat): Option<nat>
    requires i < |q|
  {
    if i + 1 < |q| then Some(q[i + 1]) else None
  }

  /** `head` and the next links behind it are the queue `q`. */
  predicate Chain(next: seq<Option<nat>>, head: Option<nat>, q: seq<nat>) {
    && head == (if q == [] then None else Some(q[0]))
    && forall i :: 0 <= i < |q| ==> q[i] < |next| && next[q[i]] == Behind(q, i)
  }

  lemma ChainKept(next: seq<Option<nat>>, head: Option<nat>, q: seq<nat>, t: nat, link: Option<nat>)
    requires Chain(next, head, q) && t < |next| && t !in q
    ensures Chain(next[t := link], head, q)
  {
    assert forall i :: 0 <= i < |q| ==> q[i] in q;
  }

  lemma ChainGrows(next: seq<Option<nat>>, head: Option<nat>, q: seq<nat>, link: Option<nat>)
    requires Chain(next, head, q)
    ensures Chain(next + [link], head, q)
  {
  }

  lemma ChainPush(next: seq<Option<nat>>, head: Option<nat>, q: seq<nat>)
    requires Chain(next, head, q)
    ensures Chain(next + [head], Some(|next|), [|next|] + q)
  {
    var q' := [|next|] + q;
    forall i: nat | i < |q'|
      ensures q'[i] < |next| + 1 && (next + [head])[q'[i]] == Behind(q', i)
    {
      if i > 0 {
        assert next[q[i - 1]] == Behind(q, i - 1);
      }
    }
  }

  /** Unlinking the head and linking it behind the tail. */
  lemma ChainRotate(next: seq<Option<nat>>, q: seq<nat>)
    requires |q| > 1 && Chain(next, Some(q[0]), q) && forall a, b :: 0 <= a < b < |q| ==> q[a] != q[b]
    ensures Chain(next[q[0] := None][q[|q| - 1] := Some(q[0])], next[q[0]], q[1..] + [q[0]])
  {
    var q' := q[1..] + [q[0]];
    var next' := next[q[0] := None][q[|q| - 1] := Some(q[0])];
    assert next[q[0]] == Behind(q, 0);
    forall i: nat | i < |q'|
      ensures q'[i] < |next'| && next'[q'[i]] == Behind(q', i)
    {
      if i < |q| - 1 {
        assert q'[i] == q[i + 1] && next[q[i + 1]] == Behind(q, i + 1);
      }
    }
  }

  lemma OnOneQueue(queues: seq<seq<nat>>, c: nat, d: nat, t: nat)
    requires Apart(queues) && c < |queues| && d < |queues| && c != d && t in queues[c]
    ensures t !in queues[d]
  {
    var a :| 0 <= a < |queues[c]| && queues[c][a] == t;
    forall b | 0 <= b < |queues[d]|
      ensures queues[d][b] != t
    {
      assert queues[c][a] == t;
    }
  }

  lemma NoRepeats(queues: seq<seq<nat>>, c: nat)
    requires Apart(queues) && c < |queues|
    ensures forall a, b :: 0 <= a < b < |queues[c]| ==> queues[c][a] != queues[c][b]
  {
  }

  class TaskScheduler {
    var cpus: seq<Cpu>
    var smtAware: bool
    /** run_queue and current of each CPU */
    var heads: seq<Option<nat>>
    var currents: seq<Current>
    /** next link and counters of each pooled task */
    var next: seq<Option<nat>>
    var tasks: seq<Task>
    ghost var queues: seq<seq<nat>>

    ghost function Abstract(): State
      reads this
    {
      State(cpus, smtAware, queues, currents, tasks)
    }

    ghost predicate Chains()
      reads this`heads, this`next, this`queues, this`tasks
    {
      && |heads| == |queues| && |next| == |tasks|
      && forall c :: 0 <= c < |queues| ==> Chain(next, heads[c], queues[c])
    }

    ghost predicate Valid()
      reads this
    {
      Inv(Abstract()) && Chains()
    }

    /** sched_init */
    constructor (cpus: seq<Cpu>, smtAware: bool)
      requires cpus != []
      ensures Valid() && Abstract() == Boot(cpus, smtAware)
    {
      BootInv(cpus, smtAware);
      this.cpus, this.smtAware := cpus, smtAware;
      heads, currents := seq(|cpus|, _ => None), seq(|cpus|, _ => Nobody);
      next, tasks, queues := [], [], seq(|cpus|, _ => []);
    }

    /** The counting loop of sched_create_task. */
    method Load(c: nat) returns (load: nat)
      requires Valid() && c < |heads|
      ensures load == |queues[c]|
    {
      assert Chain(next, heads[c], queues[c]);
      hide Inv;
      ghost var q := queues[c];
      load := 0;
      var t := heads[c];
      while t.Some?
        invariant load <= |q| && t == if load < |q| then Some(q[load]) else None
        decreases |q| - load
      {
        load := load + 1;
        t := next[t.value];
      }
    }

    /** The CPU search of sched_create_task. */
    method FindTarget() returns (target: nat)
      requires Valid()
      ensures target == Target(Abstract())
    {
      ShapeOf(Abstract());
      hide Inv, Chain;
      target := 0;
      var least: Option<nat> := None;
      for i := 0 to |cpus|
        invariant target < |cpus|
        invariant Target(Abstract()) == LeastLoaded(Abstract(), i, target, least)
      {
        if cpus[i].online && !(smtAware && cpus[i].smt) {
          var load := Load(i);
          if least.None? || load < least.value {
            target, least := i, Some(load);
          }
        }
      }
    }

    /** sched_create_task */
    method CreateTask() returns (t: Option<nat>)
      requires Valid()
      modifies this
      ensures Valid() && Abstract() == Take(old(Abstract()), Create)
      ensures t == if |old(tasks)| < 256 then Some(|old(tasks)|) else None
    {
      ShapeOf(Abstract());
      TakeKeeps(Abstract(), Create);
      if |tasks| >= MAX_TASKS {
        return None;
      }
      var c := FindTarget();
      hide Inv, Target;
      ghost var q0, next0, heads0 := queues, next, heads;
      t := Some(|tasks|);
      tasks := tasks + [Task(SLICE, 0)];
      next := next + [heads[c]];
      heads := heads[c := t];
      queues := queues[c := [t.value] + queues[c]];
      forall d | 0 <= d < |queues|
        ensures Chain(next, heads[d], queues[d])
      {
        assert Chain(next0, heads0[d], q0[d]);
        if d == c {
          ChainPush(next0, heads0[d], q0[d]);
        } else {
          ChainGrows(next0, heads0[d], q0[d], heads0[c]);
        }
      }
    }

    /** The walk to the tail in sched_schedule. */
    method Tail(head: nat, ghost q: seq<nat>) returns (tail: nat)
      requires q != [] && Chain(next, Some(head), q)
      ensures tail == q[|q| - 1]
    {
      tail := head;
      ghost var i: nat := 0;
      while next[tail].Some?
        invariant i < |q| && tail == q[i]
        decreases |q| - i
      {
        tail, i := next[tail].value, i + 1;
      }
    }

    /** sched_schedule: every task stays ready. */
    method Schedule()
      requires Valid()
      modifies this
      ensures Valid() && Abstract() == ScheduleNext(old(Abstract()))
    {
      ShapeOf(Abstract());
      TakeKeeps(Abstract(), Step.Schedule);
      assert Chain(next, heads[0], queues[0]) && Apart(queues);
      HeadOf(next, heads[0], queues[0]);
      NoRepeats(queues, 0);
      hide Inv, Chain, Apart, Shape;
      if heads[0].None? {
        currents := currents[0 := IdleTask];
        return;
      }
      var t := heads[0].value;
      ghost var q := queues[0];
      currents := currents[0 := Running(t)];
      if next[t].Some? {
        Requeue(t);
      } else {
        assert q[1..] + [q[0]] == q && queues[0 := q] == queues;
      }
    }

    /** Moving the head of CPU 0's queue behind its tail. */
    method Requeue(t: nat)
      requires Chains() && Apart(queues) && queues != [] && |queues[0]| > 1 && t == queues[0][0]
      requires forall a, b :: 0 <= a < b < |queues[0]| ==> queues[0][a] != queues[0][b]
      modifies this`heads, this`next, this`queues
      ensures Chains() && queues == old(queues)[0 := old(queues)[0][1..] + [old(queues)[0][0]]]
    {
      assert Chain(next, heads[0], queues[0]);
      ghost var q, next0, heads0, queues0 := queues[0], next, heads, queues;
      var rest := next[t];
      ghost var last := q[|q| - 1];
      RestChain(next, q);
      next := next[t := None];
      ChainKept(next0, rest, q[1..], t, None);
      var tail := Tail(rest.value, q[1..]);
      next := next[tail := Some(t)];
      heads := heads[0 := rest];
      queues := queues[0 := q[1..] + [t]];
      forall d | 0 <= d < |queues|
        ensures Chain(next, heads[d], queues[d])
      {
        assert Chain(next0, heads0[d], queues0[d]);
        if d == 0 {
          ChainRotate(next0, q);
        } else {
          OnOneQueue(queues0, 0, d, t);
          OnOneQueue(queues0, 0, d, last);
          ChainKept(next0, heads0[d], queues0[d], t, None);
          ChainKept(next0[t := None], heads0[d], queues0[d], last, Some(t));
        }
      }
    }

    /** The branch of sched_tick for a CPU's current task. */
    method RunDown(t: Task) returns (t': Task)
      ensures t' == TickTask(t)
    {
      t' := t;
      if t.slice > 0 {
        t' := Task(t.slice - 1, t.runtime + 1);
        if t'.slice == 0 {
          t' := Task(SLICE, t'.runtime);
        }
      }
    }

    /** sched_tick */
    method Tick()
      requires Valid()
      modifies this`tasks
      ensures Valid() && Abstract() == TickFrom(old(Abstract()), 0)
    {
      ShapeOf(Abstract());
      TakeKeeps(Abstract(), Step.Tick);
      hide Inv, Chain, Apart, TickTask;
      ghost var goal := TickFrom(Abstract(), 0);
      for i := 0 to |cpus|
        invariant Shape(Abstract()) && |tasks| == |next| && TickFrom(Abstract(), i) == goal
        invariant Chains()
      {
        if cpus[i].online && currents[i].Running? && currents[i].task < |tasks| {
          var t := RunDown(tasks[currents[i].task]);
          tasks := tasks[currents[i].task := t];
        }
      }
    }
  }

  lemma HeadOf(next: seq<Option<nat>>, head: Option<nat>, q: seq<nat>)
    requires Chain(next, head, q)
    ensures head.None? <==> q == []
    ensures head.Some? ==> head.value == q[0] < |next| && (next[q[0]].Some? <==> |q| > 1)
  {
    if q != [] {
      assert next[q[0]] == Behind(q, 0);
    }
  }

  lemma RestChain(next: seq<Option<nat>>, q: seq<nat>)
    requires |q| > 1 && Chain(next, Some(q[0]), q) && forall a, b :: 0 <= a < b < |q| ==> q[a] != q[b]
    ensures next[q[0]] == Some(q[1]) && Chain(next, next[q[0]], q[1..]) && q[0] !in q[1..]
  {
    assert next[q[0]] == Behind(q, 0);
    forall i: nat | i < |q| - 1
      ensures q[1..][i] < |next| && next[q[1..][i]] == Behind(q[1..], i)
    {
      assert next[q[i + 1]] == Behind(q, i + 1);
    }
  }
}
