/** The scheduler on the heap: registered tasks, pending jobs, and the tick that runs what is due. */
module Scheduler {
  import opened Wrappers
  import opened Heap
  import opened SchedulerModel

  datatype Error =
    | TaskAlreadyExists
    | TaskNotFound
    | IntervalTimeoutBothSet
    | IntervalTimeoutNoneSet
    | TaskFuncNotSet
    | IntervalDurationTooShort
    | TimeoutDurationTooShort
    | SchedulerRunning
    | SchedulerNotRunning

  /** Why a task's options are refused, by a scheduler that ticks every `tick` nanoseconds. */
  function OptionsError(interval: int, timeout: int, hasFunc: bool, tick: int): Option<Error> {
    if interval == 0 && timeout == 0 then Some(IntervalTimeoutNoneSet)
    else if interval != 0 && timeout != 0 then Some(IntervalTimeoutBothSet)
    else if 0 < interval < tick then Some(IntervalDurationTooShort)
    else if 0 < timeout < tick then Some(TimeoutDurationTooShort)
    else if !hasFunc then Some(TaskFuncNotSet)
    else None
  }

  function FirstDue(interval: int, timeout: int, now: int): int {
    now + StepOf(if timeout > 0 then timeout else interval)
  }

  ghost predicate Queued(jobs: Heap<TaskDef>, pending: Jobs)
    reads jobs
  {
    jobs.Valid() && jobs.heapType == MinHeap && jobs.Pairs() == pending
  }

  ghost predicate Recorded(defs: set<TaskDef>, cancelled: map<TaskDef, bool>)
    reads defs
  {
    cancelled.Keys == defs && forall d :: d in defs ==> cancelled[d] == d.cancelled
  }

  lemma RecordedIs(defs: set<TaskDef>, cancelled: map<TaskDef, bool>, d: TaskDef)
    requires Recorded(defs, cancelled)
    ensures d in defs <==> d in cancelled
    ensures d in cancelled ==> cancelled[d] == d.cancelled
  {
  }

  lemma RecordedNew(defs: set<TaskDef>, cancelled: map<TaskDef, bool>, d: TaskDef)
    requires Recorded(defs, cancelled)
    ensures Recorded(defs + {d}, cancelled[d := d.cancelled])
  {
  }

  method Cancel(ghost defs: set<TaskDef>, ghost cancelled: map<TaskDef, bool>, d: TaskDef)
    requires Recorded(defs, cancelled) && d in defs
    modifies d
    ensures Recorded(defs, cancelled[d := true]) && d.cancelled
  {
    d.cancelled := true;
  }

  method Push(ghost pending: Jobs, jobs: Heap<TaskDef>, t: int, d: TaskDef)
    requires Queued(jobs, pending)
    modifies jobs
    ensures Queued(jobs, pending + multiset{(t, d)})
  {
    jobs.Push(t, d);
  }

  method Pop(ghost pending: Jobs, jobs: Heap<TaskDef>, ghost top: (int, TaskDef))
    requires Queued(jobs, pending) && jobs.data != [] && jobs.data[0] == top
    modifies jobs
    ensures Queued(jobs, pending - multiset{top})
  {
    var _ := jobs.Pop();
  }

  method Peak(ghost pending: Jobs, jobs: Heap<TaskDef>) returns (r: Option<(int, TaskDef)>)
    requires Queued(jobs, pending)
    ensures r.None? ==> pending == multiset{}
    ensures r.Some? ==>
      jobs.data != [] && r.value == jobs.data[0] && r.value in pending && forall p :: p in pending ==> r.value.0 <= p.0
  {
    r := jobs.Peak();
  }

  class Scheduler {
    const tick: int
    const autoRun: bool
    var tasks: map<string, TaskDef>
    var pendingJobs: Heap<TaskDef>
    var running: bool

    ghost var defs: set<TaskDef>
    ghost var model: Model

    /** The heap is as the model says. */
    ghost predicate Mirror(m: Model)
      reads this, pendingJobs, defs
    {
      Queued(pendingJobs, m.pending) && Recorded(defs, m.cancelled) && tasks == m.tasks && tick >= 1000
    }

    ghost predicate Valid()
      reads this, pendingJobs, defs
    {
      Mirror(model) && Holds(model)
    }

    constructor (interval: int, autoRun: bool)
      requires interval <= 0 || Moves(interval)
      ensures Valid() && fresh(pendingJobs) && defs == {} && model == Empty && !running
      ensures tick == (if interval <= 0 then 1_000_000_000 else interval) && this.autoRun == autoRun
    {
      tick := if interval <= 0 then 1_000_000_000 else interval;
      this.autoRun := autoRun;
      tasks, running, defs, model := map[], false, {}, Empty;
      pendingJobs := new Heap(MinHeap);
    }

    method Take(tasks': map<string, TaskDef>, ghost defs': set<TaskDef>, ghost m: Model)
      requires Queued(pendingJobs, m.pending) && Recorded(defs', m.cancelled) && tasks' == m.tasks && tick >= 1000
      modifies `tasks, `defs, `model
      ensures Mirror(model) && model == m && tasks == tasks' && defs == defs'
    {
      hide Queued, Recorded;
      tasks, defs, model := tasks', defs', m;
    }

    method Start() returns (err: Option<Error>)
      requires Valid()
      modifies `running
      ensures Valid() && running && err == if old(running) then Some(SchedulerRunning) else None
    {
      hide Holds, Queued, Recorded;
      if running {
        return Some(SchedulerRunning);
      }
      running := true;
      err := None;
    }

    /** What the scheduler turns into when a task of the name is stopped to make way. */
    ghost function Cleared(m: Model, name: string): Model {
      if name in m.tasks then AfterStop(m, name) else m
    }

    ghost predicate IsNew(d: TaskDef, before: set<TaskDef>, name: string, interval: int, due: int) {
      d !in before && d.name == name && d.interval == interval && d.first == due
    }

    /**
     ScheduleTask. An existing task is stopped before the new options are looked at, so refused options
     can cost the old task its place.
     */
    method ScheduleTask(name: string, interval: int, timeout: int, overwrite: bool, hasFunc: bool, now: int)
      returns (err: Option<Error>)
      requires Valid() && model.clock <= now
      modifies this, pendingJobs, defs
      ensures Valid() && pendingJobs == old(pendingJobs) && fresh(defs - old(defs))
      ensures running == (old(running) || autoRun)
      ensures err ==
        if !running then Some(SchedulerNotRunning)
        else if name in old(tasks) && !overwrite then Some(TaskAlreadyExists)
        else OptionsError(interval, timeout, hasFunc, tick)
      ensures err.Some? ==>
        model == if running && overwrite then Cleared(old(model), name) else old(model)
      ensures err == Some(SchedulerNotRunning) <==> !old(running) && !autoRun
      ensures err == Some(TaskAlreadyExists) <==> (old(running) || autoRun) && name in old(tasks) && !overwrite
      ensures (old(running) || autoRun) && (name in old(tasks) ==> overwrite) ==>
        var timed := (timeout == 0 && interval != 0 && !(0 < interval < tick)) ||
          (interval == 0 && timeout != 0 && !(0 < timeout < tick));
        && (err == Some(IntervalTimeoutNoneSet) <==> interval == 0 && timeout == 0)
        && (err == Some(IntervalTimeoutBothSet) <==> interval != 0 && timeout != 0)
        && (err == Some(IntervalDurationTooShort) <==> timeout == 0 && 0 < interval < tick)
        && (err == Some(TimeoutDurationTooShort) <==> interval == 0 && 0 < timeout < tick)
        && (err == Some(TaskFuncNotSet) <==> timed && !hasFunc)
        && (err.None? <==> timed && hasFunc)
      ensures err.None? ==>
        && name in tasks && tasks[name] in defs && tasks[name] !in old(defs)
        && tasks[name].name == name && tasks[name].interval == interval
        && tasks[name].first == now + (if timeout > 0 then timeout / 1000 else interval / 1000)
        && !tasks[name].cancelled
      ensures err.None? ==> model == AfterSchedule(Cleared(old(model), name), tasks[name], now)
      ensures err.None? ==> tasks == old(tasks)[name := tasks[name]]
      ensures err.Some? ==> tasks == if running && overwrite then old(tasks) - {name} else old(tasks)
    {
      hide Holds, Queued, Recorded, AfterSchedule;
      if !running {
        if !autoRun {
          return Some(SchedulerNotRunning);
        }
        running := true;
      }
      if name in tasks {
        if !overwrite {
          return Some(TaskAlreadyExists);
        }
        var _ := StopTask(name);
      }
      err := OptionsError(interval, timeout, hasFunc, tick);
      if err.None? {
        Enlist(name, interval, FirstDue(interval, timeout, now), now);
      }
    }

    method Enlist(name: string, interval: int, due: int, now: int)
      requires Valid() && model.clock <= now && name !in tasks && (interval <= 0 || interval >= tick)
      modifies `tasks, `defs, `model, pendingJobs
      ensures Valid() && fresh(defs - old(defs)) && name in tasks && IsNew(tasks[name], old(defs), name, interval, due)
      ensures model == AfterSchedule(old(model), tasks[name], now) && tasks == old(tasks)[name := tasks[name]]
      ensures tasks[name] in defs && !tasks[name].cancelled
    {
      hide Holds, Queued, Recorded;
      var d := new TaskDef(name, interval, due);
      RecordedIs(defs, model.cancelled, d);
      RecordedNew(defs, model.cancelled, d);
      ScheduleHolds(model, d, now);
      ghost var m := AfterSchedule(model, d, now);
      Push(model.pending, pendingJobs, due, d);
      var more := tasks[name := d];
      Take(more, defs + {d}, m);
    }

    method StopTask(name: string) returns (err: Option<Error>)
      requires Valid()
      modifies `tasks, `defs, `model, defs
      ensures Valid() && defs == old(defs)
      ensures err == if name in old(tasks) then None else Some(TaskNotFound)
      ensures model == Cleared(old(model), name) && tasks == old(tasks) - {name}
      ensures name in old(tasks) ==> old(tasks)[name].cancelled
    {
      hide Holds, Queued, Recorded;
      if name !in tasks {
        return Some(TaskNotFound);
      }
      StopHolds(model, name);
      RegisteredIsKnown(model, name);
      RecordedIs(defs, model.cancelled, tasks[name]);
      ghost var m := AfterStop(model, name);
      Cancel(defs, model.cancelled, tasks[name]);
      var left := tasks - {name};
      Take(left, defs, m);
      err := None;
    }

    /** A tick at `now`: afterwards nothing is due, and what ran was due, in order, and not cancelled before. */
    method Tick(now: int)
      requires Valid() && model.clock <= now
      modifies `tasks, `defs, `model, pendingJobs, defs
      ensures Valid() && pendingJobs == old(pendingJobs) && defs == old(defs)
      ensures Ticking(old(model), model) && model.clock == now
      ensures forall p :: p in model.pending ==> p.0 > now
      ensures old(model).log <= model.log && forall i :: |old(model).log| <= i < |model.log| ==>
        model.log[i].1.first <= model.log[i].0 <= now && model.log[i].1 in old(defs)
      ensures forall d, i :: d in old(defs) && old(d.cancelled) && |old(model).log| <= i < |model.log| ==>
        model.log[i].1 != d
      ensures forall d :: d in old(defs) && !old(d.cancelled) ==>
        OnSchedule(Runs(model, d), d.first, d.interval, now)
      ensures forall p :: p in old(model).pending && p.1 in old(defs) && old(p.1.cancelled) && p !in model.pending ==>
        p.1.name !in tasks
    {
      hide Queued, Recorded, Ticking, Holds, Forgotten, Runs;
      forall d: TaskDef
        ensures (d in defs <==> d in model.cancelled) && (d in defs ==> model.cancelled[d] == d.cancelled)
      {
        RecordedIs(defs, model.cancelled, d);
      }
      TickBegins(model, now);
      model := model.(clock := now);
      NothingForgotten(old(model), model);
      var done := false;
      while !done
        invariant Mirror(model) && Ticking(old(model), model) && model.clock == now && defs == old(defs)
        invariant Forgotten(old(model), model)
        invariant done ==> forall p :: p in model.pending ==> p.0 > now
        decreases !done, Weight(model.pending, now)
      {
        done := TickStep(now, old(model));
      }
      TickHolds(old(model), model);
      TickMeans(old(model), model);
      ForgottenMeans(old(model), model);
    }

    /** One look at the earliest job: cancelled, due, or still to come. */
    method TickStep(now: int, ghost before: Model) returns (done: bool)
      requires Mirror(model) && Ticking(before, model) && Forgotten(before, model) && model.clock == now
      modifies `tasks, `defs, `model, pendingJobs, defs
      ensures Mirror(model) && Ticking(before, model) && Forgotten(before, model) && model.clock == now
      ensures defs == old(defs)
      ensures done ==> forall p :: p in model.pending ==> p.0 > now
      ensures !done ==> Weight(model.pending, now) < Weight(old(model).pending, now)
    {
      hide Queued, Recorded, Ticking, Forgotten;
      var top := Peak(model.pending, pendingJobs);
      if top.None? {
        return true;
      }
      var (t, d) := top.value;
      PendingIsKnown(before, model, top.value);
      RecordedIs(defs, model.cancelled, d);
      if d.cancelled {
        DropForgets(before, model, top.value);
        DropCancelled(top.value, before);
        return false;
      }
      if t > now {
        return true;
      }
      TickOnlyEnds(before, model);
      RunForgets(before, model, top.value);
      Execute(top.value, before);
      done := false;
    }

    method DropCancelled(p: (int, TaskDef), ghost before: Model)
      requires Mirror(model) && Ticking(before, model) && pendingJobs.data != [] && pendingJobs.data[0] == p
      requires p in model.pending && p.1 in model.cancelled && model.cancelled[p.1]
      modifies `tasks, `defs, `model, pendingJobs
      ensures Mirror(model) && Ticking(before, model) && model == AfterDrop(old(model), p) && defs == old(defs)
      ensures Weight(model.pending, model.clock) < Weight(old(model).pending, model.clock)
    {
      hide Queued, Recorded, Ticking;
      TickDrops(before, model, p);
      DropGetsCheaper(model, p);
      ghost var m := AfterDrop(model, p);
      Pop(model.pending, pendingJobs, p);
      var left := tasks - {p.1.name};
      Take(left, defs, m);
    }

    /** executeTask. The task function is code of its own; that it runs is what the log records. */
    method Execute(p: (int, TaskDef), ghost before: Model)
      requires Mirror(model) && Ticking(before, model) && pendingJobs.data != [] && pendingJobs.data[0] == p
      requires p in model.pending && p.1 in model.cancelled && !model.cancelled[p.1] && p.0 <= model.clock
      requires p.1 in defs && Moves(p.1.interval) && forall q :: q in model.pending ==> p.0 <= q.0
      modifies `tasks, `defs, `model, pendingJobs, defs
      ensures Mirror(model) && Ticking(before, model) && model == AfterRun(old(model), p) && defs == old(defs)
      ensures Weight(model.pending, model.clock) < Weight(old(model).pending, model.clock)
    {
      hide Queued, Recorded, Ticking;
      TickRuns(before, model, p);
      RunGetsCheaper(model, p);
      Pop(model.pending, pendingJobs, p);
      if p.1.interval <= 0 {
        Retire(p);
      } else {
        Reschedule(p);
      }
    }

    method Retire(p: (int, TaskDef))
      requires Queued(pendingJobs, model.pending - multiset{p}) && Recorded(defs, model.cancelled)
      requires tasks == model.tasks
      requires tick >= 1000 && p.1 in defs && p.1.interval <= 0
      modifies `tasks, `defs, `model, defs
      ensures Mirror(model) && model == AfterRun(old(model), p) && defs == old(defs)
    {
      hide Queued, Recorded;
      ghost var m := AfterRun(model, p);
      Cancel(defs, model.cancelled, p.1);
      var left := tasks - {p.1.name};
      Take(left, defs, m);
    }

    method Reschedule(p: (int, TaskDef))
      requires Queued(pendingJobs, model.pending - multiset{p}) && Recorded(defs, model.cancelled)
      requires tasks == model.tasks
      requires tick >= 1000 && p.1.interval > 0
      modifies `tasks, `defs, `model, pendingJobs
      ensures Mirror(model) && model == AfterRun(old(model), p) && defs == old(defs)
    {
      hide Queued, Recorded;
      ghost var m := AfterRun(model, p);
      Push(model.pending - multiset{p}, pendingJobs, p.0 + StepOf(p.1.interval), p.1);
      Take(tasks, defs, m);
    }
  }

  /** A scheduler of its own for one task, and one tick. */
  method ScheduleAndTick(interval: int, timeout: int, now: int, later: int) returns (s: Scheduler, d: TaskDef)
    requires 0 <= now <= later
    requires (timeout == 0 && interval >= 1_000_000_000) || (interval == 0 && timeout >= 1_000_000_000)
    ensures s.Valid() && d in s.defs
    ensures timeout > 0 ==>
      Runs(s.model, d) == if later < now + timeout / 1000 then [] else [now + timeout / 1000]
    ensures interval > 0 ==>
      |Runs(s.model, d)| == if later < now + interval / 1000 then 0 else (later - now) / (interval / 1000)
    ensures interval > 0 ==> forall i :: 0 <= i < |Runs(s.model, d)| ==>
      Runs(s.model, d)[i] == now + (i + 1) * (interval / 1000)
  {
    hide Holds, Queued, Recorded, Runs, Ticking, OnSchedule;
    s := new Scheduler(0, true);
    var err := s.ScheduleTask("task", interval, timeout, false, true, now);
    d := s.tasks["task"];
    s.Tick(later);
    if interval > 0 {
      FromNowOn(Runs(s.model, d), interval, now, later);
    } else {
      OnceOnly(Runs(s.model, d), now + timeout / 1000, later);
    }
  }
}
