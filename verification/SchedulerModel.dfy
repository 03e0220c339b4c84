/**
 Timed tasks: what holds of the registered tasks and the pending jobs between calls, and how often and
 when every task has run. Times are microseconds, intervals nanoseconds.
 */
module SchedulerModel {

  class TaskDef {
    const name: string
    const interval: int
    /** When the task was first due. */
    ghost const first: int
    var cancelled: bool

    constructor (name: string, interval: int, ghost first: int)
      ensures this.name == name && this.interval == interval && this.first == first && !cancelled
    {
      this.name, this.interval, this.first, cancelled := name, interval, first, false;
    }
  }

  /** Microseconds between two runs of a repeating task. */
  function StepOf(interval: int): int { interval / 1000 }

  /** Long enough for a repeating task to move on in time. */
  predicate Moves(interval: int) { interval <= 0 || StepOf(interval) > 0 }

  type Jobs = multiset<(int, TaskDef)>
  type Log = seq<(int, TaskDef)>

  /** The times at which a task has run. */
  function TimesOf(log: Log, d: TaskDef): seq<int> {
    if log == [] then []
    else
      var before, (t, e) := TimesOf(log[..|log| - 1], d), log[|log| - 1];
      if e == d then before + [t] else before
  }

  lemma TimesSnoc(log: Log, t: int, e: TaskDef, d: TaskDef)
    ensures TimesOf(log + [(t, e)], d) == if e == d then TimesOf(log, d) + [t] else TimesOf(log, d)
  {
    assert (log + [(t, e)])[..|log|] == log;
  }

  /** Registered tasks, the tasks ever made (cancelled or not), pending jobs, everything run, and the clock. */
  datatype Model = Model(
    tasks: map<string, TaskDef>, cancelled: map<TaskDef, bool>, pending: Jobs, log: Log, clock: int)

  const Empty := Model(map[], map[], multiset{}, [], 0)

  ghost function Runs(s: Model, d: TaskDef): seq<int> { TimesOf(s.log, d) }

  /** When the task is due next. */
  ghost function NextTime(s: Model, d: TaskDef): int {
    if Runs(s, d) == [] then d.first else Runs(s, d)[|Runs(s, d)| - 1] + StepOf(d.interval)
  }

  /** Run first at the first due time and then once every interval, a task that does not repeat at most once. */
  ghost predicate Nominal(s: Model, d: TaskDef) {
    var runs := Runs(s, d);
    && (runs != [] ==> runs[0] == d.first && runs[|runs| - 1] <= s.clock)
    && (forall i :: 0 < i < |runs| ==> runs[i] == runs[i - 1] + StepOf(d.interval))
    && Moves(d.interval) && (d.interval <= 0 ==> |runs| <= 1)
  }

  /** A pending job is its task's only one, at the time the task is due next. */
  ghost predicate Proper(s: Model, p: (int, TaskDef)) {
    s.pending[p] == 1 && p.1 in s.cancelled && p.0 == NextTime(s, p.1) && (p.1.interval <= 0 ==> Runs(s, p.1) == [])
  }

  /** An uncancelled task has a pending job. */
  ghost predicate Alive(s: Model, d: TaskDef)
    requires d in s.cancelled
  {
    Nominal(s, d) && (!s.cancelled[d] ==> (NextTime(s, d), d) in s.pending)
  }

  /** A registered task is uncancelled. */
  ghost predicate Registered(s: Model) {
    forall k :: k in s.tasks ==> s.tasks[k] in s.cancelled && s.tasks[k].name == k && !s.cancelled[s.tasks[k]]
  }

  ghost predicate Holds(s: Model) {
    && Registered(s)
    && (forall p :: p in s.pending ==> Proper(s, p))
    && (forall d :: d in s.cancelled ==> Alive(s, d))
    && (forall x :: x in s.log ==> x.1 in s.cancelled)
  }

  /** Every task has at most one pending job, and a registered one has exactly one. */
  lemma OnePendingJob(s: Model, d: TaskDef, p: (int, TaskDef), q: (int, TaskDef))
    requires Holds(s)
    ensures p in s.pending && q in s.pending && p.1 == q.1 ==> p == q && s.pending[p] == 1
    ensures d.name in s.tasks && s.tasks[d.name] == d ==> !s.cancelled[d] && s.pending[(NextTime(s, d), d)] == 1
  {
    assert p in s.pending ==> Proper(s, p);
    assert q in s.pending ==> Proper(s, q);
    if d.name in s.tasks && s.tasks[d.name] == d {
      assert Proper(s, (NextTime(s, d), d));
    }
  }

  lemma {:induction false} NeverRun(log: Log, d: TaskDef)
    requires forall x :: x in log ==> x.1 != d
    ensures TimesOf(log, d) == []
  {
    if log != [] {
      NeverRun(log[..|log| - 1], d);
      assert log[|log| - 1] in log;
    }
  }

  ghost function AfterSchedule(s: Model, d: TaskDef, now: int): Model {
    s.(tasks := s.tasks[d.name := d], cancelled := s.cancelled[d := false],
       pending := s.pending + multiset{(d.first, d)}, clock := now)
  }

  lemma LaterHolds(s: Model, now: int)
    requires Holds(s) && s.clock <= now
    ensures Holds(s.(clock := now))
  {
    var s' := s.(clock := now);
    forall p | p in s'.pending ensures Proper(s', p) { assert Proper(s, p); }
    forall d | d in s'.cancelled ensures Alive(s', d) { assert Alive(s, d); }
  }

  lemma NoJobYet(s: Model, d: TaskDef)
    requires Holds(s) && d !in s.cancelled
    ensures forall p :: p in s.pending ==> p.1 != d
  {
    forall p | p in s.pending ensures p.1 in s.cancelled { assert Proper(s, p); }
  }

  lemma ScheduleHolds(s: Model, d: TaskDef, now: int)
    requires Holds(s) && s.clock <= now && d !in s.cancelled && d.name !in s.tasks && Moves(d.interval)
    ensures Holds(AfterSchedule(s, d, now))
  {
    hide Proper, Alive;
    var s' := AfterSchedule(s, d, now);
    NeverRun(s.log, d);
    NoJobYet(s, d);
    forall p | p in s'.pending ensures Proper(s', p) { ScheduleKeepsProper(s, d, now, p); }
    forall e | e in s'.cancelled ensures Alive(s', e) { ScheduleKeepsAlive(s, d, now, e); }
  }

  lemma ScheduleKeepsProper(s: Model, d: TaskDef, now: int, p: (int, TaskDef))
    requires d !in s.cancelled && Runs(s, d) == [] && (forall q :: q in s.pending ==> q.1 != d)
    requires p in AfterSchedule(s, d, now).pending && (p in s.pending ==> Proper(s, p))
    ensures Proper(AfterSchedule(s, d, now), p)
  {
  }

  lemma ScheduleKeepsAlive(s: Model, d: TaskDef, now: int, e: TaskDef)
    requires s.clock <= now && Runs(s, d) == [] && Moves(d.interval)
    requires e != d ==> e in s.cancelled && Alive(s, e)
    ensures Alive(AfterSchedule(s, d, now), e)
  {
  }

  ghost function AfterStop(s: Model, name: string): Model
    requires name in s.tasks
  {
    s.(tasks := s.tasks - {name}, cancelled := s.cancelled[s.tasks[name] := true])
  }

  lemma StopHolds(s: Model, name: string)
    requires Holds(s) && name in s.tasks
    ensures Holds(AfterStop(s, name))
  {
    var s' := AfterStop(s, name);
    forall p | p in s'.pending ensures Proper(s', p) { assert Proper(s, p); }
    forall d | d in s'.cancelled ensures Alive(s', d) { assert Alive(s, d); }
  }

  /** A cancelled job is dropped, and with it whatever task has the name. */
  ghost function AfterDrop(s: Model, p: (int, TaskDef)): Model {
    s.(tasks := s.tasks - {p.1.name}, pending := s.pending - multiset{p})
  }

  lemma DropHolds(s: Model, p: (int, TaskDef))
    requires Holds(s) && p in s.pending && p.1 in s.cancelled && s.cancelled[p.1]
    ensures Holds(AfterDrop(s, p))
  {
    hide Proper, Alive;
    var s' := AfterDrop(s, p);
    assert Proper(s, p);
    forall q | q in s'.pending ensures Proper(s', q) { DropKeepsProper(s, p, q); }
    forall d | d in s'.cancelled ensures Alive(s', d) { DropKeepsAlive(s, p, d); }
  }

  lemma DropKeepsProper(s: Model, p: (int, TaskDef), q: (int, TaskDef))
    requires p in s.pending && Proper(s, p) && q in AfterDrop(s, p).pending && (q in s.pending ==> Proper(s, q))
    ensures Proper(AfterDrop(s, p), q)
  {
  }

  lemma DropKeepsAlive(s: Model, p: (int, TaskDef), d: TaskDef)
    requires p.1 in s.cancelled && s.cancelled[p.1] && d in s.cancelled && Alive(s, d)
    ensures Alive(AfterDrop(s, p), d)
  {
  }

  /** A due job runs; a repeating task gets its next job, another is cancelled and its name dropped. */
  ghost function AfterRun(s: Model, p: (int, TaskDef)): Model {
    var rest := s.pending - multiset{p};
    if p.1.interval > 0 then
      s.(pending := rest + multiset{(p.0 + StepOf(p.1.interval), p.1)}, log := s.log + [p])
    else
      s.(tasks := s.tasks - {p.1.name}, cancelled := s.cancelled[p.1 := true], pending := rest, log := s.log + [p])
  }

  lemma RunHolds(s: Model, p: (int, TaskDef))
    requires Holds(s) && p in s.pending && p.0 <= s.clock && (p.1 in s.cancelled ==> !s.cancelled[p.1])
    ensures Holds(AfterRun(s, p))
  {
    assert Proper(s, p);
    var s' := AfterRun(s, p);
    forall q | q in s'.pending ensures Proper(s', q) { RunKeepsProper(s, p, q); }
    forall d | d in s'.cancelled ensures Alive(s', d) { RunKeepsAlive(s, p, d); }
    RunKeepsRegistered(s, p);
  }

  lemma RunKeepsRegistered(s: Model, p: (int, TaskDef))
    requires Registered(s) && p.1 in s.cancelled
    ensures Registered(AfterRun(s, p))
  {
  }

  lemma RunKeepsProper(s: Model, p: (int, TaskDef), q: (int, TaskDef))
    requires Holds(s) && p in s.pending && p.0 <= s.clock && q in AfterRun(s, p).pending
    ensures Proper(AfterRun(s, p), q)
  {
    assert Proper(s, p) && Alive(s, p.1);
    if q.1 == p.1 {
      RunMovesOn(s, p, q);
    } else {
      assert q in s.pending && Proper(s, q);
      RunKeepsOther(s, p, q.1);
    }
  }

  lemma RunKeepsAlive(s: Model, p: (int, TaskDef), d: TaskDef)
    requires Holds(s) && p in s.pending && p.0 <= s.clock && d in s.cancelled
    ensures Alive(AfterRun(s, p), d)
  {
    assert Proper(s, p) && Alive(s, p.1) && Alive(s, d);
    if d == p.1 { RunAgain(s, p); } else { OtherStaysAlive(s, p, d); }
  }

  lemma OtherStaysAlive(s: Model, p: (int, TaskDef), d: TaskDef)
    requires d in s.cancelled && Alive(s, d) && d != p.1
    ensures Alive(AfterRun(s, p), d)
  {
    RunKeepsOther(s, p, d);
    assert AfterRun(s, p).pending[(NextTime(s, d), d)] == s.pending[(NextTime(s, d), d)];
  }

  lemma RunKeepsOther(s: Model, p: (int, TaskDef), d: TaskDef)
    requires d != p.1
    ensures Runs(AfterRun(s, p), d) == Runs(s, d) && NextTime(AfterRun(s, p), d) == NextTime(s, d)
    ensures Nominal(s, d) ==> Nominal(AfterRun(s, p), d)
    ensures forall t: int :: AfterRun(s, p).pending[(t, d)] == s.pending[(t, d)]
  {
    TimesSnoc(s.log, p.0, p.1, d);
  }

  /** The task that runs runs at its nominal time, and is next due one interval later. */
  lemma RunAgain(s: Model, p: (int, TaskDef))
    requires p in s.pending && Proper(s, p) && Nominal(s, p.1) && p.0 <= s.clock
    ensures Runs(AfterRun(s, p), p.1) == Runs(s, p.1) + [p.0] && Nominal(AfterRun(s, p), p.1)
    ensures NextTime(AfterRun(s, p), p.1) == p.0 + StepOf(p.1.interval)
    ensures p.1.interval > 0 ==> (p.0 + StepOf(p.1.interval), p.1) in AfterRun(s, p).pending
  {
    TimesSnoc(s.log, p.0, p.1, p.1);
  }

  lemma RunMovesOn(s: Model, p: (int, TaskDef), q: (int, TaskDef))
    requires p in s.pending && Proper(s, p) && Nominal(s, p.1) && p.0 <= s.clock
    requires q in AfterRun(s, p).pending && q.1 == p.1 && (q in s.pending ==> Proper(s, q))
    ensures Proper(AfterRun(s, p), q)
  {
    RunAgain(s, p);
    OnlyNext(s, p, q);
  }

  /** The only job of the task that has just run is its next one, and only if it repeats. */
  lemma OnlyNext(s: Model, p: (int, TaskDef), q: (int, TaskDef))
    requires Moves(p.1.interval)
    requires p in s.pending && Proper(s, p) && q.1 == p.1 && (q in s.pending ==> Proper(s, q))
    requires q in AfterRun(s, p).pending
    ensures p.1.interval > 0 && q.0 == p.0 + StepOf(p.1.interval) && AfterRun(s, p).pending[q] == 1
  {
    hide NextTime, Runs;
    assert q in s.pending ==> q.0 == p.0;
  }

  /** What a tick has done so far: jobs ran in order of due time, none that was cancelled before or not yet due. */
  ghost predicate RanSince(before: Model, s: Model) {
    && before.log <= s.log
    && (forall i :: |before.log| <= i < |s.log| ==>
      s.log[i].0 <= s.clock && s.log[i].1 in before.cancelled && !before.cancelled[s.log[i].1])
    && (forall i, j :: |before.log| <= i < j < |s.log| ==> s.log[i].0 <= s.log[j].0)
  }

  /**
   What it may have changed besides. A task is cancelled only by having run, and only if it does not repeat;
   a name is unregistered only together with a cancelled task of that name.
   */
  ghost predicate OnlyEnded(before: Model, s: Model) {
    && (forall k :: k in s.tasks ==> k in before.tasks && s.tasks[k] == before.tasks[k])
    && s.cancelled.Keys == before.cancelled.Keys
    && (forall d :: d in before.cancelled && before.cancelled[d] ==> s.cancelled[d])
    && (forall d :: d in before.cancelled && s.cancelled[d] && !before.cancelled[d] ==>
      d.interval <= 0 && Runs(s, d) != [])
    && (forall k :: k in before.tasks && k !in s.tasks ==> Unregistered(s, k))
  }

  ghost predicate Unregistered(s: Model, name: string) {
    exists d :: d in s.cancelled && s.cancelled[d] && d.name == name
  }

  /** Nothing pending is due before what has just run. */
  ghost predicate PendingAfter(before: Model, s: Model) {
    forall i, p :: |before.log| <= i < |s.log| && p in s.pending ==> s.log[i].0 <= p.0
  }

  ghost predicate Ticking(before: Model, s: Model) {
    Holds(s) && RanSince(before, s) && OnlyEnded(before, s) && PendingAfter(before, s)
  }

  lemma TickHolds(before: Model, s: Model)
    requires Ticking(before, s)
    ensures Holds(s)
  {
  }

  lemma PendingIsKnown(before: Model, s: Model, p: (int, TaskDef))
    requires Ticking(before, s) && p in s.pending
    ensures p.1 in s.cancelled && Moves(p.1.interval)
  {
    assert Proper(s, p) && Alive(s, p.1);
  }

  lemma RegisteredIsKnown(s: Model, name: string)
    requires Holds(s) && name in s.tasks
    ensures s.tasks[name] in s.cancelled
  {
  }

  lemma TickOnlyEnds(before: Model, s: Model)
    requires Ticking(before, s)
    ensures OnlyEnded(before, s)
  {
  }

  lemma TickBegins(s: Model, now: int)
    requires Holds(s) && s.clock <= now
    ensures Ticking(s, s.(clock := now))
  {
    LaterHolds(s, now);
  }

  lemma TickDrops(before: Model, s: Model, p: (int, TaskDef))
    requires Ticking(before, s) && p in s.pending && p.1 in s.cancelled && s.cancelled[p.1]
    ensures Ticking(before, AfterDrop(s, p))
  {
    DropHolds(s, p);
    DropEndsOnly(before, s, p);
  }

  lemma TickRuns(before: Model, s: Model, p: (int, TaskDef))
    requires Ticking(before, s) && p in s.pending && p.1 in s.cancelled && !s.cancelled[p.1] && p.0 <= s.clock
    requires forall q :: q in s.pending ==> p.0 <= q.0
    ensures Ticking(before, AfterRun(s, p))
  {
    RunHolds(s, p);
    RanInOrder(before, s, p);
    RunEndsOnly(before, s, p);
    RanBeforePending(before, s, p);
  }

  lemma RunEndsOnly(before: Model, s: Model, p: (int, TaskDef))
    requires OnlyEnded(before, s) && p.1 in s.cancelled
    ensures OnlyEnded(before, AfterRun(s, p))
  {
    var s' := AfterRun(s, p);
    forall d | d in before.cancelled && s'.cancelled[d] && !before.cancelled[d]
      ensures d.interval <= 0 && Runs(s', d) != []
    {
      TimesSnoc(s.log, p.0, p.1, d);
    }
    forall k | k in before.tasks && k !in s'.tasks ensures Unregistered(s', k) {
      if k in s.tasks {
        assert s'.cancelled[p.1] && p.1.name == k;
      } else {
        assert Unregistered(s, k);
        var d :| d in s.cancelled && s.cancelled[d] && d.name == k;
        assert s'.cancelled[d];
      }
    }
  }

  lemma DropEndsOnly(before: Model, s: Model, p: (int, TaskDef))
    requires OnlyEnded(before, s) && p.1 in s.cancelled && s.cancelled[p.1]
    ensures OnlyEnded(before, AfterDrop(s, p))
  {
    var s' := AfterDrop(s, p);
    forall k | k in before.tasks && k !in s'.tasks ensures Unregistered(s', k) {
      if k in s.tasks {
        assert s'.cancelled[p.1] && p.1.name == k;
      } else {
        assert Unregistered(s, k);
        var d :| d in s.cancelled && s.cancelled[d] && d.name == k;
        assert s'.cancelled[d];
      }
    }
  }

  lemma RanBeforePending(before: Model, s: Model, p: (int, TaskDef))
    requires Holds(s) && before.log <= s.log && PendingAfter(before, s)
    requires p in s.pending && forall q :: q in s.pending ==> p.0 <= q.0
    ensures PendingAfter(before, AfterRun(s, p))
  {
    var s' := AfterRun(s, p);
    forall i, q | |before.log| <= i < |s'.log| && q in s'.pending ensures s'.log[i].0 <= q.0 {
      RunGoesForward(s, p, q);
      if i < |s.log| { assert s'.log[i] == s.log[i] && s.log[i].0 <= p.0; }
    }
  }

  lemma RanInOrder(before: Model, s: Model, p: (int, TaskDef))
    requires RanSince(before, s) && PendingAfter(before, s) && OnlyEnded(before, s)
    requires p in s.pending && p.1 in s.cancelled && !s.cancelled[p.1] && p.0 <= s.clock
    ensures RanSince(before, AfterRun(s, p))
  {
    var s' := AfterRun(s, p);
    forall i | |before.log| <= i < |s'.log|
      ensures s'.log[i].0 <= s'.clock && s'.log[i].1 in before.cancelled && !before.cancelled[s'.log[i].1]
    {
      if i < |s.log| { assert s'.log[i] == s.log[i]; }
    }
    forall i, j | |before.log| <= i < j < |s'.log| ensures s'.log[i].0 <= s'.log[j].0 {
      assert s'.log[i] == s.log[i];
      if j < |s.log| { assert s'.log[j] == s.log[j]; }
    }
  }

  lemma RunGoesForward(s: Model, p: (int, TaskDef), q: (int, TaskDef))
    requires Holds(s) && p in s.pending && q in AfterRun(s, p).pending
    requires forall r :: r in s.pending ==> p.0 <= r.0
    ensures p.0 <= q.0
  {
    assert Proper(s, p) && Alive(s, p.1);
  }

  /** How much a pending job still costs a tick at `now`. */
  function Cost(p: (int, TaskDef), now: int): nat { if p.0 <= now then now - p.0 + 2 else 1 }

  ghost function Pick(jobs: Jobs): (p: (int, TaskDef))
    requires jobs != multiset{}
    ensures p in jobs
  {
    var p :| p in jobs;
    p
  }

  ghost function Weight(jobs: Jobs, now: int): nat {
    if jobs == multiset{} then 0 else Cost(Pick(jobs), now) + Weight(jobs - multiset{Pick(jobs)}, now)
  }

  lemma MinusCommutes<T>(m: multiset<T>, p: T, q: T)
    ensures m - multiset{p} - multiset{q} == m - multiset{q} - multiset{p}
  {
  }

  lemma {:induction false} WeightWithout(jobs: Jobs, p: (int, TaskDef), now: int)
    requires p in jobs
    ensures Weight(jobs, now) == Cost(p, now) + Weight(jobs - multiset{p}, now)
    decreases |jobs|
  {
    var q := Pick(jobs);
    if q != p {
      WeightWithout(jobs - multiset{q}, p, now);
      WeightWithout(jobs - multiset{p}, q, now);
      MinusCommutes(jobs, p, q);
    }
  }

  lemma WeightWith(jobs: Jobs, p: (int, TaskDef), now: int)
    ensures Weight(jobs + multiset{p}, now) == Cost(p, now) + Weight(jobs, now)
  {
    WeightWithout(jobs + multiset{p}, p, now);
    assert jobs + multiset{p} - multiset{p} == jobs;
  }

  /** Every job taken out makes a tick cheaper, put back one interval later or not: ticks end. */
  lemma DropGetsCheaper(s: Model, p: (int, TaskDef))
    requires p in s.pending
    ensures Weight(AfterDrop(s, p).pending, s.clock) < Weight(s.pending, s.clock)
  {
    WeightWithout(s.pending, p, s.clock);
  }

  lemma PutBackLater(jobs: Jobs, p: (int, TaskDef), q: (int, TaskDef), now: int)
    requires p in jobs && p.0 <= now && p.0 < q.0
    ensures Weight(jobs - multiset{p} + multiset{q}, now) < Weight(jobs, now)
  {
    WeightWithout(jobs, p, now);
    WeightWith(jobs - multiset{p}, q, now);
  }

  lemma RunGetsCheaper(s: Model, p: (int, TaskDef))
    requires p in s.pending && p.0 <= s.clock && Moves(p.1.interval)
    ensures Weight(AfterRun(s, p).pending, s.clock) < Weight(s.pending, s.clock)
  {
    hide Weight, StepOf;
    if p.1.interval > 0 {
      PutBackLater(s.pending, p, (p.0 + StepOf(p.1.interval), p.1), s.clock);
    } else {
      WeightWithout(s.pending, p, s.clock);
    }
  }

  /** A repeating task with an interval under one microsecond is put back where it was, and only such a one. */
  lemma StandsStillIff(s: Model, p: (int, TaskDef))
    requires p in s.pending && p.1.interval > 0
    ensures AfterRun(s, p).pending == s.pending <==> !Moves(p.1.interval)
  {
    var rest, q := s.pending - multiset{p}, (p.0 + StepOf(p.1.interval), p.1);
    assert s.pending == rest + multiset{p};
    if q != p {
      assert (rest + multiset{q})[p] == s.pending[p] - 1;
    }
  }

  /** The i-th run is at the first due time plus i intervals. */
  lemma {:induction false} RunTimes(s: Model, d: TaskDef, i: nat)
    requires Nominal(s, d) && i < |Runs(s, d)|
    ensures Runs(s, d)[i] == d.first + i * (d.interval / 1000)
  {
    if i > 0 {
      RunTimes(s, d, i - 1);
      assert i * StepOf(d.interval) == (i - 1) * StepOf(d.interval) + StepOf(d.interval);
    }
  }

  /**
   Once no pending job is due, an uncancelled repeating task first due at T has run (now - T) / I + 1 times,
   or not at all if now is before T, at T, T + I, T + 2I and so on.
   */
  lemma RunCount(s: Model, d: TaskDef)
    requires Holds(s) && d in s.cancelled && !s.cancelled[d] && d.interval > 0
    requires forall p :: p in s.pending ==> p.0 > s.clock
    ensures var I := d.interval / 1000;
      && I > 0
      && |Runs(s, d)| == (if s.clock < d.first then 0 else (s.clock - d.first) / I + 1)
      && forall i :: 0 <= i < |Runs(s, d)| ==> Runs(s, d)[i] == d.first + i * I
  {
    assert Alive(s, d);
    var runs, I := Runs(s, d), StepOf(d.interval);
    forall i | 0 <= i < |runs| ensures runs[i] == d.first + i * I { RunTimes(s, d, i); }
    if runs != [] {
      var n := |runs| - 1;
      assert d.first + n * I <= s.clock < d.first + n * I + I;
      QuotientIs(s.clock - d.first, I, n);
    }
  }

  lemma ScaleMonotone(a: int, b: int, step: int)
    requires a <= b && step > 0
    ensures a * step <= b * step
  {
    assert b * step - a * step == (b - a) * step;
  }

  lemma QuotientIs(x: int, step: int, n: nat)
    requires step > 0 && n * step <= x < n * step + step
    ensures x / step == n
  {
    var q := x / step;
    assert q * step <= x < q * step + step;
    if q > n { ScaleMonotone(n + 1, q, step); }
    if q < n { ScaleMonotone(q + 1, n, step); }
  }

  /** Whatever has run did so at the first due time or later, and not ahead of the clock. */
  lemma NothingEarly(s: Model, i: nat)
    requires Holds(s) && i < |s.log|
    ensures s.log[i].1.first <= s.log[i].0 <= s.clock
  {
    var (t, d) := s.log[i];
    assert s.log[i] in s.log && Alive(s, d);
    var n := RunOf(s.log, i);
    RunTimes(s, d, n);
    var runs := Runs(s, d);
    RunTimes(s, d, |runs| - 1);
    if d.interval > 0 {
      ScaleMonotone(0, n, d.interval / 1000);
      ScaleMonotone(n, |runs| - 1, d.interval / 1000);
    }
  }

  /** Which of the task's runs a log entry is. */
  lemma {:induction false} RunOf(log: Log, i: nat) returns (n: nat)
    requires i < |log|
    ensures n < |TimesOf(log, log[i].1)| && TimesOf(log, log[i].1)[n] == log[i].0
  {
    if i == |log| - 1 {
      n := |TimesOf(log[..i], log[i].1)|;
    } else {
      n := RunOf(log[..|log| - 1], i);
    }
  }

  /** A task that does not repeat has run once it is due, unless it was cancelled before. */
  lemma OneShotRan(before: Model, s: Model, d: TaskDef)
    requires Ticking(before, s) && d in before.cancelled && !before.cancelled[d] && d.interval <= 0
    requires forall p :: p in s.pending ==> p.0 > s.clock
    ensures Runs(s, d) == if d.first <= s.clock then [d.first] else []
  {
    OneShot(s, d);
    assert Alive(s, d);
    if Runs(s, d) != [] { assert Runs(s, d)[0] <= s.clock; }
  }

  /** Cancelled jobs that have come up have taken whatever had their name off the register. */
  ghost predicate Forgotten(before: Model, s: Model) {
    forall p :: p in before.pending && p !in s.pending && p.1 in before.cancelled && before.cancelled[p.1] ==>
      p.1.name !in s.tasks
  }

  /** A repeating task first due one interval after `now`. */
  lemma FromNowOn(runs: seq<int>, interval: int, now: int, later: int)
    requires interval >= 1000 && OnSchedule(runs, now + interval / 1000, interval, later)
    ensures var I := interval / 1000;
      && |runs| == (if later < now + I then 0 else (later - now) / I)
      && forall i :: 0 <= i < |runs| ==> runs[i] == now + (i + 1) * I
  {
    var I := interval / 1000;
    if later >= now + I {
      var q := (later - now - I) / I;
      assert q * I <= later - now - I < q * I + I;
      assert (q + 1) * I == q * I + I;
      QuotientIs(later - now, I, q + 1);
    }
    forall i | 0 <= i < |runs| ensures runs[i] == now + (i + 1) * I {
      assert (i + 1) * I == i * I + I;
    }
  }

  lemma OnceOnly(runs: seq<int>, first: int, later: int)
    requires OnSchedule(runs, first, 0, later)
    ensures runs == if later < first then [] else [first]
  {
  }

  lemma NothingForgotten(before: Model, s: Model)
    requires s.pending == before.pending
    ensures Forgotten(before, s)
  {
  }

  /** What a tick that leaves nothing due has run, and what not. */
  lemma TickMeans(before: Model, s: Model)
    requires Ticking(before, s) && forall p :: p in s.pending ==> p.0 > s.clock
    ensures before.log <= s.log && s.cancelled.Keys == before.cancelled.Keys
    ensures forall i :: |before.log| <= i < |s.log| ==>
      && s.log[i].1.first <= s.log[i].0 <= s.clock
      && s.log[i].1 in before.cancelled && !before.cancelled[s.log[i].1]
    ensures forall d :: d in before.cancelled && !before.cancelled[d] ==>
      OnSchedule(Runs(s, d), d.first, d.interval, s.clock)
  {
    forall i | |before.log| <= i < |s.log| ensures s.log[i].1.first <= s.log[i].0 { NothingEarly(s, i); }
    forall d | d in before.cancelled && !before.cancelled[d]
      ensures OnSchedule(Runs(s, d), d.first, d.interval, s.clock)
    {
      if d.interval <= 0 { OneShotRan(before, s, d); } else { RunCount(s, d); }
    }
  }

  /** Run once when first due, or then and at every interval after it, up to now. */
  ghost predicate OnSchedule(runs: seq<int>, first: int, interval: int, now: int) {
    if now < first then runs == []
    else if interval <= 0 then runs == [first]
    else
      && interval / 1000 > 0 && |runs| == (now - first) / (interval / 1000) + 1
      && forall i :: 0 <= i < |runs| ==> runs[i] == first + i * (interval / 1000)
  }

  lemma ForgottenMeans(before: Model, s: Model)
    requires Forgotten(before, s)
    ensures forall p :: p in before.pending && p !in s.pending && p.1 in before.cancelled && before.cancelled[p.1] ==>
      p.1.name !in s.tasks
  {
  }

  lemma DropForgets(before: Model, s: Model, p: (int, TaskDef))
    requires Forgotten(before, s)
    ensures Forgotten(before, AfterDrop(s, p))
  {
  }

  lemma RunForgets(before: Model, s: Model, p: (int, TaskDef))
    requires Forgotten(before, s) && OnlyEnded(before, s) && p.1 in s.cancelled && !s.cancelled[p.1]
    ensures Forgotten(before, AfterRun(s, p))
  {
  }

  /** A task that does not repeat runs at most once. */
  lemma OneShot(s: Model, d: TaskDef)
    requires Holds(s) && d in s.cancelled && d.interval <= 0
    ensures |Runs(s, d)| <= 1 && (Runs(s, d) != [] ==> Runs(s, d) == [d.first] && s.cancelled[d])
  {
    assert Alive(s, d);
    if !s.cancelled[d] {
      assert Proper(s, (NextTime(s, d), d));
    }
  }

  lemma {:induction false} NoneSince(log: Log, more: Log, d: TaskDef)
    requires log <= more && forall i :: |log| <= i < |more| ==> more[i].1 != d
    ensures TimesOf(more, d) == TimesOf(log, d)
  {
    if |log| < |more| {
      NoneSince(log, more[..|more| - 1], d);
    } else {
      assert log == more;
    }
  }

  /** A task cancelled before a tick does not run in it. */
  lemma CancelledStaysStill(before: Model, s: Model, d: TaskDef)
    requires RanSince(before, s) && d in before.cancelled && before.cancelled[d]
    ensures Runs(s, d) == Runs(before, d)
  {
    NoneSince(before.log, s.log, d);
  }
}
