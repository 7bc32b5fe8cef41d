/** How long the scheduler and the futures of its jobs can go on: only as long as jobs are added. */
module AsyncFuncSteps {
  import opened Status
  import opened AsyncFunc
  import F = FutureProtocol
  import S = AsyncFuncScheduler

  // ---- One future ----

  /** How many steps the caller can take without another notification. */
  function CallerSteps(pc: F.Pc): nat {
    match pc
    case CodeUnlock(_) | FailUnlock => 1
    case CodeRead | LateRelock => 2
    case CodeLock | Take => 3
    case WaitUnlock | Release => 4
    case AppendUnlock => 5
    case Append => 8
    case AppendLock => 9
    case Check => 10
    case Relock | WaitLock => 11
    case _ => 0
  }

  /** How many steps the notifying task can take when the queue is empty. */
  function RunnerSteps(pc: F.Pc): nat {
    match pc
    case NotifyUnlock => 1
    case BroadcastUnlock => 2
    case Drain => 3
    case BroadcastLock | Give(_) => 4
    case Publish(_) => 5
    case NotifyLock(_) => 6
    case _ => 0
  }

  /** How often the notifying task can still turn the count of the caller from zero to one: twice, if the caller takes
      the first notification before the broadcast is over. */
  function Wakeups(runner: F.Pc, caller: F.Local): nat {
    if runner.NotifyLock? || runner.Publish? then 2
    else if F.Broadcasting(runner) then (if caller.count == 0 then 1 else 0) + (if caller.pc.Take? then 1 else 0)
    else 0
  }

  /** A pending notification is worth a round of the wait of the caller. */
  const ROUND := 9

  function LocalRank(runner: F.Pc, caller: F.Local, queued: nat): nat {
    CallerSteps(caller.pc) + RunnerSteps(runner) + 2 * queued
    + ROUND * (Wakeups(runner, caller) + if caller.count > 0 then 1 else 0)
  }

  function FutureRank(f: F.State): nat {
    if |f.threads| == 2 then LocalRank(f.threads[RUNNER].pc, f.threads[CALLER], |f.tasks|) else 0
  }

  /** The roles at a future: the scheduler's task notifies and the caller does not. */
  ghost predicate Roles(f: F.State) {
    F.Exclusive(f) && |f.threads| == 2 && F.Notifier(f.threads[RUNNER].pc) && !F.Notifier(f.threads[CALLER].pc)
  }

  lemma RunnerRank(f: F.State)
    requires Roles(f) && F.Enabled(f, RUNNER)
    ensures FutureRank(F.Step(f, RUNNER)) < FutureRank(f)
  {
  }

  /** Taking a notification starts another round. */
  lemma TakeRank(f: F.State)
    requires Roles(f) && F.Enabled(f, CALLER) && f.threads[CALLER].pc.Take?
    ensures FutureRank(F.Step(f, CALLER)) < FutureRank(f)
  {
  }

  /** All other steps of the caller need the mutex, so there is no broadcast, or leave its wait. */
  lemma CallerRank(f: F.State)
    requires Roles(f) && F.Enabled(f, CALLER)
    ensures FutureRank(F.Step(f, CALLER)) < FutureRank(f)
  {
    if f.threads[CALLER].pc.Take? {
      TakeRank(f);
    } else {
      var f' := F.Step(f, CALLER);
      assert f'.threads[RUNNER] == f.threads[RUNNER] && f'.threads[CALLER].count == f.threads[CALLER].count;
      assert CallerSteps(f'.threads[CALLER].pc) + 2 * |f'.tasks| < CallerSteps(f.threads[CALLER].pc) + 2 * |f.tasks|;
      assert !F.Broadcasting(f.threads[RUNNER].pc);
    }
  }

  lemma TimeUpRank(f: F.State, t: F.Task)
    requires Roles(f) && F.Possible(f, F.TimeUp(t))
    ensures FutureRank(F.Next(f, F.TimeUp(t))) < FutureRank(f)
  {
  }

  lemma StrayRank(f: F.State, t: F.Task)
    ensures FutureRank(F.Notify(f, t)) <= FutureRank(f) + ROUND
  {
  }

  lemma FutureStep(f: F.State, e: F.Event)
    requires Roles(f) && F.Possible(f, e)
    ensures FutureRank(F.Next(f, e)) <= if e.Stray? then FutureRank(f) + ROUND else FutureRank(f) - 1
  {
    match e
    case Run(t) =>
      if t == RUNNER {
        RunnerRank(f);
      } else {
        CallerRank(f);
      }
    case Stray(t) => StrayRank(f, t);
    case TimeUp(t) => TimeUpRank(f, t);
  }

  // ---- All futures ----

  function RankAt(futures: map<S.Job, F.State>, job: S.Job): nat {
    if job in futures then FutureRank(futures[job]) else 0
  }

  function Total(jobs: seq<S.Job>, futures: map<S.Job, F.State>): nat {
    if jobs == [] then 0 else Total(jobs[..|jobs| - 1], futures) + RankAt(futures, jobs[|jobs| - 1])
  }

  lemma {:induction false} TotalOfOthers(jobs: seq<S.Job>, futures: map<S.Job, F.State>, job: S.Job, f: F.State)
    requires job !in jobs
    ensures Total(jobs, futures[job := f]) == Total(jobs, futures)
  {
    if jobs != [] {
      TotalOfOthers(jobs[..|jobs| - 1], futures, job, f);
      assert jobs[|jobs| - 1] in jobs;
    }
  }

  lemma {:induction false} TotalUpdate(jobs: seq<S.Job>, futures: map<S.Job, F.State>, job: S.Job, f: F.State)
    requires Distinct(jobs) && job in jobs && job in futures
    ensures Total(jobs, futures[job := f]) == Total(jobs, futures) - FutureRank(futures[job]) + FutureRank(f)
  {
    var front, last := jobs[..|jobs| - 1], jobs[|jobs| - 1];
    if last == job {
      TotalOfOthers(front, futures, job, f);
    } else {
      TotalUpdate(front, futures, job, f);
    }
  }

  lemma TotalOfMore(jobs: seq<S.Job>, futures: map<S.Job, F.State>, job: S.Job, f: F.State)
    requires job !in jobs
    ensures Total(jobs + [job], futures[job := f]) == Total(jobs, futures) + FutureRank(f)
  {
    TotalOfOthers(jobs, futures, job, f);
    assert (jobs + [job])[..|jobs|] == jobs;
  }

  function SchedulerRank(s: S.State): int {
    |s.accepted| - |s.executed| + (if s.writeQueue == [] then 0 else 2) + if s.running then 1 else 0
  }

  function Rank(c: State): int {
    SchedulerRank(c.scheduler) + Total(c.scheduler.accepted, c.futures)
  }

  // ---- Every event ----

  /** A step of the scheduler's run or of a task at a future, or the end of the time of a caller. */
  predicate Working(e: Event) {
    e.Execute? || e.End? || (e.Future? && !e.event.Stray?)
  }

  /** How much an event adds to what the system can still do. */
  function Gain(e: Event): nat {
    match e
    case Add(_, _) => 47
    case Future(_, event) => if event.Stray? then ROUND else 0
    case _ => 0
  }

  lemma NewRank(f: F.State, code: StatusCode)
    requires NewFuture(f, code)
    ensures FutureRank(f) <= 44
  {
  }

  lemma AddRank(max: nat, c: State, result: S.Job -> StatusCode, job: S.Job, future: F.State)
    requires Inv(max, c, result) && Possible(c, result, Add(job, future))
    ensures Rank(Next(max, c, result, Add(job, future))) <= Rank(c) + 47
  {
    NewRank(future, result(job));
    assert job !in c.scheduler.accepted;
    TotalOfMore(c.scheduler.accepted, c.futures, job, future);
  }

  lemma SchedulerStep(max: nat, s: S.State, e: S.Event)
    requires S.Inv(max, s) && S.Possible(s, e) && !e.Add?
    ensures S.Next(max, s, e).accepted == s.accepted
    ensures SchedulerRank(S.Next(max, s, e)) <= SchedulerRank(s) - if e.Begin? && s.writeQueue == [] then 0 else 1
  {
  }

  lemma FutureEventRank(max: nat, c: State, result: S.Job -> StatusCode, job: S.Job, event: F.Event)
    requires Inv(max, c, result) && Possible(c, result, Future(job, event))
    ensures Rank(Next(max, c, result, Future(job, event))) <= Rank(c) + if event.Stray? then ROUND else -1
  {
    var f := c.futures[job];
    assert Sound(f, result(job));
    FutureStep(f, event);
    assert job in c.scheduler.accepted;
    TotalUpdate(c.scheduler.accepted, c.futures, job, F.Next(f, event));
  }

  lemma RunEventRank(max: nat, c: State, result: S.Job -> StatusCode, e: Event, event: S.Event)
    requires Inv(max, c, result) && Possible(c, result, e) && S.Possible(c.scheduler, event) && !event.Add?
    requires Next(max, c, result, e) == c.(scheduler := S.Next(max, c.scheduler, event))
    ensures Rank(Next(max, c, result, e)) <= Rank(c) - if event.Begin? && c.scheduler.writeQueue == [] then 0 else 1
  {
    SchedulerStep(max, c.scheduler, event);
  }

  lemma EventRank(max: nat, c: State, result: S.Job -> StatusCode, e: Event)
    requires Inv(max, c, result) && Possible(c, result, e)
    ensures Rank(Next(max, c, result, e)) <= Rank(c) + Gain(e) - if Working(e) then 1 else 0
    ensures e.Begin? && c.scheduler.writeQueue != [] ==> Rank(Next(max, c, result, e)) < Rank(c)
  {
    match e
    case Add(job, future) => AddRank(max, c, result, job, future);
    case Begin => RunEventRank(max, c, result, e, S.Begin);
    case Execute => RunEventRank(max, c, result, e, S.Execute);
    case End => RunEventRank(max, c, result, e, S.End);
    case Future(job, event) => FutureEventRank(max, c, result, job, event);
  }

  function Steps(events: seq<Event>): nat {
    if events == [] then 0 else (if Working(events[0]) then 1 else 0) + Steps(events[1..])
  }

  function Gains(events: seq<Event>): nat {
    if events == [] then 0 else Gain(events[0]) + Gains(events[1..])
  }

  lemma {:induction false} StepsFrom(max: nat, c: State, result: S.Job -> StatusCode, events: seq<Event>, c': State)
    requires Inv(max, c, result) && Leads(max, c, result, events, c')
    ensures Steps(events) + Rank(c') <= Rank(c) + Gains(events)
    decreases |events|
  {
    if events != [] {
      StepInv(max, c, result, events[0]);
      EventRank(max, c, result, events[0]);
      StepsFrom(max, Next(max, c, result, events[0]), result, events[1..], c');
    }
  }

  lemma RankIsNat(max: nat, c: State, result: S.Job -> StatusCode)
    requires Inv(max, c, result)
    ensures Rank(c) >= 0
  {
    S.InvOrder(max, c.scheduler);
  }

  /** In every run the scheduler and all tasks at all futures together take at most 47 steps for each job that was added
      and 9 for each stray notification, in any order and whatever the results. So they come to rest when no more jobs
      are added, and then every caller has its answer. */
  lemma StepsAreBounded(max: nat, result: S.Job -> StatusCode, events: seq<Event>, c: State)
    requires Leads(max, EMPTY, result, events, c)
    ensures Steps(events) <= Gains(events)
  {
    EmptyInv(max, result);
    RunInv(max, EMPTY, result, events, c);
    StepsFrom(max, EMPTY, result, events, c);
    RankIsNat(max, c, result);
  }

  // ---- Coming to rest ----

  /** Something other than new jobs, stray notifications and timeouts. */
  predicate Inner(e: Event) {
    match e
    case Add(_, _) => false
    case Future(_, event) => event.Run?
    case _ => true
  }

  ghost predicate AllInner(events: seq<Event>) {
    forall e :: e in events ==> Inner(e)
  }

  /** What is not stuck can go on by itself. */
  lemma NotStuck(c: State, result: S.Job -> StatusCode) returns (e: Event)
    requires !Stuck(c, result)
    ensures Inner(e) && Possible(c, result, e) && (e.Begin? ==> c.scheduler.writeQueue != [])
  {
    if !c.scheduler.running && c.scheduler.writeQueue != [] {
      e := Begin;
    } else if Possible(c, result, Execute) {
      e := Execute;
    } else if Possible(c, result, End) {
      e := End;
    } else {
      var job, t :| job in c.futures && Possible(c, result, Future(job, F.Run(t)));
      e := Future(job, F.Run(t));
    }
  }

  /** From every reachable state the system can come to rest by itself. */
  lemma {:induction false} ComesToRest(max: nat, c: State, result: S.Job -> StatusCode)
    returns (events: seq<Event>, c': State)
    requires Inv(max, c, result)
    ensures AllInner(events) && Leads(max, c, result, events, c') && Stuck(c', result)
    decreases Rank(c)
  {
    if Stuck(c, result) {
      events, c' := [], c;
    } else {
      var e := NotStuck(c, result);
      var next := Next(max, c, result, e);
      StepInv(max, c, result, e);
      EventRank(max, c, result, e);
      RankIsNat(max, next, result);
      var rest;
      rest, c' := ComesToRest(max, next, result);
      events := [e] + rest;
      assert events[1..] == rest;
    }
  }
}
