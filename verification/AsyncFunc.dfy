/** A call that runs on the scheduler's task and waits for its result: the scheduler and the futures of all accepted
    jobs as one system. */
module AsyncFunc {
  import opened Status
  import F = FutureProtocol
  import S = AsyncFuncScheduler

  /** In the protocol of each future the scheduler's task notifies and the caller waits. */
  const RUNNER: F.Task := 0
  const CALLER: F.Task := 1

  datatype State = State(scheduler: S.State, futures: map<S.Job, F.State>)

  /** A future that has just been created: its function will notify it with the result of the job. */
  predicate NewFuture(f: F.State, result: StatusCode) {
    && f.code == Last && f.mu.None? && f.condMu.None? && f.tasks == [] && f.codes == []
    && |f.threads| == 2 && f.threads[RUNNER].pc == F.NotifyLock(result) && f.threads[CALLER].pc.WaitLock?
  }

  /** What can happen next: a job is added with a new future, a run begins or ends, the function at the position of the
      run has notified its future and returns, or something happens at the future of a job. The scheduler's task is
      at the future of the job that it executes and at no other. */
  datatype Event = Add(job: S.Job, future: F.State) | Begin | Execute | End | Future(job: S.Job, event: F.Event)

  predicate Current(s: S.State, job: S.Job) {
    s.running && s.at < |s.readQueue| && s.readQueue[s.at] == job
  }

  predicate Possible(c: State, result: S.Job -> StatusCode, e: Event) {
    match e
    case Add(job, future) => job !in c.futures && NewFuture(future, result(job))
    case Begin => S.Possible(c.scheduler, S.Begin)
    case Execute =>
      && S.Possible(c.scheduler, S.Execute)
      && var job := c.scheduler.readQueue[c.scheduler.at];
      && job in c.futures && |c.futures[job].threads| == 2
      && c.futures[job].threads[RUNNER].pc.Notified?
    case End => S.Possible(c.scheduler, S.End)
    case Future(job, event) =>
      && job in c.futures && F.Possible(c.futures[job], event)
      && (event == F.Run(RUNNER) ==> Current(c.scheduler, job))
  }

  function Next(max: nat, c: State, result: S.Job -> StatusCode, e: Event): State
    requires Possible(c, result, e)
  {
    match e
    case Add(job, future) =>
      if |c.scheduler.writeQueue| == max then c
      else State(S.Next(max, c.scheduler, S.Add(job)), c.futures[job := future])
    case Begin => c.(scheduler := S.Next(max, c.scheduler, S.Begin))
    case Execute => c.(scheduler := S.Next(max, c.scheduler, S.Execute))
    case End => c.(scheduler := S.Next(max, c.scheduler, S.End))
    case Future(job, event) => c.(futures := c.futures[job := F.Next(c.futures[job], event)])
  }

  ghost predicate Leads(max: nat, c: State, result: S.Job -> StatusCode, events: seq<Event>, c': State)
    decreases |events|
  {
    if events == [] then c == c'
    else Possible(c, result, events[0]) && Leads(max, Next(max, c, result, events[0]), result, events[1..], c')
  }

  // ---- The invariant ----

  /** A future in a reachable state, notified by its function alone. */
  ghost predicate Sound(f: F.State, code: StatusCode) {
    F.Inv(f) && |f.threads| == 2 && F.OneNotifier(f, RUNNER, code)
  }

  /** Every accepted job has a future of its own. */
  ghost predicate Paired(c: State) {
    forall job :: job in c.scheduler.accepted <==> job in c.futures
  }

  /** No job is accepted twice. */
  predicate Distinct(jobs: seq<S.Job>) {
    forall i, j :: 0 <= i < j < |jobs| ==> jobs[i] != jobs[j]
  }

  /** Executed jobs have notified their futures; jobs that are not executed yet nor just now have not begun to. */
  ghost predicate InStep(c: State) {
    forall i :: 0 <= i < |c.scheduler.accepted| && c.scheduler.accepted[i] in c.futures ==>
      Stage(c, i, c.futures[c.scheduler.accepted[i]])
  }

  predicate Stage(c: State, i: int, f: F.State)
    requires 0 <= i < |c.scheduler.accepted|
  {
    && |f.threads| == 2
    && (i < |c.scheduler.executed| ==> f.threads[RUNNER].pc.Notified?)
    && (i >= |c.scheduler.executed| && !Current(c.scheduler, c.scheduler.accepted[i]) ==>
        f.threads[RUNNER].pc.NotifyLock?)
  }

  ghost predicate Inv(max: nat, c: State, result: S.Job -> StatusCode) {
    && S.Inv(max, c.scheduler) && Paired(c) && Distinct(c.scheduler.accepted)
    && (forall job :: job in c.futures ==> Sound(c.futures[job], result(job)))
    && InStep(c)
  }

  /** The job at the position of the run is the first that is accepted and not executed. */
  lemma CurrentIsNext(max: nat, s: S.State, job: S.Job)
    requires S.Inv(max, s) && Current(s, job)
    ensures |s.executed| < |s.accepted| && s.accepted[|s.executed|] == job
  {
  }

  lemma NewIsSound(f: F.State, code: StatusCode)
    requires NewFuture(f, code)
    ensures Sound(f, code)
  {
  }

  lemma AddInv(max: nat, c: State, result: S.Job -> StatusCode, job: S.Job, future: F.State)
    requires Inv(max, c, result) && Possible(c, result, Add(job, future))
    ensures Inv(max, Next(max, c, result, Add(job, future)), result)
  {
    if |c.scheduler.writeQueue| != max {
      S.StepInv(max, c.scheduler, S.Add(job));
      NewIsSound(future, result(job));
      S.InvOrder(max, c.scheduler);
      var s := c.scheduler;
      AddStages(c, s.(writeQueue := s.writeQueue + [job], accepted := s.accepted + [job]), job, future);
    }
  }

  /** A new job joins those that have not begun. */
  lemma AddStages(c: State, scheduler: S.State, job: S.Job, future: F.State)
    requires Paired(c) && Distinct(c.scheduler.accepted) && InStep(c) && job !in c.futures
    requires |c.scheduler.executed| <= |c.scheduler.accepted|
    requires scheduler == c.scheduler.(writeQueue := scheduler.writeQueue, accepted := c.scheduler.accepted + [job])
    requires |future.threads| == 2 && future.threads[RUNNER].pc.NotifyLock?
    ensures var c' := State(scheduler, c.futures[job := future]);
            Paired(c') && Distinct(c'.scheduler.accepted) && InStep(c')
  {
    var c' := State(scheduler, c.futures[job := future]);
    var accepted, n := c.scheduler.accepted, |c.scheduler.accepted|;
    forall i | 0 <= i < n ensures accepted[i] in c.futures && accepted[i] != job {
      assert accepted[i] in accepted;
    }
    forall i | 0 <= i <= n && c'.scheduler.accepted[i] in c'.futures
      ensures Stage(c', i, c'.futures[c'.scheduler.accepted[i]])
    {
      if i < n {
        assert Stage(c, i, c.futures[accepted[i]]);
      }
    }
  }

  lemma BeginInv(max: nat, c: State, result: S.Job -> StatusCode)
    requires Inv(max, c, result) && Possible(c, result, Begin)
    ensures Inv(max, Next(max, c, result, Begin), result)
  {
    S.StepInv(max, c.scheduler, S.Begin);
    var c' := Next(max, c, result, Begin);
    assert c'.scheduler.accepted == c.scheduler.accepted && c'.scheduler.executed == c.scheduler.executed;
    forall i | 0 <= i < |c.scheduler.accepted| && c.scheduler.accepted[i] in c.futures
      ensures Stage(c', i, c.futures[c.scheduler.accepted[i]])
    {
      assert Stage(c, i, c.futures[c.scheduler.accepted[i]]);
    }
  }

  lemma EndInv(max: nat, c: State, result: S.Job -> StatusCode)
    requires Inv(max, c, result) && Possible(c, result, End)
    ensures Inv(max, Next(max, c, result, End), result)
  {
    S.StepInv(max, c.scheduler, S.End);
    var c' := Next(max, c, result, End);
    forall i | 0 <= i < |c.scheduler.accepted| && c.scheduler.accepted[i] in c.futures
      ensures Stage(c', i, c.futures[c.scheduler.accepted[i]])
    {
      assert Stage(c, i, c.futures[c.scheduler.accepted[i]]);
    }
  }

  lemma ExecuteInv(max: nat, c: State, result: S.Job -> StatusCode)
    requires Inv(max, c, result) && Possible(c, result, Execute)
    ensures Inv(max, Next(max, c, result, Execute), result)
  {
    S.StepInv(max, c.scheduler, S.Execute);
    var c' := Next(max, c, result, Execute);
    var job := c.scheduler.readQueue[c.scheduler.at];
    CurrentIsNext(max, c.scheduler, job);
    forall i | 0 <= i < |c.scheduler.accepted| && c.scheduler.accepted[i] in c.futures
      ensures Stage(c', i, c.futures[c.scheduler.accepted[i]])
    {
      assert Stage(c, i, c.futures[c.scheduler.accepted[i]]);
    }
  }

  /** Only its own steps move the task that notifies. */
  lemma NotifierStays(f: F.State, e: F.Event, n: F.Task, code: StatusCode)
    requires F.OneNotifier(f, n, code) && F.Possible(f, e) && e != F.Run(n)
    ensures |F.Next(f, e).threads| == |f.threads| && F.Next(f, e).threads[n].pc == f.threads[n].pc
  {
  }

  lemma NextIsSound(f: F.State, e: F.Event, code: StatusCode)
    requires Sound(f, code) && F.Possible(f, e)
    ensures Sound(F.Next(f, e), code)
  {
    F.StepInv(f, e);
    F.StepOneNotifier(f, e, RUNNER, code);
    assert F.Leads(F.Next(f, e), [], F.Next(f, e));
    F.SameTasks(f, [e], F.Next(f, e));
  }

  /** What happens at a future leaves its job at its stage if its notifier stays or its job is the current one. */
  lemma FutureStages(c: State, job: S.Job, f: F.State)
    requires InStep(c) && Distinct(c.scheduler.accepted) && job in c.futures
    requires |c.futures[job].threads| == |f.threads| == 2
    requires
      || f.threads[RUNNER].pc == c.futures[job].threads[RUNNER].pc
      || (|c.scheduler.executed| < |c.scheduler.accepted| && c.scheduler.accepted[|c.scheduler.executed|] == job
          && Current(c.scheduler, job))
    ensures InStep(c.(futures := c.futures[job := f]))
  {
    var c' := c.(futures := c.futures[job := f]);
    forall i | 0 <= i < |c.scheduler.accepted| && c.scheduler.accepted[i] in c'.futures
      ensures Stage(c', i, c'.futures[c.scheduler.accepted[i]])
    {
      assert Stage(c, i, c.futures[c.scheduler.accepted[i]]);
    }
  }

  lemma FutureInStep(max: nat, c: State, result: S.Job -> StatusCode, job: S.Job, event: F.Event)
    requires Inv(max, c, result) && Possible(c, result, Future(job, event))
    ensures InStep(c.(futures := c.futures[job := F.Next(c.futures[job], event)]))
  {
    var f := c.futures[job];
    assert Sound(f, result(job));
    if event == F.Run(RUNNER) {
      CurrentIsNext(max, c.scheduler, job);
    } else {
      NotifierStays(f, event, RUNNER, result(job));
    }
    FutureStages(c, job, F.Next(f, event));
  }

  lemma FutureInv(max: nat, c: State, result: S.Job -> StatusCode, job: S.Job, event: F.Event)
    requires Inv(max, c, result) && Possible(c, result, Future(job, event))
    ensures Inv(max, Next(max, c, result, Future(job, event)), result)
  {
    NextIsSound(c.futures[job], event, result(job));
    FutureInStep(max, c, result, job, event);
  }

  lemma StepInv(max: nat, c: State, result: S.Job -> StatusCode, e: Event)
    requires Inv(max, c, result) && Possible(c, result, e)
    ensures Inv(max, Next(max, c, result, e), result)
  {
    match e
    case Add(job, future) => AddInv(max, c, result, job, future);
    case Begin => BeginInv(max, c, result);
    case Execute => ExecuteInv(max, c, result);
    case End => EndInv(max, c, result);
    case Future(job, event) => FutureInv(max, c, result, job, event);
  }

  lemma {:induction false} RunInv(max: nat, c: State, result: S.Job -> StatusCode, events: seq<Event>, c': State)
    requires Inv(max, c, result) && Leads(max, c, result, events, c')
    ensures Inv(max, c', result)
    decreases |events|
  {
    if events != [] {
      StepInv(max, c, result, events[0]);
      RunInv(max, Next(max, c, result, events[0]), result, events[1..], c');
    }
  }

  const EMPTY := State(S.START, map[])

  lemma EmptyInv(max: nat, result: S.Job -> StatusCode)
    ensures Inv(max, EMPTY, result)
  {
  }

  /** In every run each future holds no result or that of its own job, its caller has returned nothing but that
      result, and it has been notified once if its job has been executed. */
  lemma OwnResult(max: nat, result: S.Job -> StatusCode, events: seq<Event>, c: State, job: S.Job)
    requires Leads(max, EMPTY, result, events, c) && job in c.futures
    ensures c.futures[job].codes == [] || c.futures[job].codes == [result(job)]
    ensures job in c.scheduler.executed ==> c.futures[job].codes == [result(job)]
    ensures |c.futures[job].threads| == 2
    ensures c.futures[job].threads[CALLER].pc.Returned? ==> c.futures[job].threads[CALLER].pc.read == result(job)
  {
    EmptyInv(max, result);
    RunInv(max, EMPTY, result, events, c);
    assert Sound(c.futures[job], result(job));
    if job in c.scheduler.executed {
      ExecutedIsNotified(max, c, result, job);
    }
  }

  lemma ExecutedIsNotified(max: nat, c: State, result: S.Job -> StatusCode, job: S.Job)
    requires Inv(max, c, result) && job in c.futures && job in c.scheduler.executed
    ensures |c.futures[job].threads| == 2 && c.futures[job].threads[RUNNER].pc.Notified?
  {
    var i :| 0 <= i < |c.scheduler.executed| && c.scheduler.executed[i] == job;
    S.InvOrder(max, c.scheduler);
    assert c.scheduler.accepted[i] == job;
    assert Stage(c, i, c.futures[job]);
  }

  /** Nothing can happen but new jobs, stray notifications and timeouts. */
  ghost predicate Stuck(c: State, result: S.Job -> StatusCode) {
    && (c.scheduler.running || c.scheduler.writeQueue == [])
    && !Possible(c, result, Execute) && !Possible(c, result, End)
    && forall job, t :: job in c.futures ==> !Possible(c, result, Future(job, F.Run(t)))
  }

  /** A run goes on: the function executed now returns when nothing can happen at its future. */
  lemma RunProceeds(max: nat, c: State, result: S.Job -> StatusCode)
    requires Inv(max, c, result) && c.scheduler.running
    requires forall job, t :: job in c.futures ==> !Possible(c, result, Future(job, F.Run(t)))
    ensures Possible(c, result, Execute) || Possible(c, result, End)
  {
    var s := c.scheduler;
    if s.at < |s.readQueue| {
      var job := s.readQueue[s.at];
      CurrentIsNext(max, s, job);
      assert job in s.accepted;
      var f := c.futures[job];
      assert Sound(f, result(job));
      forall t | 0 <= t < |f.threads| ensures !F.Enabled(f, t) {
        assert !Possible(c, result, Future(job, F.Run(t)));
      }
      F.StuckIsDone(f);
      assert F.Notifier(f.threads[RUNNER].pc);
    }
  }

  /** When nothing can happen the runner is not in a run. */
  lemma StuckIsIdle(max: nat, c: State, result: S.Job -> StatusCode)
    requires Inv(max, c, result) && Stuck(c, result)
    ensures !c.scheduler.running && c.scheduler.executed == c.scheduler.accepted
  {
    if c.scheduler.running {
      RunProceeds(max, c, result);
    }
  }

  /** When nothing more can happen every accepted job has been executed, and every caller has returned: with the result
      of its own job, or with an error if its time was up. A job whose result is `Last` leaves its caller waiting. */
  lemma EveryCallerReturns(max: nat, result: S.Job -> StatusCode, events: seq<Event>, c: State)
    requires Leads(max, EMPTY, result, events, c) && Stuck(c, result)
    ensures c.scheduler.executed == c.scheduler.accepted
    ensures forall job :: job in c.scheduler.accepted ==>
              && job in c.futures && |c.futures[job].threads| == 2
              && Answered(c.futures[job].threads[CALLER].pc, result(job))
  {
    EmptyInv(max, result);
    RunInv(max, EMPTY, result, events, c);
    StuckIsIdle(max, c, result);
    forall job | job in c.scheduler.accepted ensures Answered(c.futures[job].threads[CALLER].pc, result(job)) {
      CallerReturns(max, c, result, job);
    }
  }

  predicate Answered(pc: F.Pc, code: StatusCode) {
    pc.Failed? || (if code != Last then pc == F.Returned(code) else pc.Take?)
  }

  lemma DoneIsAnswered(f: F.State, code: StatusCode)
    requires Sound(f, code) && f.threads[RUNNER].pc.Notified? && forall t :: 0 <= t < |f.threads| ==> !F.Enabled(f, t)
    ensures Answered(f.threads[CALLER].pc, code)
  {
    F.StuckIsDone(f);
    assert f.codes == [code];
    assert !F.Notifier(f.threads[CALLER].pc);
  }

  lemma CallerReturns(max: nat, c: State, result: S.Job -> StatusCode, job: S.Job)
    requires Inv(max, c, result) && Stuck(c, result)
    requires !c.scheduler.running && c.scheduler.executed == c.scheduler.accepted
    requires job in c.futures
    ensures Answered(c.futures[job].threads[CALLER].pc, result(job))
  {
    var f := c.futures[job];
    ExecutedIsNotified(max, c, result, job);
    assert Sound(f, result(job));
    forall t | 0 <= t < |f.threads| ensures !F.Enabled(f, t) {
      if t != RUNNER {
        assert !Possible(c, result, Future(job, F.Run(t)));
      }
    }
    DoneIsAnswered(f, result(job));
  }
}
