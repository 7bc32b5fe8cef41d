/** The one-shot result (Future) on top of a condition variable over task notifications (Cond), as atomic steps of
    any number of tasks. Tasks either wait for the result and read it, or notify it. */
module FutureProtocol {
  import opened Options
  import opened Status

  type Task = nat

  /** Where a task is. Each value names the statement the task executes next. */
  datatype Pc =
      // Future::wait with Cond::wait inside
    | WaitLock
    | Check
    | AppendLock
    | Append
    | AppendUnlock
    | Release
    | Take
    | Relock
    | WaitUnlock
    | LateRelock
    | FailUnlock
    | Failed
      // Future::code
    | CodeLock
    | CodeRead
    | CodeUnlock(read: StatusCode)
    | Returned(read: StatusCode)
      // Future::notify with Cond::broadcast inside
    | NotifyLock(code: StatusCode)
    | Publish(code: StatusCode)
    | BroadcastLock
    | Drain
    | Give(task: Task)
    | BroadcastUnlock
    | NotifyUnlock
    | Notified

  /** A task and its notification count. */
  datatype Local = Local(pc: Pc, count: nat)

  /** `mu` and `condMu` are the owners of the mutexes of the future and of its condition variable; `tasks` is the
      queue of waiting tasks; `codes` lists the codes given to notify, in order. */
  datatype State = State(code: StatusCode, mu: Option<Task>, condMu: Option<Task>, tasks: seq<Task>,
                         threads: seq<Local>, codes: seq<StatusCode>)

  predicate Enabled(s: State, t: Task) {
    t < |s.threads| &&
    match s.threads[t].pc
    case WaitLock | Relock | LateRelock | CodeLock | NotifyLock(_) => s.mu.None?
    case AppendLock | BroadcastLock => s.condMu.None?
    case Take => s.threads[t].count > 0
    case Failed | Returned(_) | Notified => false
    case _ => true
  }

  function Goto(s: State, t: Task, pc: Pc): State
    requires t < |s.threads|
  {
    s.(threads := s.threads[t := s.threads[t].(pc := pc)])
  }

  /** xTaskNotifyGive. */
  function Notify(s: State, t: Task): State {
    if t < |s.threads| then s.(threads := s.threads[t := s.threads[t].(count := s.threads[t].count + 1)]) else s
  }

  /** One step of task `t`. */
  function Step(s: State, t: Task): State
    requires Enabled(s, t)
  {
    match s.threads[t].pc
    case WaitLock => Goto(s, t, Check).(mu := Some(t))
    case Check => Goto(s, t, if s.code == Last then AppendLock else WaitUnlock)
    case AppendLock => Goto(s, t, Append).(condMu := Some(t))
    case Append => Goto(s, t, AppendUnlock).(tasks := s.tasks + [t])
    case AppendUnlock => Goto(s, t, Release).(condMu := None)
    case Release => Goto(s, t, Take).(mu := None)
    case Take => s.(threads := s.threads[t := Local(Relock, 0)])
    case Relock => Goto(s, t, Check).(mu := Some(t))
    case WaitUnlock => Goto(s, t, CodeLock).(mu := None)
    case LateRelock => Goto(s, t, FailUnlock).(mu := Some(t))
    case FailUnlock => Goto(s, t, Failed).(mu := None)
    case CodeLock => Goto(s, t, CodeRead).(mu := Some(t))
    case CodeRead => Goto(s, t, CodeUnlock(s.code))
    case CodeUnlock(code) => Goto(s, t, Returned(code)).(mu := None)
    case NotifyLock(code) => Goto(s, t, Publish(code)).(mu := Some(t))
    case Publish(code) => Goto(s, t, BroadcastLock).(code := code, codes := s.codes + [code])
    case BroadcastLock => Goto(s, t, Drain).(condMu := Some(t))
    case Drain =>
      if s.tasks == [] then Goto(s, t, BroadcastUnlock)
      else Goto(s, t, Give(s.tasks[0])).(tasks := s.tasks[1..])
    case Give(task) => Notify(Goto(s, t, Drain), task)
    case BroadcastUnlock => Goto(s, t, NotifyUnlock).(condMu := None)
    case NotifyUnlock => Goto(s, t, Notified).(mu := None)
  }

  /** What can happen next: a step of a task, a notification from elsewhere in the system, since a task has one
      count for all it waits for, or the end of the time a task is ready to wait for a notification. */
  datatype Event = Run(t: Task) | Stray(t: Task) | TimeUp(t: Task)

  predicate Possible(s: State, e: Event) {
    match e
    case Run(t) => Enabled(s, t)
    case Stray(t) => true
    case TimeUp(t) => t < |s.threads| && s.threads[t].pc.Take? && s.threads[t].count == 0
  }

  function Next(s: State, e: Event): State
    requires Possible(s, e)
  {
    match e
    case Run(t) => Step(s, t)
    case Stray(t) => Notify(s, t)
    case TimeUp(t) => Goto(s, t, LateRelock)
  }

  /** A new future; tasks are about to wait or to notify, with any notifications left from before. */
  ghost predicate Initial(s: State) {
    && s.code == Last && s.mu.None? && s.condMu.None? && s.tasks == [] && s.codes == []
    && forall t :: 0 <= t < |s.threads| ==> s.threads[t].pc.WaitLock? || s.threads[t].pc.NotifyLock?
  }

  /** A run from `s` that ends in `s'`. */
  ghost predicate Leads(s: State, events: seq<Event>, s': State)
    decreases |events|
  {
    if events == [] then s == s'
    else Possible(s, events[0]) && Leads(Next(s, events[0]), events[1..], s')
  }

  // ---- The invariant ----

  predicate HoldsMu(pc: Pc) {
    || pc.Check? || pc.AppendLock? || pc.Append? || pc.AppendUnlock? || pc.Release? || pc.WaitUnlock?
    || pc.FailUnlock? || pc.CodeRead? || pc.CodeUnlock?
    || pc.Publish? || pc.BroadcastLock? || pc.Drain? || pc.Give? || pc.BroadcastUnlock? || pc.NotifyUnlock?
  }

  predicate HoldsCondMu(pc: Pc) {
    pc.Append? || pc.AppendUnlock? || pc.Drain? || pc.Give? || pc.BroadcastUnlock?
  }

  /** The task has seen that there is no result and still has the mutex. */
  predicate Queueing(pc: Pc) {
    pc.AppendLock? || pc.Append? || pc.AppendUnlock? || pc.Release?
  }

  /** The task has put itself on the queue and has not been woken up. */
  predicate Waiting(pc: Pc) {
    pc.AppendUnlock? || pc.Release? || pc.Take?
  }

  /** The task has a result to publish to the queue. */
  predicate Broadcasting(pc: Pc) {
    pc.BroadcastLock? || pc.Drain? || pc.Give?
  }

  /** Future::wait is past its loop, so it returns or has returned OK. */
  predicate Passed(pc: Pc) {
    pc.WaitUnlock? || pc.CodeLock? || pc.CodeRead? || pc.CodeUnlock? || pc.Returned?
  }

  /** The mutex of the future excludes. */
  ghost predicate Exclusive(s: State) {
    && (s.mu.Some? ==> s.mu.value < |s.threads|)
    && forall t :: 0 <= t < |s.threads| ==> (HoldsMu(s.threads[t].pc) <==> s.mu == Some(t))
  }

  /** The mutex of the condition variable excludes. */
  ghost predicate CondExclusive(s: State) {
    && (s.condMu.Some? ==> s.condMu.value < |s.threads|)
    && forall t :: 0 <= t < |s.threads| ==> (HoldsCondMu(s.threads[t].pc) <==> s.condMu == Some(t))
  }

  /** Only a task that saw no result queues up, and there is still none. */
  ghost predicate QueuesOnlyWithoutResult(s: State) {
    forall t :: 0 <= t < |s.threads| && Queueing(s.threads[t].pc) ==> s.code == Last
  }

  /** A task that is woken up by the task that holds the mutex. */
  predicate BeingWoken(s: State, t: Task) {
    s.mu.Some? && s.mu.value < |s.threads| && s.threads[s.mu.value].pc == Give(t)
  }

  /** A waiting task is on the queue, or has a notification pending, or is just getting one. */
  ghost predicate NoneForgotten(s: State) {
    forall t :: 0 <= t < |s.threads| && Waiting(s.threads[t].pc) ==>
      t in s.tasks || s.threads[t].count > 0 || BeingWoken(s, t)
  }

  /** Once there is a result the queue is empty, unless the task that holds the mutex is still emptying it. */
  ghost predicate Emptied(s: State) {
    s.code != Last && s.tasks != [] ==>
      s.mu.Some? && s.mu.value < |s.threads| && Broadcasting(s.threads[s.mu.value].pc)
  }

  predicate AnyResult(codes: seq<StatusCode>) {
    exists i :: 0 <= i < |codes| && codes[i] != Last
  }

  predicate Latest(codes: seq<StatusCode>, code: StatusCode) {
    code == if codes == [] then Last else codes[|codes| - 1]
  }

  /** Future::wait passes only when a result was published, and Future::code returns a published code. */
  ghost predicate Genuine(s: State) {
    && Latest(s.codes, s.code)
    && forall t :: 0 <= t < |s.threads| ==> FromNotify(s.threads[t].pc, s.codes)
  }

  predicate FromNotify(pc: Pc, codes: seq<StatusCode>) {
    && (Passed(pc) ==> AnyResult(codes))
    && (pc.CodeUnlock? || pc.Returned? ==> pc.read in codes)
  }

  ghost predicate Inv(s: State) {
    Exclusive(s) && CondExclusive(s) && QueuesOnlyWithoutResult(s) && NoneForgotten(s) && Emptied(s) && Genuine(s)
  }

  lemma InitialInv(s: State)
    requires Initial(s)
    ensures Inv(s)
  {
  }

  // ---- Every step keeps it ----

  lemma StepExclusive(s: State, t: Task)
    requires Exclusive(s) && Enabled(s, t)
    ensures Exclusive(Step(s, t))
  {
  }

  lemma StepCondExclusive(s: State, t: Task)
    requires CondExclusive(s) && Enabled(s, t)
    ensures CondExclusive(Step(s, t))
  {
  }

  lemma StepQueues(s: State, t: Task)
    requires Exclusive(s) && QueuesOnlyWithoutResult(s) && Enabled(s, t)
    ensures QueuesOnlyWithoutResult(Step(s, t))
  {
  }

  lemma StepNoneForgotten(s: State, t: Task)
    requires Exclusive(s) && NoneForgotten(s) && Enabled(s, t)
    ensures NoneForgotten(Step(s, t))
  {
  }

  lemma StepEmptied(s: State, t: Task)
    requires Exclusive(s) && QueuesOnlyWithoutResult(s) && Emptied(s) && Enabled(s, t)
    ensures Emptied(Step(s, t))
  {
  }

  lemma MoreCodes(pc: Pc, codes: seq<StatusCode>, code: StatusCode)
    requires FromNotify(pc, codes)
    ensures FromNotify(pc, codes + [code])
  {
    if AnyResult(codes) {
      var i :| 0 <= i < |codes| && codes[i] != Last;
      assert (codes + [code])[i] != Last;
    }
  }

  lemma StepGenuine(s: State, t: Task)
    requires Genuine(s) && Enabled(s, t)
    ensures Genuine(Step(s, t))
  {
    var pc := s.threads[t].pc;
    if pc.Publish? {
      forall u | 0 <= u < |s.threads| ensures FromNotify(s.threads[u].pc, s.codes + [pc.code]) {
        MoreCodes(s.threads[u].pc, s.codes, pc.code);
      }
    } else {
      assert s.code != Last ==> s.codes[|s.codes| - 1] != Last;
      assert FromNotify(Step(s, t).threads[t].pc, s.codes);
    }
  }

  lemma StepInv(s: State, e: Event)
    requires Inv(s) && Possible(s, e)
    ensures Inv(Next(s, e))
  {
    match e
    case Run(t) =>
      StepExclusive(s, t);
      StepCondExclusive(s, t);
      StepQueues(s, t);
      StepNoneForgotten(s, t);
      StepEmptied(s, t);
      StepGenuine(s, t);
    case Stray(t) =>
      StrayInv(s, t);
    case TimeUp(t) =>
      TimeoutInv(s, t);
  }

  lemma TimeoutInv(s: State, t: Task)
    requires Inv(s) && Possible(s, TimeUp(t))
    ensures Inv(Next(s, TimeUp(t)))
  {
  }

  lemma StrayInv(s: State, t: Task)
    requires Inv(s)
    ensures Inv(Notify(s, t))
  {
    var s' := Notify(s, t);
    assert forall u :: 0 <= u < |s.threads| ==>
        s'.threads[u].pc == s.threads[u].pc && s'.threads[u].count >= s.threads[u].count;
  }

  lemma {:induction false} RunInv(s: State, events: seq<Event>, s': State)
    requires Inv(s) && Leads(s, events, s')
    ensures Inv(s')
    decreases |events|
  {
    if events != [] {
      StepInv(s, events[0]);
      RunInv(Next(s, events[0]), events[1..], s');
    }
  }

  // ---- No lost wakeup ----

  /** In every run: when there is a result and notify has released the mutex, every task inside the wait of the
      condition variable has a notification pending, the queue is empty and no task is about to join it. */
  lemma NoLostWakeup(s: State, events: seq<Event>, s': State)
    requires Initial(s) && Leads(s, events, s')
    requires s'.code != Last && s'.mu.None?
    ensures s'.tasks == []
    ensures forall t :: 0 <= t < |s'.threads| ==> !Queueing(s'.threads[t].pc)
    ensures forall t :: 0 <= t < |s'.threads| && s'.threads[t].pc.Take? ==> s'.threads[t].count > 0
  {
    InitialInv(s);
    RunInv(s, events, s');
  }

  /** No task is yet to notify `Last`, which means no result. */
  ghost predicate NoRetraction(s: State) {
    forall t :: 0 <= t < |s.threads| && (s.threads[t].pc.NotifyLock? || s.threads[t].pc.Publish?) ==>
        s.threads[t].pc.code != Last
  }

  /** There is a result and there will be one. */
  ghost predicate Published(s: State) {
    Inv(s) && s.code != Last && NoRetraction(s)
  }

  lemma StepPublished(s: State, t: Task)
    requires Published(s) && Enabled(s, t)
    ensures Published(Step(s, t)) && |Step(s, t).tasks| <= |s.tasks|
  {
    StepInv(s, Run(t));
    assert !s.threads[t].pc.Append?;
  }

  /** Once there is a result no task puts itself on the queue again, whatever happens. */
  lemma {:induction false} NoMoreQueueing(s: State, events: seq<Event>, s': State)
    requires Published(s) && Leads(s, events, s')
    ensures Published(s') && |s'.tasks| <= |s.tasks|
    ensures forall t :: 0 <= t < |s'.threads| ==> !Queueing(s'.threads[t].pc)
    decreases |events|
  {
    if events != [] {
      var e := events[0];
      match e {
        case Run(t) => StepPublished(s, t);
        case Stray(t) => StrayPublished(s, t);
        case TimeUp(t) => TimeoutFails(s, t);
      }
      NoMoreQueueing(Next(s, e), events[1..], s');
    }
  }

  lemma StrayPublished(s: State, t: Task)
    requires Published(s)
    ensures Published(Notify(s, t))
  {
    StrayInv(s, t);
    var s' := Notify(s, t);
    assert |s'.threads| == |s.threads| && s'.code == s.code;
    assert forall u :: 0 <= u < |s.threads| ==> s'.threads[u].pc == s.threads[u].pc;
  }

  /** Running out of time keeps the result published, and takes the task closer to its end. */
  lemma TimeoutFails(s: State, t: Task)
    requires Published(s) && Possible(s, TimeUp(t))
    ensures Published(Next(s, TimeUp(t)))
    ensures Rank(Next(s, TimeUp(t))) < Rank(s)
    ensures Next(s, TimeUp(t)).tasks == s.tasks
  {
    TimeoutInv(s, t);
    WeightsUpdate(s.threads, t, Local(LateRelock, 0));
  }

  /** The task is on its way out of a timed-out wait. */
  predicate TimedOut(pc: Pc) {
    pc.LateRelock? || pc.FailUnlock? || pc.Failed?
  }

  lemma {:induction false} StaysTimedOut(s: State, events: seq<Event>, s': State, t: Task)
    requires t < |s.threads| && TimedOut(s.threads[t].pc) && Leads(s, events, s')
    ensures t < |s'.threads| && TimedOut(s'.threads[t].pc)
    decreases |events|
  {
    if events != [] {
      StaysTimedOut(Next(s, events[0]), events[1..], s', t);
    }
  }

  /** A wait whose time was up ends with an error, whether there is a result or not, in every run that cannot go on. */
  lemma TimeUpFails(s: State, t: Task, events: seq<Event>, s': State)
    requires Inv(s) && Possible(s, TimeUp(t)) && Leads(Next(s, TimeUp(t)), events, s')
    requires forall u :: 0 <= u < |s'.threads| ==> !Enabled(s', u)
    ensures t < |s'.threads| && s'.threads[t].pc.Failed?
    ensures Next(s, TimeUp(t)).tasks == s.tasks
  {
    TimeoutInv(s, t);
    RunInv(Next(s, TimeUp(t)), events, s');
    StaysTimedOut(Next(s, TimeUp(t)), events, s', t);
    StuckIsDone(s');
    assert Done(s'.threads[t], s'.code);
  }

  /** Future::wait returns OK only after a result was notified, and Future::code then returns a notified code. */
  lemma OkOnlyAfterNotify(s: State, events: seq<Event>, s': State, t: Task)
    requires Initial(s) && Leads(s, events, s') && t < |s'.threads|
    ensures Passed(s'.threads[t].pc) ==> AnyResult(s'.codes)
    ensures s'.threads[t].pc.Returned? ==> s'.threads[t].pc.read in s'.codes
  {
    InitialInv(s);
    RunInv(s, events, s');
  }

  // ---- Everyone returns ----

  /** The task has returned from its calls, or waits for a result that is not there. */
  predicate Done(local: Local, code: StatusCode) {
    local.pc.Notified? || local.pc.Returned? || local.pc.Failed? || (local.pc.Take? && local.count == 0 && code == Last)
  }

  /** Whoever owns a mutex can go on, or is blocked by a task that can. */
  lemma OwnersProceed(s: State)
    requires Exclusive(s) && CondExclusive(s) && (s.mu.Some? || s.condMu.Some?)
    ensures exists t :: 0 <= t < |s.threads| && Enabled(s, t)
  {
    if s.condMu.Some? {
      assert HoldsCondMu(s.threads[s.condMu.value].pc);
      assert Enabled(s, s.condMu.value);
    } else {
      assert HoldsMu(s.threads[s.mu.value].pc);
      assert Enabled(s, s.mu.value);
    }
  }

  /** A run that cannot go on has ended: the mutexes are free, every notify has returned, and the tasks that have not
      returned are waiting for a result that is not there. */
  lemma StuckIsDone(s: State)
    requires Inv(s) && forall t :: 0 <= t < |s.threads| ==> !Enabled(s, t)
    ensures s.mu.None? && s.condMu.None?
    ensures forall t :: 0 <= t < |s.threads| ==> Done(s.threads[t], s.code)
  {
    if s.mu.Some? || s.condMu.Some? {
      OwnersProceed(s);
    }
    forall t | 0 <= t < |s.threads|
      ensures Done(s.threads[t], s.code)
    {
      assert !Enabled(s, t) && !HoldsMu(s.threads[t].pc);
    }
  }

  /** How many steps a task can still take when there is a result. */
  function Weight(local: Local): nat {
    match local.pc
    case Failed | Returned(_) | Notified => 0
    case FailUnlock | CodeUnlock(_) | NotifyUnlock => 1
    case LateRelock | CodeRead | BroadcastUnlock => 2
    case CodeLock | Drain => 3
    case WaitUnlock | Give(_) | BroadcastLock => 4
    case Check | Publish(_) => 5
    case Relock | WaitLock | NotifyLock(_) => 6
    case Take => 7
    case _ => 8
  }

  function Weights(threads: seq<Local>): nat {
    if threads == [] then 0 else Weight(threads[0]) + Weights(threads[1..])
  }

  function Rank(s: State): nat {
    Weights(s.threads) + 2 * |s.tasks|
  }

  lemma {:induction false} WeightsUpdate(threads: seq<Local>, t: Task, local: Local)
    requires t < |threads|
    ensures Weights(threads[t := local]) == Weights(threads) - Weight(threads[t]) + Weight(local)
  {
    if t == 0 {
      assert threads[t := local][1..] == threads[1..];
    } else {
      WeightsUpdate(threads[1..], t - 1, local);
      assert threads[t := local][1..] == threads[1..][t - 1 := local];
    }
  }

  lemma NotifyRank(s: State, t: Task)
    ensures Rank(Notify(s, t)) == Rank(s)
  {
    if t < |s.threads| {
      WeightsUpdate(s.threads, t, s.threads[t].(count := s.threads[t].count + 1));
    }
  }

  lemma StepRank(s: State, t: Task)
    requires Published(s) && Enabled(s, t)
    ensures Rank(Step(s, t)) < Rank(s)
  {
    var pc := s.threads[t].pc;
    assert !Queueing(pc);
    if pc.Give? {
      WeightsUpdate(s.threads, t, s.threads[t].(pc := Drain));
      NotifyRank(Goto(s, t, Drain), pc.task);
    } else {
      StepIsLocal(s, t);
      WeightsUpdate(s.threads, t, Step(s, t).threads[t]);
    }
  }

  /** What a step does to the rank, but for the giving of a notification. */
  lemma StepIsLocal(s: State, t: Task)
    requires Enabled(s, t) && !s.threads[t].pc.Give? && !Queueing(s.threads[t].pc) && s.code != Last
    ensures var s' := Step(s, t);
            && s'.threads == s.threads[t := s'.threads[t]]
            && Weight(s'.threads[t]) + 2 * |s'.tasks| < Weight(s.threads[t]) + 2 * |s.tasks|
  {
  }

  function Runs(events: seq<Event>): nat {
    if events == [] then 0 else (if events[0].Run? then 1 else 0) + Runs(events[1..])
  }

  /** Once there is a result the tasks run out of steps after a bounded number of them, in any order and whatever
      stray notifications come in between. */
  lemma {:induction false} RunsAreBounded(s: State, events: seq<Event>, s': State)
    requires Published(s) && Leads(s, events, s')
    ensures Published(s') && Runs(events) + Rank(s') <= Rank(s)
    decreases |events|
  {
    if events != [] {
      var e := events[0];
      match e {
        case Run(t) =>
          StepPublished(s, t);
          StepRank(s, t);
        case Stray(t) =>
          StrayPublished(s, t);
          NotifyRank(s, t);
        case TimeUp(t) =>
          TimeoutFails(s, t);
      }
      RunsAreBounded(Next(s, e), events[1..], s');
    }
  }

  /** When tasks then have run out of steps every notify has returned, and every wait has returned, too: with OK
      and a code, or with an error if its time was up. */
  lemma EveryoneReturns(s: State, events: seq<Event>, s': State)
    requires Published(s) && Leads(s, events, s')
    requires forall t :: 0 <= t < |s'.threads| ==> !Enabled(s', t)
    ensures forall t :: 0 <= t < |s'.threads| ==>
        s'.threads[t].pc.Notified? || s'.threads[t].pc.Returned? || s'.threads[t].pc.Failed?
  {
    NoMoreQueueing(s, events, s');
    StuckIsDone(s');
  }

  // ---- One notification ----

  /** Task `n` is the only one to notify, with `code`. */
  ghost predicate OneNotifier(s: State, n: Task, code: StatusCode) {
    && n < |s.threads|
    && (forall t :: 0 <= t < |s.threads| ==> (Notifier(s.threads[t].pc) <==> t == n))
    && NotifiedOnce(s.threads[n].pc, s.codes, code)
  }

  /** What a notifying task has published when it is at `pc`. */
  predicate NotifiedOnce(pc: Pc, codes: seq<StatusCode>, code: StatusCode) {
    if pc.NotifyLock? || pc.Publish? then codes == [] && pc.code == code else codes == [code]
  }

  predicate Notifier(pc: Pc) {
    pc.NotifyLock? || pc.Publish? || Broadcasting(pc) || pc.BroadcastUnlock? || pc.NotifyUnlock? || pc.Notified?
  }

  lemma StepOneNotifier(s: State, e: Event, n: Task, code: StatusCode)
    requires OneNotifier(s, n, code) && Possible(s, e)
    ensures OneNotifier(Next(s, e), n, code)
  {
    if e.Run? {
      StepRoles(s, e.t, n);
      StepCodes(s, e.t, n, code);
    } else {
      assert forall t :: 0 <= t < |s.threads| ==>
        Next(s, e).threads[t].pc == s.threads[t].pc || (Next(s, e).threads[t].pc.LateRelock? && s.threads[t].pc.Take?);
    }
  }

  lemma StepRoles(s: State, t: Task, n: Task)
    requires Enabled(s, t) && forall u :: 0 <= u < |s.threads| ==> (Notifier(s.threads[u].pc) <==> u == n)
    ensures var s' := Step(s, t);
            |s'.threads| == |s.threads| && forall u :: 0 <= u < |s'.threads| ==>
                (Notifier(s'.threads[u].pc) <==> u == n)
  {
  }

  lemma StepCodes(s: State, t: Task, n: Task, code: StatusCode)
    requires n < |s.threads| && Enabled(s, t) && (Notifier(s.threads[t].pc) <==> t == n)
    requires NotifiedOnce(s.threads[n].pc, s.codes, code)
    ensures NotifiedOnce(Step(s, t).threads[n].pc, Step(s, t).codes, code)
  {
  }

  lemma {:induction false} RunOneNotifier(s: State, events: seq<Event>, s': State, n: Task, code: StatusCode)
    requires OneNotifier(s, n, code) && Leads(s, events, s')
    ensures OneNotifier(s', n, code)
    decreases |events|
  {
    if events != [] {
      StepOneNotifier(s, events[0], n, code);
      RunOneNotifier(Next(s, events[0]), events[1..], s', n, code);
    }
  }

  /** A future that is notified once: in every run that cannot go on, every waiting task whose time was not up has
      returned exactly the notified code, unless that code is `Last`; then every one of them waits for ever. */
  lemma OneResult(s: State, events: seq<Event>, s': State, n: Task, code: StatusCode)
    requires Initial(s) && OneNotifier(s, n, code) && Leads(s, events, s')
    requires forall t :: 0 <= t < |s'.threads| ==> !Enabled(s', t)
    ensures |s'.threads| == |s.threads| && s'.threads[n].pc.Notified?
    ensures forall t :: 0 <= t < |s'.threads| && t != n && !s'.threads[t].pc.Failed? ==>
              if code != Last then s'.threads[t].pc == Returned(code) else s'.threads[t].pc.Take?
  {
    InitialInv(s);
    RunInv(s, events, s');
    RunOneNotifier(s, events, s', n, code);
    StuckIsDone(s');
    SameTasks(s, events, s');
  }

  lemma {:induction false} SameTasks(s: State, events: seq<Event>, s': State)
    requires Leads(s, events, s')
    ensures |s'.threads| == |s.threads|
    decreases |events|
  {
    if events != [] {
      SameTasks(Next(s, events[0]), events[1..], s');
    }
  }
}
