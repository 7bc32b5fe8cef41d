/** The queue of the condition variable, with its mutex held, and what a broadcast does to the waiting tasks. */
module Cond {
  import opened Folds
  import opened FutureProtocol
  import opened Status

  /** One notification more for a task. */
  function GiveOne(): (seq<nat>, Task) -> seq<nat> {
    (counts: seq<nat>, task: Task) => if task < |counts| then counts[task := counts[task] + 1] else counts
  }

  /** The notification counts of the tasks of the system. */
  class Kernel {
    var counts: seq<nat>

    constructor (tasks: nat)
      ensures counts == seq(tasks, _ => 0)
    {
      counts := seq(tasks, _ => 0);
    }

    /** xTaskNotifyGive, which always succeeds. */
    method Give(task: Task) returns (passed: bool)
      modifies this
      ensures passed && counts == GiveOne()(old(counts), task)
    {
      if task < |counts| {
        counts := counts[task := counts[task] + 1];
      }
      passed := true;
    }
  }

  class Cond {
    const kernel: Kernel
    var tasks: seq<Task>

    constructor (kernel: Kernel)
      ensures this.kernel == kernel && tasks == []
    {
      this.kernel := kernel;
      tasks := [];
    }

    method AppendTask(current: Task)
      modifies this
      ensures tasks == old(tasks) + [current]
    {
      tasks := tasks + [current];
    }

    method SignalFront() returns (status: StatusCode)
      requires tasks != []
      modifies this, kernel
      ensures status == OK && tasks == old(tasks)[1..]
      ensures kernel.counts == GiveOne()(old(kernel.counts), old(tasks)[0])
    {
      var task := tasks[0];
      tasks := tasks[1..];
      var passed := kernel.Give(task);
      status := if passed then OK else Error;
    }

    /** Wakes up the task that waits longest, if any. */
    method Signal() returns (status: StatusCode)
      modifies this, kernel
      ensures status == OK
      ensures old(tasks) == [] ==> tasks == [] && kernel.counts == old(kernel.counts)
      ensures old(tasks) != [] ==>
                tasks == old(tasks)[1..] && kernel.counts == GiveOne()(old(kernel.counts), old(tasks)[0])
    {
      if tasks != [] {
        status := SignalFront();
        return;
      }
      return OK;
    }

    /** Wakes up every task on the queue. */
    method Broadcast() returns (status: StatusCode)
      modifies this, kernel
      ensures status == OK && tasks == []
      ensures kernel.counts == Fold(GiveOne(), old(kernel.counts), old(tasks))
    {
      ghost var all, n := tasks, 0;
      assert all[0..] == all;
      while tasks != []
        invariant n <= |all| && tasks == all[n..]
        invariant kernel.counts == Fold(GiveOne(), old(kernel.counts), all[..n])
      {
        status := SignalFront();
        if status != OK {
          return;
        }
        FoldStep(GiveOne(), old(kernel.counts), all, n);
        n := n + 1;
      }
      assert all[..n] == all;
      return OK;
    }
  }

  /** The parts of a future that do not block, with its mutex held. */
  class Future {
    const cond: Cond
    var code: StatusCode

    constructor (cond: Cond)
      ensures this.cond == cond && code == Last
    {
      this.cond := cond;
      code := Last;
    }

    /** Publishes the result and wakes up everyone who waits for it. */
    method Notify(code: StatusCode) returns (status: StatusCode)
      modifies this, cond, cond.kernel
      ensures status == OK && this.code == code && cond.tasks == []
      ensures cond.kernel.counts == Fold(GiveOne(), old(cond.kernel.counts), old(cond.tasks))
    {
      this.code := code;
      status := cond.Broadcast();
    }
  }

  /** After a broadcast each task has one more notification for each of its places on the queue. */
  lemma {:induction false} BroadcastCounts(counts: seq<nat>, tasks: seq<Task>)
    ensures var after := Fold(GiveOne(), counts, tasks);
            && |after| == |counts|
            && forall t :: 0 <= t < |counts| ==> after[t] == counts[t] + multiset(tasks)[t]
  {
    if tasks != [] {
      var n := |tasks| - 1;
      BroadcastCounts(counts, tasks[..n]);
      assert tasks == tasks[..n] + [tasks[n]];
      assert multiset(tasks) == multiset(tasks[..n]) + multiset{tasks[n]};
    }
  }

  // ---- The broadcast as steps of the protocol ----

  function Counts(s: State): seq<nat> {
    seq(|s.threads|, t requires 0 <= t < |s.threads| => s.threads[t].count)
  }

  /** A run in which one task executes `k` statements. */
  ghost predicate Alone(s: State, t: Task, k: nat, s': State)
    decreases k
  {
    if k == 0 then s == s' else Enabled(s, t) && Alone(Step(s, t), t, k - 1, s')
  }

  /** The same state, but for the places in the program. */
  predicate OnlyMoved(s: State, t: Task, pc: Pc, s': State) {
    && |s'.threads| == |s.threads| && t < |s.threads| && s'.threads[t].pc == pc
    && (forall u :: 0 <= u < |s.threads| && u != t ==> s'.threads[u].pc == s.threads[u].pc)
    && s'.code == s.code && s'.mu == s.mu && s'.condMu == s.condMu && s'.codes == s.codes
  }

  /** Taking a task from the queue and giving it a notification. */
  function Round(s: State, t: Task): (s': State)
    requires t < |s.threads| && s.threads[t].pc.Drain? && s.tasks != []
    ensures OnlyMoved(s, t, Drain, s') && s'.tasks == s.tasks[1..]
  {
    Step(Step(s, t), t)
  }

  /** The state when the queue is empty. */
  function Rounds(s: State, t: Task): (s': State)
    requires t < |s.threads| && s.threads[t].pc.Drain?
    ensures OnlyMoved(s, t, BroadcastUnlock, s') && s'.tasks == []
    decreases |s.tasks|
  {
    if s.tasks == [] then Step(s, t) else Rounds(Round(s, t), t)
  }

  lemma {:induction false} RoundsAlone(s: State, t: Task)
    requires t < |s.threads| && s.threads[t].pc.Drain?
    ensures Alone(s, t, 2 * |s.tasks| + 1, Rounds(s, t))
    decreases |s.tasks|
  {
    if s.tasks == [] {
      assert Alone(Step(s, t), t, 0, Step(s, t));
    } else {
      RoundsAlone(Round(s, t), t);
      AloneTwice(s, t, 2 * |s.tasks| - 1, Rounds(s, t));
    }
  }

  lemma AloneTwice(s: State, t: Task, k: nat, s': State)
    requires Enabled(s, t) && Enabled(Step(s, t), t) && Alone(Step(Step(s, t), t), t, k, s')
    ensures Alone(s, t, k + 2, s')
  {
    assert Alone(Step(s, t), t, k + 1, s');
  }

  lemma RoundCounts(s: State, t: Task)
    requires t < |s.threads| && s.threads[t].pc.Drain? && s.tasks != []
    ensures Counts(Round(s, t)) == GiveOne()(Counts(s), s.tasks[0])
  {
    assert Step(s, t) == Goto(s, t, Give(s.tasks[0])).(tasks := s.tasks[1..]);
  }

  lemma {:induction false} RoundsCounts(s: State, t: Task)
    requires t < |s.threads| && s.threads[t].pc.Drain?
    ensures Counts(Rounds(s, t)) == Fold(GiveOne(), Counts(s), s.tasks)
    decreases |s.tasks|
  {
    if s.tasks == [] {
      assert Counts(Step(s, t)) == Counts(s);
    } else {
      RoundsCounts(Round(s, t), t);
      RoundCounts(s, t);
      FoldFirst(GiveOne(), Counts(s), s.tasks);
    }
  }

  /** The steps of a task that is emptying the queue are the loop of the broadcast. */
  lemma DrainIsBroadcast(s: State, t: Task)
    requires t < |s.threads| && s.threads[t].pc.Drain?
    ensures exists s' ::
      && Alone(s, t, 2 * |s.tasks| + 1, s')
      && OnlyMoved(s, t, BroadcastUnlock, s') && s'.tasks == []
      && Counts(s') == Fold(GiveOne(), Counts(s), s.tasks)
  {
    RoundsAlone(s, t);
    RoundsCounts(s, t);
  }
}
