/** The double-buffered queue of functions that one task runs for all others. */
module AsyncFuncScheduler {
  import opened Folds

  /** A function given to the scheduler; every call of add makes a new one. */
  type Job = nat

  /** Room for another job, or not. */
  function Accept(max: nat): (seq<Job>, Job) -> seq<Job> {
    (queue: seq<Job>, job: Job) => if |queue| == max then queue else queue + [job]
  }

  class AsyncFuncScheduler {
    const max: nat
    var readQueue: seq<Job>
    var writeQueue: seq<Job>

    // The jobs that have been executed, in order.
    var executed: seq<Job>

    constructor (max: nat)
      requires max > 0
      ensures this.max == max && readQueue == [] && writeQueue == [] && executed == []
    {
      this.max := max;
      readQueue, writeQueue, executed := [], [], [];
    }

    /** Returns whether the job was accepted, given whether there was memory for its future. */
    method Add(job: Job, memory: bool) returns (accepted: bool)
      modifies `writeQueue
      ensures accepted == (|old(writeQueue)| != max && memory)
      ensures writeQueue == if accepted then old(writeQueue) + [job] else old(writeQueue)
    {
      if |writeQueue| == max {
        return false;
      }
      if !memory {
        return false;
      }
      writeQueue := writeQueue + [job];
      return true;
    }

    /** Jobs that others, or the function that is executed, try to add. */
    method AddAll(jobs: seq<Job>)
      modifies `writeQueue
      ensures writeQueue == Fold(Accept(max), old(writeQueue), jobs)
    {
      for n := 0 to |jobs|
        invariant writeQueue == Fold(Accept(max), old(writeQueue), jobs[..n])
      {
        var _ := Add(jobs[n], true);
        FoldStep(Accept(max), old(writeQueue), jobs, n);
      }
      assert jobs[..|jobs|] == jobs;
    }

    /** One run; `arrivals` are the jobs added while each function executes. */
    method Run(arrivals: seq<seq<Job>>)
      requires |arrivals| == |writeQueue| && readQueue == []
      modifies this
      ensures readQueue == []
      ensures executed == old(executed) + old(writeQueue)
      ensures writeQueue == Fold(AcceptAll(max), [], arrivals)
    {
      if |writeQueue| == 0 {
        return;
      }
      readQueue, writeQueue := writeQueue, readQueue;
      for n := 0 to |readQueue|
        invariant readQueue == old(writeQueue)
        invariant executed == old(executed) + readQueue[..n]
        invariant writeQueue == Fold(AcceptAll(max), [], arrivals[..n])
      {
        AddAll(arrivals[n]);
        executed := executed + [readQueue[n]];
        FoldStep(AcceptAll(max), [], arrivals, n);
      }
      assert arrivals[..|arrivals|] == arrivals && readQueue[..|readQueue|] == readQueue;
      readQueue := [];
    }
  }

  function AcceptAll(max: nat): (seq<Job>, seq<Job>) -> seq<Job> {
    (queue: seq<Job>, jobs: seq<Job>) => Fold(Accept(max), queue, jobs)
  }

  // ---- Concurrent adds ----

  /** The scheduler while other tasks add jobs at any time. `at` is the position of the run in the read queue;
      `accepted` and `executed` list all jobs in the order in which they were added and have been executed. */
  datatype State = State(readQueue: seq<Job>, writeQueue: seq<Job>, running: bool, at: nat,
                         accepted: seq<Job>, executed: seq<Job>)

  const START := State([], [], false, 0, [], [])

  /** `Begin` swaps the queues, `Execute` is the end of the function at the position of the run, and `End` clears
      the read queue. */
  datatype Event = Add(job: Job) | Begin | Execute | End

  predicate Possible(s: State, e: Event) {
    match e
    case Add(_) => true
    case Begin => !s.running
    case Execute => s.running && s.at < |s.readQueue|
    case End => s.running && s.at >= |s.readQueue|
  }

  function Next(max: nat, s: State, e: Event): State
    requires Possible(s, e)
  {
    match e
    case Add(job) =>
      if |s.writeQueue| == max then s
      else s.(writeQueue := s.writeQueue + [job], accepted := s.accepted + [job])
    case Begin =>
      if |s.writeQueue| == 0 then s
      else s.(readQueue := s.writeQueue, writeQueue := s.readQueue, running := true, at := 0)
    case Execute => s.(executed := s.executed + [s.readQueue[s.at]], at := s.at + 1)
    case End => s.(readQueue := [], running := false, at := 0)
  }

  ghost predicate Leads(max: nat, s: State, events: seq<Event>, s': State)
    decreases |events|
  {
    if events == [] then s == s'
    else Possible(s, events[0]) && Leads(max, Next(max, s, events[0]), events[1..], s')
  }

  predicate Inv(max: nat, s: State) {
    && |s.readQueue| <= max && |s.writeQueue| <= max
    && s.at <= |s.readQueue|
    && (!s.running ==> s.readQueue == [])
    && s.accepted == s.executed + s.readQueue[s.at..] + s.writeQueue
  }

  lemma StepInv(max: nat, s: State, e: Event)
    requires Inv(max, s) && Possible(s, e)
    ensures Inv(max, Next(max, s, e))
  {
    match e
    case Add(job) =>
      assert s.executed + s.readQueue[s.at..] + (s.writeQueue + [job])
          == s.executed + s.readQueue[s.at..] + s.writeQueue + [job];
    case Begin =>
      assert s.readQueue == [] && s.writeQueue[0..] == s.writeQueue;
    case Execute =>
      assert s.readQueue[s.at..] == [s.readQueue[s.at]] + s.readQueue[s.at + 1..];
    case End =>
  }

  lemma {:induction false} RunInv(max: nat, s: State, events: seq<Event>, s': State)
    requires Inv(max, s) && Leads(max, s, events, s')
    ensures Inv(max, s')
    decreases |events|
  {
    if events != [] {
      StepInv(max, s, events[0]);
      RunInv(max, Next(max, s, events[0]), events[1..], s');
    }
  }

  /** In every run: the accepted jobs are the executed ones, then the rest of the read queue, then the write queue, so
      jobs are executed at most once and in the order of acceptance; and at most twice the maximum are outstanding. */
  lemma ExactlyOnceInOrder(max: nat, events: seq<Event>, s: State)
    requires Leads(max, START, events, s)
    ensures s.at <= |s.readQueue| && s.accepted == s.executed + s.readQueue[s.at..] + s.writeQueue
    ensures |s.executed| <= |s.accepted| && s.executed == s.accepted[..|s.executed|]
    ensures |s.accepted| - |s.executed| <= 2 * max
  {
    RunInv(max, START, events, s);
    InvOrder(max, s);
  }

  lemma InvOrder(max: nat, s: State)
    requires Inv(max, s)
    ensures |s.executed| <= |s.accepted| && s.executed == s.accepted[..|s.executed|]
    ensures |s.accepted| - |s.executed| <= 2 * max
  {
    assert s.accepted == s.executed + (s.readQueue[s.at..] + s.writeQueue);
  }

  /** While a run goes on, what it has executed and will execute is what was accepted before it began. */
  ghost predicate Serves(s: State, before: seq<Job>) {
    s.running && s.at <= |s.readQueue| && s.executed + s.readQueue[s.at..] == before
  }

  lemma StepServes(max: nat, s: State, e: Event, before: seq<Job>)
    requires Serves(s, before) && Possible(s, e) && !e.End?
    ensures Serves(Next(max, s, e), before)
  {
    if e.Execute? {
      assert s.readQueue[s.at..] == [s.readQueue[s.at]] + s.readQueue[s.at + 1..];
    }
  }

  function Executions(events: seq<Event>): nat {
    if events == [] then 0 else (if events[0].Execute? then 1 else 0) + Executions(events[1..])
  }

  lemma {:induction false} ServesUntilEnd(max: nat, s: State, events: seq<Event>, s': State, before: seq<Job>)
    requires Serves(s, before) && Leads(max, s, events, s') && End !in events
    ensures Serves(s', before) && Executions(events) + |s'.readQueue| - s'.at == |s.readQueue| - s.at
    decreases |events|
  {
    if events != [] {
      StepServes(max, s, events[0], before);
      assert End !in events[1..];
      ServesUntilEnd(max, Next(max, s, events[0]), events[1..], s', before);
    }
  }

  /** A run executes at most the maximum, however many jobs are added meanwhile, by its own functions or by others;
      and when it ends exactly the jobs accepted before it began have been executed. */
  lemma RunEnds(max: nat, s: State, events: seq<Event>, s': State)
    requires Inv(max, s) && !s.running && s.writeQueue != []
    requires Leads(max, Next(max, s, Begin), events, s') && End !in events
    ensures Executions(events) <= max
    ensures Possible(s', Execute) || Possible(s', End)
    ensures Possible(s', End) ==> Next(max, s', End).executed == s.accepted && Executions(events) == |s.writeQueue|
  {
    var begun := Next(max, s, Begin);
    assert begun.readQueue[0..] == s.writeQueue && s.readQueue == [];
    assert Serves(begun, s.accepted);
    ServesUntilEnd(max, begun, events, s', s.accepted);
  }

  // ---- The run of the class is a run of the machine ----

  function Adds(jobs: seq<Job>): seq<Event> {
    seq(|jobs|, i requires 0 <= i < |jobs| => Add(jobs[i]))
  }

  /** Functions executed one after the other, with the jobs added while each executes. */
  function Rounds(arrivals: seq<seq<Job>>): seq<Event> {
    if arrivals == [] then [] else Adds(arrivals[0]) + [Execute] + Rounds(arrivals[1..])
  }

  lemma {:induction false} LeadsConcat(max: nat, s: State, a: seq<Event>, s1: State, b: seq<Event>, s2: State)
    requires Leads(max, s, a, s1) && Leads(max, s1, b, s2)
    ensures Leads(max, s, a + b, s2)
    decreases |a|
  {
    if a == [] {
      assert a + b == b;
    } else {
      LeadsConcat(max, Next(max, s, a[0]), a[1..], s1, b, s2);
      assert (a + b)[0] == a[0] && (a + b)[1..] == a[1..] + b;
    }
  }

  lemma LeadsOne(max: nat, s: State, e: Event)
    requires Possible(s, e)
    ensures Leads(max, s, [e], Next(max, s, e))
  {
    assert [e][1..] == [];
    assert Leads(max, Next(max, s, e), [], Next(max, s, e));
  }

  lemma {:induction false} AddsLead(max: nat, s: State, jobs: seq<Job>) returns (s': State)
    ensures Leads(max, s, Adds(jobs), s')
    ensures s'.writeQueue == Fold(Accept(max), s.writeQueue, jobs)
    ensures s' == s.(writeQueue := s'.writeQueue, accepted := s'.accepted)
    decreases |jobs|
  {
    if jobs == [] {
      s' := s;
      assert Adds(jobs) == [];
    } else {
      s' := AddsLead(max, Next(max, s, Add(jobs[0])), jobs[1..]);
      FoldFirst(Accept(max), s.writeQueue, jobs);
      assert Adds(jobs)[0] == Add(jobs[0]) && Adds(jobs)[1..] == Adds(jobs[1..]);
    }
  }

  /** One function executes while these jobs are added. */
  lemma RoundLeads(max: nat, s: State, jobs: seq<Job>) returns (s': State)
    requires s.running && s.at < |s.readQueue|
    ensures Leads(max, s, Adds(jobs) + [Execute], s')
    ensures s'.running && s'.at == s.at + 1 && s'.readQueue == s.readQueue
    ensures s'.executed == s.executed + [s.readQueue[s.at]]
    ensures s'.writeQueue == Fold(Accept(max), s.writeQueue, jobs)
  {
    var added := AddsLead(max, s, jobs);
    s' := Next(max, added, Execute);
    LeadsOne(max, added, Execute);
    LeadsConcat(max, s, Adds(jobs), added, [Execute], s');
  }

  lemma {:induction false} RoundsLead(max: nat, s: State, arrivals: seq<seq<Job>>) returns (s': State)
    requires s.running && s.at + |arrivals| == |s.readQueue|
    ensures Leads(max, s, Rounds(arrivals), s')
    ensures s'.running && s'.at == |s.readQueue| && s'.readQueue == s.readQueue
    ensures s'.executed == s.executed + s.readQueue[s.at..]
    ensures s'.writeQueue == Fold(AcceptAll(max), s.writeQueue, arrivals)
    decreases |arrivals|
  {
    if arrivals == [] {
      s' := s;
    } else {
      var s2 := RoundLeads(max, s, arrivals[0]);
      s' := RoundsLead(max, s2, arrivals[1..]);
      LeadsConcat(max, s, Adds(arrivals[0]) + [Execute], s2, Rounds(arrivals[1..]), s');
      FoldFirst(AcceptAll(max), s.writeQueue, arrivals);
      assert s.readQueue[s.at..] == [s.readQueue[s.at]] + s.readQueue[s.at + 1..];
    }
  }

  /** The run of the class, with its arrivals, is a run of the machine from its begin to its end. */
  lemma RunIsMachineRun(max: nat, s: State, arrivals: seq<seq<Job>>) returns (s': State)
    requires !s.running && s.readQueue == [] && s.writeQueue != [] && |arrivals| == |s.writeQueue|
    ensures Leads(max, s, [Begin] + Rounds(arrivals) + [End], s')
    ensures !s'.running && s'.readQueue == []
    ensures s'.executed == s.executed + s.writeQueue
    ensures s'.writeQueue == Fold(AcceptAll(max), [], arrivals)
  {
    var begun := Next(max, s, Begin);
    var last := RoundsLead(max, begun, arrivals);
    s' := Next(max, last, End);
    LeadsOne(max, s, Begin);
    LeadsOne(max, last, End);
    LeadsConcat(max, s, [Begin], begun, Rounds(arrivals), last);
    LeadsConcat(max, s, [Begin] + Rounds(arrivals), last, [End], s');
    assert begun.readQueue[0..] == s.writeQueue;
  }
}
