/** Two-phase transitions of a state machine: handlers first learn that their state is left, in the run after it
    was decided, then the next state is entered and handled. */
module FsmStore {
  import opened FsmBlock
  import opened Options
  import opened Status
  import H = FsmHistory

  /** The numbers of handlers that were added for each state. */
  type Handlers = map<int, nat>

  /** A call of a handler, by state and position, or the transition of the block. */
  datatype Call = State(state: int, handler: nat) | Transit(state: int, handler: nat) | Left(state: int, entered: int)

  /** The store and all that it has called. `halted` is a failed configASSERT. */
  datatype Store = Store(block: Block, begun: bool, calls: seq<Call>, halted: bool)

  /** What the handlers of a state set as the next state, each at most once. */
  type Choice = nat -> Option<int>

  function StateCalls(state: int, count: nat): seq<Call> {
    seq(count, (i: nat) => State(state, i))
  }

  function TransitCalls(state: int, count: nat): seq<Call> {
    seq(count, (i: nat) => Transit(state, i))
  }

  /** The block after the first `count` handlers have chosen. */
  function Chosen(b: Block, choice: Choice, count: nat): (r: Block)
    ensures r.curr == b.curr
  {
    if count == 0 then b
    else if choice(count - 1).Some? then Chosen(b, choice, count - 1).(next := choice(count - 1).value)
    else Chosen(b, choice, count - 1)
  }

  /** The second phase of a transition. The handlers that are told of it may still set the next state. */
  function Ended(handlers: Handlers, s: Store, later: Time, leaving: Choice): Store {
    if s.block.curr !in handlers then s.(halted := true)
    else
      var b := Chosen(s.block, leaving, handlers[s.block.curr]);
      s.(block := Counted(Transited(b, later)), begun := false,
         calls := s.calls + TransitCalls(b.curr, handlers[s.block.curr]) + [Left(b.curr, b.next)])
  }

  function Handled(handlers: Handlers, s: Store, choice: Choice): Store {
    if s.block.curr !in handlers then s.(halted := true)
    else
      s.(block := Chosen(s.block, choice, handlers[s.block.curr]),
         calls := s.calls + StateCalls(s.block.curr, handlers[s.block.curr]))
  }

  /** What surrounds a run: the clock when it begins and when a transition ends, and what the handlers choose when
      they are told that their state is left and when they handle it. */
  datatype Input = Input(now: Time, later: Time, leaving: Choice, choice: Choice)

  /** One run. */
  function RunOnce(handlers: Handlers, resolution: Time, s: Store, input: Input): Store
    requires resolution > 0
  {
    var s1 := s.(block := Updated(s.block, resolution, input.now));
    var s2 := if s1.begun then Ended(handlers, s1, input.later, input.leaving) else s1;
    if s2.halted then s2
    else
      var s3 := Handled(handlers, s2, input.choice);
      if s3.halted then s3 else s3.(begun := s3.begun || InTransit(s3.block))
  }

  class FsmStore {
    const block: FsmBlock
    var isTransitBegin: bool
    var stateToHandlers: Handlers

    // All calls so far.
    var calls: seq<Call>

    constructor (block: FsmBlock)
      ensures this.block == block && !isTransitBegin && stateToHandlers == map[] && calls == []
    {
      this.block := block;
      isTransitBegin, stateToHandlers, calls := false, map[], [];
    }

    function State(halted: bool): Store
      reads this, block
    {
      Store(block.State(), isTransitBegin, calls, halted)
    }

    method Add(state: int) returns (status: StatusCode)
      modifies this
      ensures status == OK && State(false) == old(State(false))
      ensures var before := old(stateToHandlers);
              stateToHandlers == before[state := 1 + if state in before then before[state] else 0]
    {
      stateToHandlers := stateToHandlers[state := 1 + if state in stateToHandlers then stateToHandlers[state] else 0];
      status := OK;
    }

    method Run(input: Input) returns (halted: bool)
      requires block.resolution > 0
      modifies this, block, block.storage
      ensures stateToHandlers == old(stateToHandlers)
      ensures State(halted) == RunOnce(stateToHandlers, block.resolution, old(State(false)), input)
    {
      block.Update(input.now);
      if isTransitBegin {
        halted := HandleTransitEnd(input.later, input.leaving);
        if halted {
          return;
        }
      }
      halted := HandleState(input.choice);
      if halted {
        return;
      }
      if block.IsInTransit() {
        isTransitBegin := true;
      }
    }

    method HandleTransitEnd(later: Time, leaving: Choice) returns (halted: bool)
      modifies this, block, block.storage
      ensures stateToHandlers == old(stateToHandlers)
      ensures State(halted) == Ended(stateToHandlers, old(State(false)), later, leaving)
    {
      var state := block.currState;
      if state !in stateToHandlers {
        return true;
      }
      for i := 0 to stateToHandlers[state]
        invariant block.State() == Chosen(old(block.State()), leaving, i) && isTransitBegin == old(isTransitBegin)
        invariant stateToHandlers == old(stateToHandlers)
        invariant calls == old(calls) + TransitCalls(state, i)
      {
        calls := calls + [Call.Transit(state, i)];
        if leaving(i).Some? {
          block.SetNext(leaving(i).value);
        }
      }
      calls := calls + [Left(state, block.nextState)];
      var _ := block.Transit(later);
      isTransitBegin := false;
      return false;
    }

    method HandleState(choice: Choice) returns (halted: bool)
      modifies this, block
      ensures stateToHandlers == old(stateToHandlers)
      ensures State(halted) == Handled(stateToHandlers, old(State(false)), choice)
    {
      var state := block.currState;
      if state !in stateToHandlers {
        return true;
      }
      for i := 0 to stateToHandlers[state]
        invariant block.State() == Chosen(old(block.State()), choice, i) && isTransitBegin == old(isTransitBegin)
        invariant stateToHandlers == old(stateToHandlers)
        invariant calls == old(calls) + StateCalls(state, i)
      {
        calls := calls + [Call.State(state, i)];
        if choice(i).Some? {
          block.SetNext(choice(i).value);
        }
      }
      return false;
    }
  }

  // ---- Any number of runs ----

  /** A run, or a call of set_next between runs. */
  datatype Event = Run(input: Input) | SetNext(state: int)

  function Next(handlers: Handlers, resolution: Time, s: Store, e: Event): Store
    requires resolution > 0
  {
    if s.halted then s
    else
      match e
      case Run(input) => RunOnce(handlers, resolution, s, input)
      case SetNext(state) => s.(block := s.block.(next := state))
  }

  function Runs(handlers: Handlers, resolution: Time, s: Store, events: seq<Event>): Store
    requires resolution > 0
    decreases |events|
  {
    if events == [] then s else Runs(handlers, resolution, Next(handlers, resolution, s, events[0]), events[1..])
  }

  /** After every run a transition has begun exactly if the block is in transit. */
  lemma BegunIsInTransit(handlers: Handlers, resolution: Time, s: Store, input: Input)
    requires resolution > 0 && !s.halted
    ensures var s' := RunOnce(handlers, resolution, s, input);
            !s'.halted ==> s'.begun == InTransit(s'.block)
  {
  }

  // ---- Requests are served in the next run ----

  /** The last of the first `count` handlers that chose decides what comes after `before`, or nobody chose. */
  ghost predicate Decides(choice: Choice, count: nat, before: int, after: int) {
    || (after == before && forall i: nat :: i < count ==> choice(i).None?)
    || exists i: nat :: i < count && choice(i) == Some(after) && forall j: nat :: i < j < count ==> choice(j).None?
  }

  lemma {:induction false} ChosenDecides(b: Block, choice: Choice, count: nat)
    ensures Decides(choice, count, b.next, Chosen(b, choice, count).next)
    ensures Chosen(b, choice, count) == b.(next := Chosen(b, choice, count).next)
  {
    if count > 0 {
      ChosenDecides(b, choice, count - 1);
      if choice(count - 1).Some? {
        assert forall j: nat :: count - 1 < j < count ==> choice(j).None?;
      }
    }
  }

  /** The calls tell each handler of the state, in order, to handle it. */
  predicate EachHandles(calls: seq<Call>, state: int, count: nat) {
    |calls| == count && forall i :: 0 <= i < count ==> calls[i] == State(state, i)
  }

  /** The calls tell each handler of the state, in order, that it is left, then leave it for the target, and then tell
      each handler of the target to handle it. */
  predicate EachIsTold(handlers: Handlers, calls: seq<Call>, state: int, target: int) {
    && state in handlers && |calls| > handlers[state]
    && (forall i :: 0 <= i < handlers[state] ==> calls[i] == Transit(state, i))
    && calls[handlers[state]] == Left(state, target)
    && EachHandles(calls[handlers[state] + 1..], target, if target in handlers then handlers[target] else 0)
  }

  /** Between these stores the state was left for the target. */
  ghost predicate Leaves(handlers: Handlers, s: Store, s': Store, target: int, choice: Choice) {
    && s'.block.curr == target && s'.block.prev == s.block.curr && s'.halted == (target !in handlers)
    && s.calls <= s'.calls && EachIsTold(handlers, s'.calls[|s.calls|..], s.block.curr, target)
    && (target in handlers ==> Decides(choice, handlers[target], 0, s'.block.next))
  }

  /** Between these stores the state was handled. */
  ghost predicate Stays(handlers: Handlers, s: Store, s': Store, wanted: int, choice: Choice) {
    && s.block.curr in handlers && !s'.halted
    && s'.block.curr == s.block.curr && s'.block.prev == s.block.prev
    && s.calls <= s'.calls && EachHandles(s'.calls[|s.calls|..], s.block.curr, handlers[s.block.curr])
    && Decides(choice, handlers[s.block.curr], wanted, s'.block.next)
  }

  /** A run that serves a request. */
  lemma RunLeaves(handlers: Handlers, resolution: Time, s: Store, input: Input)
    requires resolution > 0 && !s.halted && s.begun && s.block.curr in handlers
    ensures var s' := RunOnce(handlers, resolution, s, input);
            && Decides(input.leaving, handlers[s.block.curr], s.block.next, s'.block.curr)
            && Leaves(handlers, s, s', s'.block.curr, input.choice)
  {
    var b := Updated(s.block, resolution, input.now);
    ChosenDecides(b, input.leaving, handlers[b.curr]);
    var ended := Ended(handlers, s.(block := b), input.later, input.leaving);
    var told := TransitCalls(b.curr, handlers[b.curr]) + [Left(b.curr, ended.block.curr)];
    assert ended.calls == s.calls + told;
    var target := ended.block.curr;
    if target in handlers {
      ChosenDecides(ended.block, input.choice, handlers[target]);
      var handled := StateCalls(target, handlers[target]);
      assert s.calls + told + handled == s.calls + (told + handled);
    }
  }

  /** A run without a request. */
  lemma RunStays(handlers: Handlers, resolution: Time, s: Store, input: Input)
    requires resolution > 0 && !s.halted && !s.begun && s.block.curr in handlers
    ensures Stays(handlers, s, RunOnce(handlers, resolution, s, input), s.block.next, input.choice)
  {
    var b := Updated(s.block, resolution, input.now);
    ChosenDecides(b, input.choice, handlers[b.curr]);
  }

  /** After a run a transition has begun exactly if another state is requested. */
  lemma RunBegins(handlers: Handlers, resolution: Time, s: Store, input: Input)
    requires resolution > 0 && !s.halted
    ensures var s' := RunOnce(handlers, resolution, s, input);
            !s'.halted ==>
              s'.block.curr in handlers && (s'.begun <==> s'.block.next != 0 && s'.block.next != s'.block.curr)
  {
  }

  /** Calls of set_next between runs. */
  function SetNexts(states: seq<int>): seq<Event> {
    seq(|states|, i requires 0 <= i < |states| => SetNext(states[i]))
  }

  lemma {:induction false} SetNextsSet(handlers: Handlers, resolution: Time, s: Store, states: seq<int>)
    requires resolution > 0 && !s.halted
    ensures Runs(handlers, resolution, s, SetNexts(states))
         == s.(block := s.block.(next := if states == [] then s.block.next else states[|states| - 1]))
    decreases |states|
  {
    if states != [] {
      SetNextsSet(handlers, resolution, s.(block := s.block.(next := states[0])), states[1..]);
      assert SetNexts(states)[1..] == SetNexts(states[1..]);
    }
  }

  lemma {:induction false} RunsConcat(handlers: Handlers, resolution: Time, s: Store, a: seq<Event>, b: seq<Event>)
    requires resolution > 0
    ensures Runs(handlers, resolution, s, a + b) == Runs(handlers, resolution, Runs(handlers, resolution, s, a), b)
    decreases |a|
  {
    if a == [] {
      assert a + b == b;
    } else {
      RunsConcat(handlers, resolution, Next(handlers, resolution, s, a[0]), a[1..], b);
      assert (a + b)[0] == a[0] && (a + b)[1..] == a[1..] + b;
    }
  }

  lemma RunsOne(handlers: Handlers, resolution: Time, s: Store, input: Input)
    requires resolution > 0 && !s.halted
    ensures Runs(handlers, resolution, s, [Run(input)]) == RunOnce(handlers, resolution, s, input)
  {
    assert [Run(input)][1..] == [];
  }

  /** A state other than none and the current one that is requested when a run ends makes the next run leave the current
      state, once, for what is chosen by then; and if none or the current state is requested when a run ends the next
      run leaves nothing. Each run ends by having every handler of the state it is in handle it. */
  lemma NextRunServes(handlers: Handlers, resolution: Time, s: Store, events: seq<Event>, first: Input,
                      states: seq<int>, second: Input)
    requires resolution > 0
    requires !Runs(handlers, resolution, s, events + [Run(first)]).halted
    ensures var a := Runs(handlers, resolution, s, events + [Run(first)]);
            var b := Runs(handlers, resolution, s, events + [Run(first)] + SetNexts(states) + [Run(second)]);
            var wanted := if states == [] then a.block.next else states[|states| - 1];
            if a.block.next != 0 && a.block.next != a.block.curr then
              && a.block.curr in handlers
              && Decides(second.leaving, handlers[a.block.curr], wanted, b.block.curr)
              && Leaves(handlers, a, b, b.block.curr, second.choice)
            else Stays(handlers, a, b, wanted, second.choice)
  {
    RunsConcat(handlers, resolution, s, events, [Run(first)]);
    var before := Runs(handlers, resolution, s, events);
    RunsHalt(handlers, resolution, before, [Run(first)]);
    RunsOne(handlers, resolution, before, first);
    var a := RunOnce(handlers, resolution, before, first);
    RunBegins(handlers, resolution, before, first);
    RunsConcat(handlers, resolution, s, events + [Run(first)], SetNexts(states));
    RunsConcat(handlers, resolution, s, events + [Run(first)] + SetNexts(states), [Run(second)]);
    SetNextsSet(handlers, resolution, a, states);
    var c := Runs(handlers, resolution, a, SetNexts(states));
    RunsOne(handlers, resolution, c, second);
    if a.begun {
      RunLeaves(handlers, resolution, c, second);
    } else {
      RunStays(handlers, resolution, c, second);
    }
  }

  lemma {:induction false} RunsHalt(handlers: Handlers, resolution: Time, s: Store, events: seq<Event>)
    requires resolution > 0
    ensures s.halted ==> Runs(handlers, resolution, s, events) == s
    decreases |events|
  {
    if events != [] {
      RunsHalt(handlers, resolution, Next(handlers, resolution, s, events[0]), events[1..]);
    }
  }

  // ---- Runs are histories of the block ----

  /** What the first `count` handlers choose, as events of the block. */
  function Choices(choice: Choice, count: nat): seq<H.Event> {
    if count == 0 then []
    else Choices(choice, count - 1) + (if choice(count - 1).Some? then [H.SetNext(choice(count - 1).value)] else [])
  }

  lemma {:induction false} HistoryConcat(resolution: Time, s: H.System, a: seq<H.Event>, b: seq<H.Event>)
    requires resolution > 0
    ensures H.Run(resolution, s, a + b) == H.Run(resolution, H.Run(resolution, s, a), b)
    decreases |a|
  {
    if a == [] {
      assert a + b == b;
    } else {
      HistoryConcat(resolution, H.Next(resolution, s, a[0]), a[1..], b);
      assert (a + b)[0] == a[0] && (a + b)[1..] == a[1..] + b;
    }
  }

  lemma HistoryOne(resolution: Time, s: H.System, e: H.Event)
    requires resolution > 0
    ensures H.Run(resolution, s, [e]) == H.Next(resolution, s, e)
  {
    assert [e][1..] == [];
  }

  lemma {:induction false} ChoicesChoose(resolution: Time, s: H.System, choice: Choice, count: nat)
    requires resolution > 0
    ensures H.Run(resolution, s, Choices(choice, count)).block == Chosen(s.block, choice, count)
  {
    if count > 0 {
      ChoicesChoose(resolution, s, choice, count - 1);
      if choice(count - 1).Some? {
        var e := H.SetNext(choice(count - 1).value);
        HistoryConcat(resolution, s, Choices(choice, count - 1), [e]);
        HistoryOne(resolution, H.Run(resolution, s, Choices(choice, count - 1)), e);
      } else {
        assert Choices(choice, count - 1) + [] == Choices(choice, count - 1);
      }
    }
  }

  /** The first part of a run, up to the end of a transition if there is one. */
  function LeavingEvents(handlers: Handlers, s: Store, input: Input, writes: nat): seq<H.Event> {
    [H.Update(input.now)]
    + if s.begun && s.block.curr in handlers then
        Choices(input.leaving, handlers[s.block.curr]) + [H.Transit(input.later, writes)]
      else []
  }

  lemma LeavingIsHistory(handlers: Handlers, resolution: Time, s: Store, input: Input, system: H.System, writes: nat)
    requires resolution > 0 && !s.halted && s.block.curr in handlers && system.block == s.block
    ensures var b := Updated(s.block, resolution, input.now);
            var left := if s.begun then Ended(handlers, s.(block := b), input.later, input.leaving).block else b;
            H.Run(resolution, system, LeavingEvents(handlers, s, input, writes)).block == left
  {
    var update, now := [H.Update(input.now)], H.Next(resolution, system, H.Update(input.now));
    HistoryOne(resolution, system, H.Update(input.now));
    if s.begun {
      var choices, transit := Choices(input.leaving, handlers[s.block.curr]), H.Transit(input.later, writes);
      HistoryConcat(resolution, system, update, choices + [transit]);
      HistoryConcat(resolution, now, choices, [transit]);
      ChoicesChoose(resolution, now, input.leaving, handlers[s.block.curr]);
      HistoryOne(resolution, H.Run(resolution, now, choices), transit);
    } else {
      assert update + [] == update;
    }
  }

  /** What a run does to the block, as a history. */
  function RunEvents(handlers: Handlers, s: Store, input: Input, writes: nat, entered: int): seq<H.Event> {
    LeavingEvents(handlers, s, input, writes)
    + if entered in handlers then Choices(input.choice, handlers[entered]) else []
  }

  /** A run brings the time up to date, ends a transition that has begun, and lets the handlers choose, whether its
      writes succeed or not. */
  lemma RunIsHistory(handlers: Handlers, resolution: Time, s: Store, input: Input, system: H.System, writes: nat)
    requires resolution > 0 && !s.halted && system.block == s.block
    requires !RunOnce(handlers, resolution, s, input).halted
    ensures var after := RunOnce(handlers, resolution, s, input).block;
            after == H.Run(resolution, system, RunEvents(handlers, s, input, writes, after.curr)).block
  {
    LeavingIsHistory(handlers, resolution, s, input, system, writes);
    var first, entered := LeavingEvents(handlers, s, input, writes), RunOnce(handlers, resolution, s, input).block.curr;
    var left := H.Run(resolution, system, first);
    HistoryConcat(resolution, system, first, Choices(input.choice, handlers[entered]));
    ChoicesChoose(resolution, left, input.choice, handlers[entered]);
  }

  /** The history of the block over runs; `writes` tells how many keys each save writes. */
  function HistoryOf(handlers: Handlers, resolution: Time, s: Store, events: seq<Event>, writes: nat): seq<H.Event>
    requires resolution > 0
    decreases |events|
  {
    if events == [] then []
    else
      var next := Next(handlers, resolution, s, events[0]);
      var first := match events[0]
                   case Run(input) => RunEvents(handlers, s, input, writes, next.block.curr)
                   case SetNext(state) => [H.SetNext(state)];
      first + HistoryOf(handlers, resolution, next, events[1..], writes)
  }

  /** The clock of runs does not go back. */
  predicate OnClock(clock: Time, events: seq<Event>)
    decreases |events|
  {
    events == [] ||
    match events[0]
    case Run(input) => clock <= input.now <= input.later && OnClock(input.later, events[1..])
    case SetNext(_) => OnClock(clock, events[1..])
  }

  lemma {:induction false} CleanConcat(resolution: Time, s: H.System, a: seq<H.Event>, b: seq<H.Event>)
    requires resolution > 0 && H.Clean(resolution, s, a) && H.Clean(resolution, H.Run(resolution, s, a), b)
    ensures H.Clean(resolution, s, a + b)
    decreases |a|
  {
    if a == [] {
      assert a + b == b;
    } else {
      CleanConcat(resolution, H.Next(resolution, s, a[0]), a[1..], b);
      assert (a + b)[0] == a[0] && (a + b)[1..] == a[1..] + b;
    }
  }

  lemma CleanOne(resolution: Time, s: H.System, e: H.Event)
    requires resolution > 0 && H.CleanEvent(s.clock, s.saved, e)
    ensures H.Clean(resolution, s, [e])
  {
    assert [e][1..] == [];
  }

  lemma {:induction false} ChoicesClean(resolution: Time, s: H.System, choice: Choice, count: nat)
    requires resolution > 0
    ensures H.Clean(resolution, s, Choices(choice, count))
    ensures H.Run(resolution, s, Choices(choice, count)).clock == s.clock
  {
    if count > 0 {
      ChoicesClean(resolution, s, choice, count - 1);
      var earlier := Choices(choice, count - 1);
      if choice(count - 1).Some? {
        var e := H.SetNext(choice(count - 1).value);
        CleanOne(resolution, H.Run(resolution, s, earlier), e);
        CleanConcat(resolution, s, earlier, [e]);
        HistoryConcat(resolution, s, earlier, [e]);
        HistoryOne(resolution, H.Run(resolution, s, earlier), e);
      } else {
        assert earlier + [] == earlier;
      }
    }
  }

  lemma LeavingClean(handlers: Handlers, resolution: Time, s: Store, input: Input, system: H.System, writes: nat)
    requires resolution > 0 && system.clock <= input.now <= input.later
    ensures H.Clean(resolution, system, LeavingEvents(handlers, s, input, writes))
    ensures H.Run(resolution, system, LeavingEvents(handlers, s, input, writes)).clock <= input.later
  {
    var update, now := [H.Update(input.now)], H.Next(resolution, system, H.Update(input.now));
    HistoryOne(resolution, system, H.Update(input.now));
    CleanOne(resolution, system, H.Update(input.now));
    if s.begun && s.block.curr in handlers {
      var choices, transit := Choices(input.leaving, handlers[s.block.curr]), H.Transit(input.later, writes);
      ChoicesClean(resolution, now, input.leaving, handlers[s.block.curr]);
      var chosen := H.Run(resolution, now, choices);
      CleanOne(resolution, chosen, transit);
      CleanConcat(resolution, now, choices, [transit]);
      CleanConcat(resolution, system, update, choices + [transit]);
      HistoryConcat(resolution, system, update, choices + [transit]);
      HistoryConcat(resolution, now, choices, [transit]);
      HistoryOne(resolution, chosen, transit);
    } else {
      assert update + [] == update;
    }
  }

  lemma RunClean(handlers: Handlers, resolution: Time, s: Store, input: Input, system: H.System, writes: nat,
                 entered: int)
    requires resolution > 0 && system.clock <= input.now <= input.later
    ensures H.Clean(resolution, system, RunEvents(handlers, s, input, writes, entered))
    ensures H.Run(resolution, system, RunEvents(handlers, s, input, writes, entered)).clock <= input.later
  {
    var first := LeavingEvents(handlers, s, input, writes);
    LeavingClean(handlers, resolution, s, input, system, writes);
    if entered in handlers {
      var left := H.Run(resolution, system, first);
      ChoicesClean(resolution, left, input.choice, handlers[entered]);
      CleanConcat(resolution, system, first, Choices(input.choice, handlers[entered]));
      HistoryConcat(resolution, system, first, Choices(input.choice, handlers[entered]));
    } else {
      assert first + [] == first;
    }
  }

  lemma EarlierClock(clock: Time, later: Time, events: seq<Event>)
    requires clock <= later && OnClock(later, events)
    ensures OnClock(clock, events)
    decreases |events|
  {
  }

  /** Runs of the store on a clock that does not go back are a clean history of its block. */
  lemma {:induction false} RunsAreHistory(handlers: Handlers, resolution: Time, s: Store, events: seq<Event>,
                                          system: H.System, writes: nat)
    requires resolution > 0 && system.block == s.block && OnClock(system.clock, events)
    requires !Runs(handlers, resolution, s, events).halted
    ensures var history := HistoryOf(handlers, resolution, s, events, writes);
            && H.Clean(resolution, system, history)
            && Runs(handlers, resolution, s, events).block == H.Run(resolution, system, history).block
    decreases |events|
  {
    if events != [] {
      RunsHalt(handlers, resolution, s, events);
      var next := Next(handlers, resolution, s, events[0]);
      RunsHalt(handlers, resolution, next, events[1..]);
      var rest := HistoryOf(handlers, resolution, next, events[1..], writes);
      match events[0] {
        case Run(input) =>
          var first := RunEvents(handlers, s, input, writes, next.block.curr);
          RunIsHistory(handlers, resolution, s, input, system, writes);
          RunClean(handlers, resolution, s, input, system, writes, next.block.curr);
          var after := H.Run(resolution, system, first);
          EarlierClock(after.clock, input.later, events[1..]);
          RunsAreHistory(handlers, resolution, next, events[1..], after, writes);
          CleanConcat(resolution, system, first, rest);
          HistoryConcat(resolution, system, first, rest);
        case SetNext(state) =>
          var e := H.SetNext(state);
          CleanOne(resolution, system, e);
          HistoryOne(resolution, system, e);
          RunsAreHistory(handlers, resolution, next, events[1..], H.Next(resolution, system, e), writes);
          CleanConcat(resolution, system, [e], rest);
          HistoryConcat(resolution, system, [e], rest);
      }
    }
  }

  /** Over any runs of a new store the duration of the current state counts the time since it was entered, and that of
      the previous one the time from then until it was left. */
  lemma StoreCountsTime(handlers: Handlers, resolution: Time, data: Data, events: seq<Event>, writes: nat)
    requires resolution > 0 && OnClock(0, events)
    requires !Runs(handlers, resolution, Store(BLANK, false, [], false), events).halted
    ensures var start := Store(BLANK, false, [], false);
            var block := Runs(handlers, resolution, start, events).block;
            var story := H.Run(resolution, H.Begin(data), HistoryOf(handlers, resolution, start, events, writes)).story;
            && block.curr == story.current.state && block.prev == story.left.state && block.next == story.requested
            && block.currDur * resolution <= story.current.lasted
                 < (block.currDur + story.current.boots) * resolution
            && block.prevDur * resolution <= story.left.lasted < (block.prevDur + story.left.boots) * resolution
  {
    var start := Store(BLANK, false, [], false);
    RunsAreHistory(handlers, resolution, start, events, H.Begin(data), writes);
    H.TimeAccounting(resolution, data, HistoryOf(handlers, resolution, start, events, writes));
    H.BlockTellsStory(resolution, data, HistoryOf(handlers, resolution, start, events, writes));
  }

  // ---- Every transition is announced once and every state entered is handled ----

  /** Each transition follows the announcement to all handlers of the state that is left, in order, and is followed by
      the handling of the state that is entered, or by the failure of the assertion that it has handlers. */
  ghost predicate Ordered(handlers: Handlers, calls: seq<Call>) {
    forall p :: 0 <= p < |calls| && calls[p].Left? ==> OrderedAt(handlers, calls, p, calls[p].state, calls[p].entered)
  }

  predicate OrderedAt(handlers: Handlers, calls: seq<Call>, p: nat, state: int, entered: int)
    requires p < |calls|
  {
    && state in handlers && handlers[state] <= p
    && calls[p - handlers[state]..p] == TransitCalls(state, handlers[state])
    && (entered in handlers ==>
          && p + 1 + handlers[entered] <= |calls|
          && calls[p + 1..p + 1 + handlers[entered]] == StateCalls(entered, handlers[entered]))
  }

  lemma OrderedAppend(handlers: Handlers, calls: seq<Call>, more: seq<Call>)
    requires Ordered(handlers, calls)
    requires forall p :: 0 <= p < |more| ==> !more[p].Left?
    ensures Ordered(handlers, calls + more)
  {
    forall p | 0 <= p < |calls + more| && (calls + more)[p].Left?
      ensures OrderedAt(handlers, calls + more, p, (calls + more)[p].state, (calls + more)[p].entered)
    {
      assert p < |calls| && OrderedAt(handlers, calls, p, calls[p].state, calls[p].entered);
      SameWindows(handlers, calls, more, p, calls[p].state, calls[p].entered);
    }
  }

  lemma SameWindows(handlers: Handlers, calls: seq<Call>, more: seq<Call>, p: nat, state: int, entered: int)
    requires p < |calls| && OrderedAt(handlers, calls, p, state, entered)
    ensures OrderedAt(handlers, calls + more, p, state, entered)
  {
    assert (calls + more)[p - handlers[state]..p] == calls[p - handlers[state]..p];
    if entered in handlers {
      assert (calls + more)[p + 1..p + 1 + handlers[entered]] == calls[p + 1..p + 1 + handlers[entered]];
    }
  }

  lemma OrderedTransition(handlers: Handlers, calls: seq<Call>, state: int, entered: int, more: seq<Call>)
    requires Ordered(handlers, calls) && state in handlers
    requires more == if entered in handlers then StateCalls(entered, handlers[entered]) else []
    ensures Ordered(handlers, calls + TransitCalls(state, handlers[state]) + [Left(state, entered)] + more)
  {
    var announced := calls + TransitCalls(state, handlers[state]);
    OrderedAppend(handlers, calls, TransitCalls(state, handlers[state]));
    var all, at := announced + [Left(state, entered)] + more, |announced|;
    assert all[at - handlers[state]..at] == TransitCalls(state, handlers[state]);
    assert entered in handlers ==> all[at + 1..at + 1 + handlers[entered]] == more;
    assert all == announced + ([Left(state, entered)] + more);
    forall p | 0 <= p < |all| && all[p].Left? ensures OrderedAt(handlers, all, p, all[p].state, all[p].entered) {
      if p < |announced| {
        SameWindows(handlers, announced, [Left(state, entered)] + more, p, all[p].state, all[p].entered);
      }
    }
  }

  lemma RunOrdered(handlers: Handlers, resolution: Time, s: Store, input: Input)
    requires resolution > 0 && !s.halted && Ordered(handlers, s.calls)
    ensures Ordered(handlers, RunOnce(handlers, resolution, s, input).calls)
  {
    var b := s.block;
    if s.begun && b.curr in handlers {
      var entered := Chosen(Updated(b, resolution, input.now), input.leaving, handlers[b.curr]).next;
      var more := if entered in handlers then StateCalls(entered, handlers[entered]) else [];
      OrderedTransition(handlers, s.calls, b.curr, entered, more);
      var ended := s.calls + TransitCalls(b.curr, handlers[b.curr]) + [Left(b.curr, entered)];
      assert ended + [] == ended;
    } else if !s.begun && b.curr in handlers {
      OrderedAppend(handlers, s.calls, StateCalls(b.curr, handlers[b.curr]));
    }
  }

  /** In every sequence of runs, with set_next called by handlers or between runs: every
      transition has been announced in the same run to each handler of the state that is left, in order, and the
      state that is entered is handled, by each of its handlers, before any other transition. */
  lemma {:induction false} TransitionsAreOrdered(handlers: Handlers, resolution: Time, s: Store, events: seq<Event>)
    requires resolution > 0 && Ordered(handlers, s.calls)
    ensures Ordered(handlers, Runs(handlers, resolution, s, events).calls)
    decreases |events|
  {
    if events != [] {
      if !s.halted && events[0].Run? {
        RunOrdered(handlers, resolution, s, events[0].input);
      }
      TransitionsAreOrdered(handlers, resolution, Next(handlers, resolution, s, events[0]), events[1..]);
    }
  }

  /** How often a state was left. */
  function Departures(calls: seq<Call>, state: int): nat {
    if calls == [] then 0
    else
      var last := calls[|calls| - 1];
      Departures(calls[..|calls| - 1], state) + (if last.Left? && last.state == state then 1 else 0)
  }

  /** How often a handler was told that its state is left. */
  function Announcements(calls: seq<Call>, state: int, handler: nat): nat {
    if calls == [] then 0
    else
      Announcements(calls[..|calls| - 1], state, handler)
      + (if calls[|calls| - 1] == Transit(state, handler) then 1 else 0)
  }

  /** Each handler of a state is told once for each time the state is left, and nobody else is told. */
  ghost predicate Balanced(handlers: Handlers, calls: seq<Call>) {
    forall state, handler: nat ::
      Announcements(calls, state, handler)
      == if state in handlers && handler < handlers[state] then Departures(calls, state) else 0
  }

  lemma {:induction false} CountsConcat(a: seq<Call>, b: seq<Call>, state: int, handler: nat)
    ensures Announcements(a + b, state, handler) == Announcements(a, state, handler) + Announcements(b, state, handler)
    ensures Departures(a + b, state) == Departures(a, state) + Departures(b, state)
  {
    if b == [] {
      assert a + b == a;
    } else {
      var n := |b| - 1;
      assert (a + b)[..|a| + n] == a + b[..n];
      CountsConcat(a, b[..n], state, handler);
    }
  }

  lemma {:induction false} CountsOfTransit(left: int, count: nat, state: int, handler: nat)
    ensures Announcements(TransitCalls(left, count), state, handler)
        == if state == left && handler < count then 1 else 0
    ensures Departures(TransitCalls(left, count), state) == 0
  {
    if count > 0 {
      assert TransitCalls(left, count)[..count - 1] == TransitCalls(left, count - 1);
      CountsOfTransit(left, count - 1, state, handler);
    }
  }

  lemma {:induction false} CountsOfState(handled: int, count: nat, state: int, handler: nat)
    ensures Announcements(StateCalls(handled, count), state, handler) == 0
    ensures Departures(StateCalls(handled, count), state) == 0
  {
    if count > 0 {
      assert StateCalls(handled, count)[..count - 1] == StateCalls(handled, count - 1);
      CountsOfState(handled, count - 1, state, handler);
    }
  }

  lemma EndedBalanced(handlers: Handlers, s: Store, later: Time, leaving: Choice)
    requires Balanced(handlers, s.calls)
    ensures Balanced(handlers, Ended(handlers, s, later, leaving).calls)
  {
    var left := s.block.curr;
    if left in handlers {
      var calls := s.calls + TransitCalls(left, handlers[left]);
      var last := [Left(left, Chosen(s.block, leaving, handlers[left]).next)];
      forall state, handler: nat
        ensures Announcements(calls + last, state, handler)
             == if state in handlers && handler < handlers[state] then Departures(calls + last, state) else 0
      {
        CountsConcat(s.calls, TransitCalls(left, handlers[left]), state, handler);
        CountsOfTransit(left, handlers[left], state, handler);
        assert (calls + last)[..|calls|] == calls;
      }
    }
  }

  lemma HandledBalanced(handlers: Handlers, s: Store, choice: Choice)
    requires Balanced(handlers, s.calls)
    ensures Balanced(handlers, Handled(handlers, s, choice).calls)
  {
    var handled := s.block.curr;
    if handled in handlers {
      var more := StateCalls(handled, handlers[handled]);
      forall state, handler: nat
        ensures Announcements(s.calls + more, state, handler)
             == if state in handlers && handler < handlers[state] then Departures(s.calls + more, state) else 0
      {
        CountsConcat(s.calls, more, state, handler);
        CountsOfState(handled, handlers[handled], state, handler);
      }
    }
  }

  lemma RunBalanced(handlers: Handlers, resolution: Time, s: Store, input: Input)
    requires resolution > 0 && Balanced(handlers, s.calls)
    ensures Balanced(handlers, RunOnce(handlers, resolution, s, input).calls)
  {
    var s1 := s.(block := Updated(s.block, resolution, input.now));
    EndedBalanced(handlers, s1, input.later, input.leaving);
    var s2 := if s1.begun then Ended(handlers, s1, input.later, input.leaving) else s1;
    HandledBalanced(handlers, s2, input.choice);
  }

  /** In every such sequence of runs each handler of a state is told exactly as often as the state is left. */
  lemma {:induction false} ToldOnce(handlers: Handlers, resolution: Time, s: Store, events: seq<Event>)
    requires resolution > 0 && Balanced(handlers, s.calls)
    ensures Balanced(handlers, Runs(handlers, resolution, s, events).calls)
    decreases |events|
  {
    if events != [] {
      if !s.halted && events[0].Run? {
        RunBalanced(handlers, resolution, s, events[0].input);
      }
      ToldOnce(handlers, resolution, Next(handlers, resolution, s, events[0]), events[1..]);
    }
  }
}
