/** Whole histories of a block: over transitions, saves, reboots and power cuts, with writes and reads that may fail
    or be cut off at any key. */
module FsmHistory {
  import opened FsmBlock
  import opened Numbers
  import opened Options

  // ---- Writes that stop half-way ----

  /** A complete write followed by a complete restore loses only the request for the next state; the duration counts
      on from what was saved, and the clock starts again. */
  lemma RestoreUndoesWrite(data: Data, b: Block)
    ensures Restored(Written(data, b, 5), 5) == b.(next := 0, startTs := 0, savedTs := b.currDur)
  {
  }

  /** A restore after a write over block `a` by block `b` that stopped after `count` keys sees the new values on
      those keys and the old values on the others. */
  lemma TornRestore(data: Data, a: Block, b: Block, count: nat)
    requires count <= 5
    ensures var r := Restored(Written(Written(data, a, 5), b, count), 5);
            && r.writeCount == (if count >= 1 then b else a).writeCount
            && r.prev == (if count >= 2 then b else a).prev
            && r.prevDur == (if count >= 3 then b else a).prevDur
            && r.curr == (if count >= 4 then b else a).curr
            && r.currDur == r.savedTs == (if count == 5 then b else a).currDur
            && (r.curr == a.curr || r.curr == b.curr)
  {
  }

  /** The restored state has the duration of that state, unless the write stopped between the two keys:
      then the new state starts with the time of the old one. */
  lemma TornDuration(data: Data, a: Block, b: Block, count: nat)
    requires count <= 5
    ensures var r := Restored(Written(Written(data, a, 5), b, count), 5);
            (r.curr, r.currDur) == (a.curr, a.currDur) || (r.curr, r.currDur) == (b.curr, b.currDur)
            <==> count != 4 || a.curr == b.curr || a.currDur == b.currDur
  {
  }

  /** A restore of a complete block that gets to read only some keys has the values on those and nothing on the others,
      and counts time on only if it has read them all. */
  lemma CutRestore(data: Data, b: Block, loads: nat)
    ensures var r := Restored(Written(data, b, 5), loads);
            && r.writeCount == (if loads >= 1 then b.writeCount else 0)
            && r.prev == (if loads >= 2 then b.prev else 0)
            && r.prevDur == (if loads >= 3 then b.prevDur else 0)
            && r.curr == (if loads >= 4 then b.curr else 0)
            && r.currDur == r.savedTs == (if loads >= 5 then b.currDur else 0)
            && r.next == r.startTs == 0
  {
  }

  /** So has a restore of the first block ever written, of which only some keys were. */
  lemma FirstRestore(b: Block, count: nat)
    ensures var r := Restored(Written(EMPTY, b, count), 5);
            && r.writeCount == (if count >= 1 then b.writeCount else 0)
            && r.prev == (if count >= 2 then b.prev else 0)
            && r.prevDur == (if count >= 3 then b.prevDur else 0)
            && r.curr == (if count >= 4 then b.curr else 0)
            && r.currDur == r.savedTs == (if count >= 5 then b.currDur else 0)
            && r.next == r.startTs == 0
  {
  }

  // ---- Histories ----

  /** A stay in a state: the time since it was entered, up to the last update and without what a power cut took, and the
      number of boots that it has lasted. */
  datatype Stay = Stay(state: int, lasted: Time, boots: nat)

  /** What has happened, told without the block: the state that is requested, the current stay, the one before, and how
      often the block was saved. */
  datatype Story = Story(requested: int, current: Stay, left: Stay, saves: nat)

  /** Nothing has happened. */
  const NEW := Story(0, Stay(0, 0, 1), Stay(0, 0, 1), 0)

  /** Nothing is stored. */
  const EMPTY := Data(None, None, None, None, None)

  /** The clock is the last reading in this boot. `saved` is the story when the block was last saved, if it is known. */
  datatype System = System(block: Block, data: Data, clock: Time, story: Story, saved: Option<Story>)

  /** `writes` and `loads` tell how many keys are written or read before a failure or a power cut. */
  datatype Event =
    | Update(now: Time)
    | SetNext(state: int)
    | Transit(now: Time, writes: nat)
    | Save(writes: nat)
    | Reboot(now: Time, writes: nat, loads: nat)
    | PowerCut(loads: nat)

  /** The block and the storage after an event. */
  function NextBlock(resolution: Time, b: Block, data: Data, e: Event): (Block, Data)
    requires resolution > 0
  {
    match e
    case Update(now) => (Updated(b, resolution, now), data)
    case SetNext(state) => (b.(next := state), data)
    case Transit(now, writes) => (Counted(Transited(b, now)), Written(data, Counted(Transited(b, now)), writes))
    case Save(writes) => (Counted(b), Written(data, Counted(b), writes))
    case Reboot(now, writes, loads) =>
      var after := Written(data, Counted(Updated(b, resolution, now)), writes);
      (Restored(after, loads), after)
    case PowerCut(loads) => (Restored(data, loads), data)
  }

  function Clock(clock: Time, e: Event): Time {
    match e
    case Update(now) => now
    case SetNext(_) => clock
    case Transit(now, _) => now
    case Save(_) => clock
    case Reboot(_, _, _) => 0
    case PowerCut(_) => 0
  }

  /** Time goes on in the current stay. */
  function Later(story: Story, time: Time): Story {
    story.(current := story.current.(lasted := story.current.lasted + time))
  }

  /** Another boot goes on where the block was saved; a request that was not served is lost. */
  function Again(story: Story): Story {
    story.(requested := 0, current := story.current.(boots := story.current.boots + 1))
  }

  function SavedOnce(story: Story): Story {
    story.(saves := story.saves + 1)
  }

  /** The story after an event. */
  function NextStory(story: Story, saved: Option<Story>, clock: Time, e: Event): Story {
    match e
    case Update(now) => Later(story, now - clock)
    case SetNext(state) => story.(requested := state)
    case Transit(_, _) => Story(0, Stay(story.requested, 0, 1), story.current, story.saves + 1)
    case Save(_) => SavedOnce(story)
    case Reboot(now, _, _) => Again(SavedOnce(Later(story, now - clock)))
    case PowerCut(_) => if saved.Some? then Again(saved.value) else story
  }

  /** The story that is known to be stored after an event. */
  function NextSaved(story: Story, saved: Option<Story>, clock: Time, e: Event): Option<Story> {
    match e
    case Transit(_, writes) => if writes >= 5 then Some(NextStory(story, saved, clock, e)) else None
    case Save(writes) => if writes >= 5 then Some(SavedOnce(story)) else None
    case Reboot(now, writes, _) => if writes >= 5 then Some(SavedOnce(Later(story, now - clock))) else None
    case _ => saved
  }

  function Next(resolution: Time, s: System, e: Event): System
    requires resolution > 0
  {
    var (block, data) := NextBlock(resolution, s.block, s.data, e);
    System(block, data, Clock(s.clock, e), NextStory(s.story, s.saved, s.clock, e),
           NextSaved(s.story, s.saved, s.clock, e))
  }

  function Run(resolution: Time, s: System, events: seq<Event>): System
    requires resolution > 0
    decreases |events|
  {
    if events == [] then s else Run(resolution, Next(resolution, s, events[0]), events[1..])
  }

  // ---- What a clean history leaves in the block ----

  /** The clock does not go back within a boot, boots restore a complete block, and a power cut comes after a complete
      save or before the first one. */
  ghost predicate Clean(resolution: Time, s: System, events: seq<Event>)
    requires resolution > 0
    decreases |events|
  {
    events == [] ||
    (&& CleanEvent(s.clock, s.saved, events[0])
     && Clean(resolution, Next(resolution, s, events[0]), events[1..]))
  }

  predicate CleanEvent(clock: Time, saved: Option<Story>, e: Event) {
    match e
    case Update(now) => now >= clock
    case SetNext(_) => true
    case Transit(now, _) => now >= clock
    case Save(_) => true
    case Reboot(now, writes, loads) => now >= clock && writes >= 5 && loads >= 5
    case PowerCut(loads) => saved.Some? && loads >= 5
  }

  /** A duration stands for the time of a stay, up to a fraction of the resolution for each boot. */
  predicate Counts(resolution: Time, duration: Time, stay: Stay) {
    && stay.boots >= 1
    && duration * resolution <= stay.lasted <= duration * resolution + stay.boots * (resolution - 1)
  }

  /** The time saved by earlier boots stands for what they lasted. */
  predicate Accounted(resolution: Time, b: Block, clock: Time, stay: Stay)
    requires resolution > 0
  {
    var earlier := stay.lasted - (clock - b.startTs);
    && clock >= b.startTs && stay.boots >= 1
    && b.currDur == b.savedTs + (clock - b.startTs) / resolution
    && b.savedTs * resolution <= earlier <= b.savedTs * resolution + (stay.boots - 1) * (resolution - 1)
  }

  /** The block has the states of the story and what it counts for the stay before. */
  predicate Tells(resolution: Time, b: Block, story: Story) {
    && b.next == story.requested && b.curr == story.current.state && b.prev == story.left.state
    && Counts(resolution, b.prevDur, story.left)
    && b.writeCount == Wrap(story.saves)
  }

  /** The storage holds a complete block that fits the story, or nothing if there is none yet. */
  predicate Holds(resolution: Time, data: Data, story: Story) {
    || (data == EMPTY && story == NEW)
    || (&& data.writeCount == Some(Wrap(story.saves))
        && data.prev == Some(story.left.state) && data.curr == Some(story.current.state)
        && data.prevDur.Some? && Counts(resolution, data.prevDur.value, story.left)
        && data.currDur.Some? && Counts(resolution, data.currDur.value, story.current))
  }

  ghost predicate Good(resolution: Time, s: System)
    requires resolution > 0
  {
    && Accounted(resolution, s.block, s.clock, s.story.current) && Tells(resolution, s.block, s.story)
    && (s.saved.Some? ==> Holds(resolution, s.data, s.saved.value))
  }

  lemma AccountedCounts(resolution: Time, b: Block, clock: Time, stay: Stay)
    requires resolution > 0 && Accounted(resolution, b, clock, stay)
    ensures Counts(resolution, b.currDur, stay)
  {
    OnePeriod(resolution, b.savedTs, clock - b.startTs, stay.lasted - (clock - b.startTs), stay.boots);
  }

  lemma UpdateGood(resolution: Time, b: Block, clock: Time, story: Story, now: Time)
    requires resolution > 0 && Accounted(resolution, b, clock, story.current) && Tells(resolution, b, story)
    requires now >= clock
    ensures Accounted(resolution, Updated(b, resolution, now), now, Later(story, now - clock).current)
    ensures Tells(resolution, Updated(b, resolution, now), Later(story, now - clock))
  {
  }

  /** A complete write holds the story. */
  lemma WriteHolds(resolution: Time, data: Data, b: Block, clock: Time, story: Story, writes: nat)
    requires resolution > 0 && Accounted(resolution, b, clock, story.current) && Tells(resolution, b, story)
    requires writes >= 5
    ensures Holds(resolution, Written(data, b, writes), story)
  {
    AccountedCounts(resolution, b, clock, story.current);
  }

  /** A complete restore goes on with the story. */
  lemma RestoreGood(resolution: Time, data: Data, story: Story, loads: nat)
    requires resolution > 0 && Holds(resolution, data, story) && loads >= 5
    ensures Accounted(resolution, Restored(data, loads), 0, Again(story).current)
    ensures Tells(resolution, Restored(data, loads), Again(story))
  {
    assert 0 / resolution == 0;
  }

  lemma CountGood(resolution: Time, b: Block, clock: Time, story: Story)
    requires resolution > 0 && Accounted(resolution, b, clock, story.current) && Tells(resolution, b, story)
    ensures Accounted(resolution, Counted(b), clock, SavedOnce(story).current)
    ensures Tells(resolution, Counted(b), SavedOnce(story))
  {
    WrapSum(story.saves, 1);
  }

  lemma TransitGood(resolution: Time, b: Block, clock: Time, story: Story, now: Time)
    requires resolution > 0 && Accounted(resolution, b, clock, story.current) && Tells(resolution, b, story)
    ensures var next := Story(0, Stay(story.requested, 0, 1), story.current, story.saves);
            Accounted(resolution, Transited(b, now), now, next.current) && Tells(resolution, Transited(b, now), next)
  {
    AccountedCounts(resolution, b, clock, story.current);
    assert 0 / resolution == 0;
  }

  lemma StepGood(resolution: Time, s: System, e: Event)
    requires resolution > 0 && Good(resolution, s) && CleanEvent(s.clock, s.saved, e)
    ensures Good(resolution, Next(resolution, s, e))
  {
    match e
    case Update(now) => UpdateGood(resolution, s.block, s.clock, s.story, now);
    case SetNext(_) =>
    case Transit(now, writes) =>
      TransitGood(resolution, s.block, s.clock, s.story, now);
      var moved := Story(0, Stay(s.story.requested, 0, 1), s.story.current, s.story.saves);
      CountGood(resolution, Transited(s.block, now), now, moved);
      if writes >= 5 {
        WriteHolds(resolution, s.data, Counted(Transited(s.block, now)), now, SavedOnce(moved), writes);
      }
    case Save(writes) =>
      CountGood(resolution, s.block, s.clock, s.story);
      if writes >= 5 {
        WriteHolds(resolution, s.data, Counted(s.block), s.clock, SavedOnce(s.story), writes);
      }
    case Reboot(now, writes, loads) =>
      var b, story := Updated(s.block, resolution, now), Later(s.story, now - s.clock);
      UpdateGood(resolution, s.block, s.clock, s.story, now);
      CountGood(resolution, b, now, story);
      WriteHolds(resolution, s.data, Counted(b), now, SavedOnce(story), writes);
      RestoreGood(resolution, Written(s.data, Counted(b), writes), SavedOnce(story), loads);
    case PowerCut(loads) => RestoreGood(resolution, s.data, s.saved.value, loads);
  }

  lemma {:induction false} RunGood(resolution: Time, s: System, events: seq<Event>)
    requires resolution > 0 && Good(resolution, s) && Clean(resolution, s, events)
    ensures Good(resolution, Run(resolution, s, events))
    decreases |events|
  {
    if events != [] {
      StepGood(resolution, s, events[0]);
      RunGood(resolution, Next(resolution, s, events[0]), events[1..]);
    }
  }

  /** A new block, with whatever is stored. */
  function Begin(data: Data): System {
    System(BLANK, data, 0, NEW, if data == EMPTY then Some(NEW) else None)
  }

  lemma HistoryIsGood(resolution: Time, data: Data, events: seq<Event>)
    requires resolution > 0 && Clean(resolution, Begin(data), events)
    ensures Good(resolution, Run(resolution, Begin(data), events))
  {
    assert 0 / resolution == 0;
    assert Good(resolution, Begin(data));
    RunGood(resolution, Begin(data), events);
  }

  /** Over any clean history the duration of the current state is the time since it was entered, up to the last update
      and without what a power cut took, in units of the resolution, less than one unit short for each boot and never
      too much: no time is counted twice. */
  lemma TimeAccounting(resolution: Time, data: Data, events: seq<Event>)
    requires resolution > 0 && Clean(resolution, Begin(data), events)
    ensures var s := Run(resolution, Begin(data), events);
            s.block.currDur * resolution <= s.story.current.lasted
              < (s.block.currDur + s.story.current.boots) * resolution
  {
    HistoryIsGood(resolution, data, events);
    var s := Run(resolution, Begin(data), events);
    AccountedCounts(resolution, s.block, s.clock, s.story.current);
    Distribute(s.block.currDur, s.story.current.boots, resolution);
  }

  /** And the block has the state that was last entered, the one that is requested since, the one that was left for it,
      with the time of that stay, and the number of times that it was saved. */
  lemma BlockTellsStory(resolution: Time, data: Data, events: seq<Event>)
    requires resolution > 0 && Clean(resolution, Begin(data), events)
    ensures var s := Run(resolution, Begin(data), events);
            && s.block.curr == s.story.current.state && s.block.next == s.story.requested
            && s.block.prev == s.story.left.state
            && s.block.prevDur * resolution <= s.story.left.lasted
                 < (s.block.prevDur + s.story.left.boots) * resolution
            && 0 <= s.block.writeCount < 0x1_0000_0000_0000_0000
            && (s.story.saves - s.block.writeCount) % 0x1_0000_0000_0000_0000 == 0
  {
    HistoryIsGood(resolution, data, events);
    var s := Run(resolution, Begin(data), events);
    Distribute(s.block.prevDur, s.story.left.boots, resolution);
    WrapIsModular(s.story.saves);
  }

  lemma Distribute(units: Time, boots: nat, resolution: Time)
    ensures (units + boots) * resolution == units * resolution + boots * (resolution - 1) + boots
  {
  }

  // ---- The write count ----

  /** Every restore gets to read the write count. */
  predicate CountRead(events: seq<Event>) {
    forall i :: 0 <= i < |events| ==>
      (events[i].Reboot? || events[i].PowerCut? ==> events[i].loads >= 1)
  }

  /** The block counts on from the stored count. */
  predicate Ahead(s: System, left: nat) {
    0 <= UnwrapOr(s.data.writeCount, 0) <= s.block.writeCount && s.block.writeCount + left < 0x1_0000_0000_0000_0000
  }

  lemma StepAhead(resolution: Time, s: System, e: Event, left: nat)
    requires resolution > 0 && Ahead(s, left + 1)
    requires e.Reboot? || e.PowerCut? ==> e.loads >= 1
    ensures Ahead(Next(resolution, s, e), left)
    ensures UnwrapOr(Next(resolution, s, e).data.writeCount, 0) >= UnwrapOr(s.data.writeCount, 0)
  {
  }

  /** Over any history of crashes and failed writes the stored write count never decreases, as long as restores get
      to read it and it does not wrap around. */
  lemma {:induction false} CountNeverDecreases(resolution: Time, s: System, events: seq<Event>)
    requires resolution > 0 && Ahead(s, |events|) && CountRead(events)
    ensures Ahead(Run(resolution, s, events), 0)
    ensures UnwrapOr(Run(resolution, s, events).data.writeCount, 0) >= UnwrapOr(s.data.writeCount, 0)
    decreases |events|
  {
    if events != [] {
      StepAhead(resolution, s, events[0], |events| - 1);
      assert CountRead(events[1..]);
      CountNeverDecreases(resolution, Next(resolution, s, events[0]), events[1..]);
    }
  }

  /** A boot that cannot read the count starts it again: the next save then decreases what is stored. */
  lemma CountLost(resolution: Time, s: System, loads: nat, writes: nat)
    requires resolution > 0 && writes >= 1
    requires s.data.writeCount.Some? && 1 <= s.data.writeCount.value < 0xFFFF_FFFF_FFFF_FFFF
    ensures var s' := Run(resolution, s, [PowerCut(loads), Save(writes)]);
            UnwrapOr(s'.data.writeCount, 0) > UnwrapOr(s.data.writeCount, 0) <==> loads >= 1
  {
    var cut := Next(resolution, s, PowerCut(loads));
    assert [PowerCut(loads), Save(writes)][1..] == [Save(writes)];
    assert [Save(writes)][1..] == [];
    assert Run(resolution, cut, [Save(writes)]) == Next(resolution, cut, Save(writes));
  }
}
