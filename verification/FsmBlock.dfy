/** The persistent state of a finite state machine: its states, how long it spent in them, and what survives
    reboots and interrupted writes. */
module FsmBlock {
  import opened Numbers
  import opened Options
  import opened Status

  type Time = int

  /** The keys of the block, in the order in which they are written and read. */
  datatype Key = WriteCount | PrevState | PrevStateDur | CurrState | CurrStateDur

  /** What is stored under each key. */
  datatype Data = Data(writeCount: Option<int>, prev: Option<int>, prevDur: Option<int>,
                       curr: Option<int>, currDur: Option<int>) {
    function Get(key: Key): Option<int> {
      match key
      case WriteCount => writeCount
      case PrevState => prev
      case PrevStateDur => prevDur
      case CurrState => curr
      case CurrStateDur => currDur
    }

    function Put(key: Key, value: int): Data {
      match key
      case WriteCount => this.(writeCount := Some(value))
      case PrevState => this.(prev := Some(value))
      case PrevStateDur => this.(prevDur := Some(value))
      case CurrState => this.(curr := Some(value))
      case CurrStateDur => this.(currDur := Some(value))
    }
  }

  /** States are small numbers, 0 being none; times count in units of the clock or of the resolution. */
  datatype Block = Block(prev: int, curr: int, next: int, prevDur: Time, currDur: Time, writeCount: int,
                         startTs: Time, savedTs: Time)

  const BLANK := Block(0, 0, 0, 0, 0, 0, 0, 0)

  /** The storage after the first `count` keys of the block were written. */
  function Written(data: Data, b: Block, count: nat): Data {
    Data(if count > 0 then Some(b.writeCount) else data.writeCount,
         if count > 1 then Some(b.prev) else data.prev,
         if count > 2 then Some(b.prevDur) else data.prevDur,
         if count > 3 then Some(b.curr) else data.curr,
         if count > 4 then Some(b.currDur) else data.currDur)
  }

  /** Non-volatile storage, in which each key is written as a whole. `writes` and `loads` tell how many more accesses
      succeed. */
  class Storage {
    var data: Data
    var writes: nat
    var loads: nat

    constructor (data: Data, writes: nat, loads: nat)
      ensures this.data == data && this.writes == writes && this.loads == loads
    {
      this.data, this.writes, this.loads := data, writes, loads;
    }

    method Write(key: Key, value: int) returns (status: StatusCode)
      modifies this
      ensures status == if old(writes) > 0 then OK else Error
      ensures data == if old(writes) > 0 then old(data).Put(key, value) else old(data)
      ensures writes == (if old(writes) > 0 then old(writes) - 1 else 0) && loads == old(loads)
    {
      if writes == 0 {
        return Error;
      }
      data, writes := data.Put(key, value), writes - 1;
      return OK;
    }

    method Read(key: Key, initial: int) returns (status: StatusCode, value: int)
      modifies this
      ensures status == if old(loads) == 0 then Error else if data.Get(key).Some? then OK else NoData
      ensures value == if status == OK then data.Get(key).value else initial
      ensures loads == (if old(loads) > 0 then old(loads) - 1 else 0) && data == old(data) && writes == old(writes)
    {
      if loads == 0 {
        return Error, initial;
      }
      loads := loads - 1;
      if data.Get(key).None? {
        return NoData, initial;
      }
      return OK, data.Get(key).value;
    }
  }

  /** The block after its time was updated. */
  function Updated(b: Block, resolution: Time, now: Time): Block
    requires resolution > 0
  {
    b.(currDur := b.savedTs + (now - b.startTs) / resolution)
  }

  function Transited(b: Block, now: Time): Block {
    Block(b.curr, b.next, 0, b.currDur, 0, b.writeCount, now, 0)
  }

  predicate InTransit(b: Block) {
    b.next != 0 && b.curr != b.next
  }

  function Counted(b: Block): Block {
    b.(writeCount := Wrap(b.writeCount + 1))
  }

  /** How many keys a restore reads before one is missing or fails. */
  function Loaded(data: Data, loads: nat): nat {
    if loads < 1 || data.writeCount.None? then 0
    else if loads < 2 || data.prev.None? then 1
    else if loads < 3 || data.prevDur.None? then 2
    else if loads < 4 || data.curr.None? then 3
    else if loads < 5 || data.currDur.None? then 4
    else 5
  }

  /** The block after a restore. When a key is missing or fails, the fields before it keep what was read. */
  function Restored(data: Data, loads: nat): Block {
    var count := Loaded(data, loads);
    Block(if count > 1 then UnwrapOr(data.prev, 0) else 0,
          if count > 3 then UnwrapOr(data.curr, 0) else 0,
          0,
          if count > 2 then UnwrapOr(data.prevDur, 0) else 0,
          if count > 4 then UnwrapOr(data.currDur, 0) else 0,
          if count > 0 then UnwrapOr(data.writeCount, 0) else 0,
          0,
          if count > 4 then UnwrapOr(data.currDur, 0) else 0)
  }

  class FsmBlock {
    const resolution: Time
    const storage: Storage

    var prevState: int
    var currState: int
    var nextState: int
    var prevStateDur: Time
    var currStateDur: Time
    var writeCount: int
    var startTs: Time
    var savedTs: Time

    function State(): Block
      reads this
    {
      Block(prevState, currState, nextState, prevStateDur, currStateDur, writeCount, startTs, savedTs)
    }

    /** Restores the block from what a block has stored. */
    constructor (storage: Storage, resolution: Time)
      requires resolution > 0
      modifies storage
      ensures this.storage == storage && this.resolution == resolution
      ensures storage.data == old(storage.data)
      ensures State() == Restored(storage.data, old(storage.loads))
    {
      this.storage, this.resolution := storage, resolution;
      prevState, currState, nextState := 0, 0, 0;
      prevStateDur, currStateDur, writeCount := 0, 0, 0;
      startTs, savedTs := 0, 0;
      new;
      var status := ReadAll();
      if status == OK {
        savedTs := currStateDur;
      }
    }

    method ReadAll() returns (status: StatusCode)
      requires State() == BLANK
      modifies this, storage
      ensures storage.data == old(storage.data)
      ensures State() == Restored(storage.data, old(storage.loads)).(savedTs := 0)
      ensures status == OK <==> Loaded(storage.data, old(storage.loads)) == 5
    {
      var value;
      status, value := storage.Read(WriteCount, writeCount);
      if status != OK {
        return;
      }
      writeCount := value;
      status, value := storage.Read(PrevState, prevState);
      if status != OK {
        return;
      }
      prevState := value;
      status, value := storage.Read(PrevStateDur, prevStateDur);
      if status != OK {
        return;
      }
      prevStateDur := value;
      status, value := storage.Read(CurrState, currState);
      if status != OK {
        return;
      }
      currState := value;
      status, value := storage.Read(CurrStateDur, currStateDur);
      if status != OK {
        return;
      }
      currStateDur := value;
    }

    method WriteAll() returns (status: StatusCode)
      modifies this, storage
      ensures State() == Counted(old(State()))
      ensures storage.data == Written(old(storage.data), State(), old(storage.writes))
      ensures status == if old(storage.writes) >= 5 then OK else Error
    {
      writeCount := Wrap(writeCount + 1);
      status := storage.Write(WriteCount, writeCount);
      if status != OK {
        return;
      }
      status := storage.Write(PrevState, prevState);
      if status != OK {
        return;
      }
      status := storage.Write(PrevStateDur, prevStateDur);
      if status != OK {
        return;
      }
      status := storage.Write(CurrState, currState);
      if status != OK {
        return;
      }
      status := storage.Write(CurrStateDur, currStateDur);
    }

    method HandleReboot(now: Time)
      requires resolution > 0
      modifies this, storage
      ensures State() == Counted(Updated(old(State()), resolution, now))
      ensures storage.data == Written(old(storage.data), State(), old(storage.writes))
    {
      Update(now);
      var _ := WriteAll();
    }

    method Run() returns (status: StatusCode)
      modifies this, storage
      ensures State() == Counted(old(State()))
      ensures storage.data == Written(old(storage.data), State(), old(storage.writes))
      ensures status == if old(storage.writes) >= 5 then OK else Error
    {
      status := WriteAll();
    }

    predicate IsInTransit()
      reads this
      ensures IsInTransit() == InTransit(State())
    {
      nextState != 0 && currState != nextState
    }

    method Transit(now: Time) returns (status: StatusCode)
      modifies this, storage
      ensures State() == Counted(Transited(old(State()), now))
      ensures prevState == old(currState) && prevStateDur == old(currStateDur)
      ensures currState == old(nextState) && nextState == 0 && currStateDur == savedTs == 0 && startTs == now
      ensures storage.data == Written(old(storage.data), State(), old(storage.writes))
      ensures status == if old(storage.writes) >= 5 then OK else Error
    {
      prevState := currState;
      prevStateDur := currStateDur;
      currState := nextState;
      currStateDur := 0;
      nextState := 0;
      startTs := now;
      savedTs := 0;
      status := WriteAll();
    }

    method Update(now: Time)
      requires resolution > 0
      modifies this
      ensures State() == Updated(old(State()), resolution, now)
    {
      var passedTs := (now - startTs) / resolution;
      currStateDur := savedTs + passedTs;
    }

    method SetNext(state: int)
      modifies this
      ensures State() == old(State()).(next := state)
    {
      nextState := state;
    }
  }
}
