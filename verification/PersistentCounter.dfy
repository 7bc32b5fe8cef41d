/** Counters that survive reboots: one accumulates over all boots, one over the boots since the last power cut. */
module PersistentCounter {
  import opened Numbers
  import opened Options
  import opened Status
  import opened Storage

  /** Counts time since the last reset in units of the resolution. */
  class TimeCounter {
    const resolution: int
    var offset: int

    constructor (resolution: int)
      requires resolution > 0
      ensures this.resolution == resolution && offset == 0
    {
      this.resolution := resolution;
      offset := 0;
    }

    /** The clock does not go back, so the division rounds down: the value is the largest number of whole units that
        have passed, modulo 2^64. Times have 63 bits, so it does not wrap around. */
    method Get(now: int) returns (value: nat)
      requires resolution > 0 && now >= offset
      ensures exists units: nat :: value == Wrap(units) && AreWholeUnits(units, now - offset, resolution)
      ensures now - offset < MODULUS ==> AreWholeUnits(value, now - offset, resolution)
    {
      var units := (now - offset) / resolution;
      WholeUnits(now - offset, resolution);
      value := Wrap(units);
      assert AreWholeUnits(units, now - offset, resolution);
      if now - offset < MODULUS {
        SmallWrap(units);
      }
    }

    method Reset(now: int)
      modifies this
      ensures offset == now
    {
      offset := now;
    }
  }

  /** `Acc` and `Mem` make the two kinds; a memory counter forgets what is stored when it starts. */
  class PersistentCounter {
    const storage: Cell<nat>
    var value: nat

    constructor Acc(storage: Cell<nat>)
      ensures this.storage == storage
      ensures value == if storage.health.readable then UnwrapOr(storage.stored, 0) else 0
    {
      var _, stored := storage.Read(0);
      this.storage := storage;
      value := stored;
    }

    constructor Mem(storage: Cell<nat>)
      modifies storage`stored
      ensures this.storage == storage
      ensures storage.stored == if storage.health.erasable then None else old(storage.stored)
      ensures value == if storage.health.readable then UnwrapOr(old(storage.stored), 0) else 0
    {
      var _, stored := storage.Read(0);
      this.storage := storage;
      value := stored;
      new;
      var _ := storage.Erase();
    }

    /** The accumulated value, given the value of the wrapped counter. */
    function Get(raw: nat): nat
      reads this
    {
      Wrap(value + raw)
    }

    method Save(raw: nat) returns (status: StatusCode)
      modifies storage`stored
      ensures status == if storage.health.writable then OK else Error
      ensures storage.stored == if status == OK then Some(Get(raw)) else old(storage.stored)
    {
      var saved := Get(raw);
      status := storage.Write(saved);
    }

    /** One boot: saves while it runs or when it ends. */
    method Boot(saves: seq<nat>)
      requires storage.health.writable
      modifies storage`stored
      ensures storage.stored == AfterSaves(old(storage.stored), value, saves)
    {
      for n := 0 to |saves|
        invariant storage.stored == AfterSaves(old(storage.stored), value, saves[..n])
      {
        var _ := Save(saves[n]);
      }
      assert saves[..|saves|] == saves;
    }
  }

  /** What is stored after a boot that started with `value` and saved at these raw values. */
  function AfterSaves(stored: Option<nat>, value: nat, saves: seq<nat>): Option<nat> {
    if saves == [] then stored else Some(Wrap(value + saves[|saves| - 1]))
  }

  // ---- Histories ----

  /** The raw values at which one boot saved, in order. A boot that ends in a power cut before its first save
      has none; a clean reboot saves at the end. */
  type Boot = seq<nat>

  function AccStored(boots: seq<Boot>): Option<nat> {
    if boots == [] then None
    else
      var stored := AccStored(boots[..|boots| - 1]);
      AfterSaves(stored, UnwrapOr(stored, 0), boots[|boots| - 1])
  }

  function MemStored(boots: seq<Boot>): Option<nat> {
    if boots == [] then None
    else AfterSaves(None, UnwrapOr(MemStored(boots[..|boots| - 1]), 0), boots[|boots| - 1])
  }

  /** The boots of a counter that accumulates, one after the other. */
  method AccBoots(storage: Cell<nat>, boots: seq<Boot>)
    requires storage.stored == None && storage.health.readable && storage.health.writable
    modifies storage`stored
    ensures storage.stored == AccStored(boots)
  {
    for n := 0 to |boots|
      invariant storage.stored == AccStored(boots[..n])
    {
      var counter := new PersistentCounter.Acc(storage);
      counter.Boot(boots[n]);
      assert boots[..n + 1][..n] == boots[..n];
    }
    assert boots[..|boots|] == boots;
  }

  /** The boots of a memory counter. */
  method MemBoots(storage: Cell<nat>, boots: seq<Boot>)
    requires storage.stored == None && storage.health == Health(true, true, true)
    modifies storage`stored
    ensures storage.stored == MemStored(boots)
  {
    for n := 0 to |boots|
      invariant storage.stored == MemStored(boots[..n])
    {
      var counter := new PersistentCounter.Mem(storage);
      counter.Boot(boots[n]);
      assert boots[..n + 1][..n] == boots[..n];
    }
    assert boots[..|boots|] == boots;
  }

  function LastSave(boot: Boot): nat {
    if boot == [] then 0 else boot[|boot| - 1]
  }

  function Sum(boots: seq<Boot>): nat {
    if boots == [] then 0 else Sum(boots[..|boots| - 1]) + LastSave(boots[|boots| - 1])
  }

  lemma SumStep(boots: seq<Boot>, boot: Boot)
    ensures Sum(boots + [boot]) == Sum(boots) + LastSave(boot)
  {
    assert (boots + [boot])[..|boots|] == boots;
  }

  lemma {:induction false} AccStart(boots: seq<Boot>)
    ensures UnwrapOr(AccStored(boots), 0) == Wrap(Sum(boots))
  {
    if boots != [] {
      var n := |boots| - 1;
      AccStart(boots[..n]);
      Carry(UnwrapOr(AccStored(boots[..n]), 0), Sum(boots[..n]), LastSave(boots[n]));
    }
  }

  /** Over any history of boots, reboots and power cuts the accumulated value is the sum, over the earlier boots, of the
      raw value at the last save of each, plus the current raw value, however often each was saved. */
  lemma {:induction false} AccIsSum(boots: seq<Boot>, raw: nat)
    ensures Wrap(UnwrapOr(AccStored(boots), 0) + raw) == (Sum(boots) + raw) % 0x1_0000_0000_0000_0000
  {
    AccStart(boots);
    Carry(UnwrapOr(AccStored(boots), 0), Sum(boots), raw);
  }

  /** The last boots, each of which saved. */
  function Streak(boots: seq<Boot>): seq<Boot> {
    if boots == [] || boots[|boots| - 1] == [] then []
    else Streak(boots[..|boots| - 1]) + [boots[|boots| - 1]]
  }

  lemma {:induction false} MemStart(boots: seq<Boot>)
    ensures UnwrapOr(MemStored(boots), 0) == Wrap(Sum(Streak(boots)))
  {
    if boots != [] && boots[|boots| - 1] != [] {
      var n := |boots| - 1;
      MemStart(boots[..n]);
      SumStep(Streak(boots[..n]), boots[n]);
      SavesCarry(UnwrapOr(MemStored(boots[..n]), 0), Sum(Streak(boots[..n])), boots[n]);
      assert Streak(boots) == Streak(boots[..n]) + [boots[n]];
    }
  }

  /** A boot that saved adds its last save. */
  lemma SavesCarry(start: nat, sum: nat, boot: Boot)
    requires start == Wrap(sum) && boot != []
    ensures AfterSaves(None, start, boot) == Some(Wrap(sum + LastSave(boot)))
  {
    Carry(start, sum, LastSave(boot));
  }

  /** The memory counter accumulates over the last boots that saved, which it does only on a clean reboot as wired: it
      starts from zero exactly after a boot that did not. */
  lemma {:induction false} MemIsStreak(boots: seq<Boot>, raw: nat)
    ensures Wrap(UnwrapOr(MemStored(boots), 0) + raw) == (Sum(Streak(boots)) + raw) % 0x1_0000_0000_0000_0000
  {
    MemStart(boots);
    Carry(UnwrapOr(MemStored(boots), 0), Sum(Streak(boots)), raw);
  }

  lemma Carry(start: nat, sum: nat, raw: nat)
    requires start == Wrap(sum)
    ensures Wrap(start + raw) == Wrap(sum + raw)
  {
    WrapSum(sum, raw);
  }

  // ---- Time over boots ----

  function Total(times: seq<nat>): nat {
    if times == [] then 0 else Total(times[..|times| - 1]) + times[|times| - 1]
  }

  /** Boots that last so long and save once, when they end. */
  function Uptimes(times: seq<nat>, resolution: int): seq<Boot>
    requires resolution > 0
  {
    seq(|times|, i requires 0 <= i < |times| => [Wrap(times[i] / resolution)])
  }

  lemma {:induction false} UnitsLost(times: seq<nat>, resolution: int)
    requires resolution > 0 && Total(times) < MODULUS
    ensures Sum(Uptimes(times, resolution)) * resolution <= Total(times)
    ensures Total(times) <= Sum(Uptimes(times, resolution)) * resolution + |times| * (resolution - 1)
  {
    if times != [] {
      var n := |times| - 1;
      UnitsLost(times[..n], resolution);
      var boots := Uptimes(times, resolution);
      assert boots[..n] == Uptimes(times[..n], resolution);
      WholeUnits(times[n], resolution);
      SmallWrap(times[n] / resolution);
      OnePeriod(resolution, Sum(boots[..n]), times[n], Total(times[..n]), n + 1);
    }
  }

  /** The lifetime over clean boots is their total time in units of the resolution, less than one unit short for each
      boot and never too much. */
  lemma LifetimeAccounting(times: seq<nat>, resolution: int)
    requires resolution > 0 && Total(times) < MODULUS
    ensures var lifetime := UnwrapOr(AccStored(Uptimes(times, resolution)), 0);
            && lifetime * resolution <= Total(times)
            && Total(times) <= lifetime * resolution + |times| * (resolution - 1)
  {
    UnitsLost(times, resolution);
    AccStart(Uptimes(times, resolution));
    SmallSum(Sum(Uptimes(times, resolution)), resolution, Total(times));
  }

  lemma SmallSum(sum: nat, resolution: int, total: nat)
    requires resolution > 0 && sum * resolution <= total < MODULUS
    ensures Wrap(sum) == sum
  {
    assert sum <= sum * resolution;
  }
}
