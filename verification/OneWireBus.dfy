/** The time slots of the 1-Wire bus master, as the waveform that the line shows. */
module OneWireBus {
  import opened Bits
  import opened Folds
  import opened Status

  /** All intervals in microseconds. The constructor of the bus asserts these relations. */
  datatype Params = Params(resetPulse: nat, presencePulse: nat,
                           writeSlot: nat, writeBit: nat, writeRecovery: nat,
                           readSlot: nat, readInit: nat, readRc: nat, readRecovery: nat) {
    predicate Valid() {
      && 0 < presencePulse <= resetPulse
      && 0 < writeBit <= writeSlot && 0 < writeRecovery
      && 0 < readInit && 0 < readRc && readInit + readRc <= readSlot && 0 < readRecovery
    }
  }

  /** The intervals that the DS18B20 store uses. */
  const DS18B20_PARAMS := Params(480, 60, 60, 10, 1, 60, 5, 5, 1)

  /** The level of the line, microsecond by microsecond. */
  type Wave = seq<bool>

  /** The line during `time` microseconds at one level. */
  function Flat(high: bool, time: nat): Wave {
    seq(time, _ => high)
  }

  /** Where the line falls. It is high before the waveform starts. */
  function Edges(wave: Wave): seq<nat> {
    if wave == [] then []
    else
      var n := |wave| - 1;
      Edges(wave[..n]) + (if !wave[n] && (n == 0 || wave[n - 1]) then [n] else [])
  }

  predicate EndsHigh(wave: Wave) {
    wave != [] ==> wave[|wave| - 1]
  }

  /** Appends a low and a high interval. */
  function Pulse(wave: Wave, low: nat, high: nat): Wave {
    wave + Flat(false, low) + Flat(true, high)
  }

  /** Appends the slot that carries a written bit, with its recovery interval. */
  function WriteSlot(params: Params): (Wave, bool) -> Wave
    requires params.Valid()
  {
    (wave, bit) => Pulse(wave, LowTime(params, bit), params.writeSlot + params.writeRecovery - LowTime(params, bit))
  }

  function LowTime(params: Params, bit: bool): (time: nat)
    requires params.Valid()
    ensures 0 < time <= params.writeSlot
  {
    if bit then params.writeBit else params.writeSlot
  }

  /** Appends a read slot, which looks the same whatever is read. */
  function ReadSlot(params: Params): (Wave, bool) -> Wave
    requires params.Valid()
  {
    (wave, _) => Pulse(wave, params.readInit, params.readSlot - params.readInit + params.readRecovery)
  }

  /** What the master reads in the slot of the `k`-th falling edge: 0 if the slave still holds the line when the master
      samples it. `slave` tells for how many microseconds the slave holds the line after each falling edge. */
  function Sampled(params: Params, slave: nat -> nat): nat -> bool {
    (k: nat) => slave(k) <= params.readInit + params.readRc
  }

  /** A slave that holds the line for `hold` microseconds to send a 0 and does not touch it to send a 1. */
  function Sending(answer: nat -> bool, hold: nat): nat -> nat {
    (k: nat) => if answer(k) then 0 else hold
  }

  /** Consecutive values of a bit source. */
  function Take(source: nat -> bool, from: nat, count: nat): seq<bool> {
    seq(count, (i: nat) => source(from + i))
  }

  class Bus {
    const params: Params

    // The pin of the master.
    var output: bool
    var level: bool

    // The line as far as the master drives it.
    var wave: Wave

    // The slave: for how long it holds the line after each falling edge.
    const slave: nat -> nat

    /** The intervals are as the constructor asserts, and the line was left high. */
    ghost predicate Valid()
      reads this
    {
      params.Valid() && EndsHigh(wave)
    }

    constructor (params: Params, slave: nat -> nat)
      requires params.Valid()
      ensures Valid() && this.params == params && this.slave == slave && wave == []
    {
      this.params := params;
      this.slave := slave;
      output, level, wave := false, true, [];
    }

    /** Lets time pass. A pin that is an input leaves the line to the pull-up. */
    method Wait(time: nat)
      modifies `wave
      ensures wave == old(wave) + Flat(!output || level, time)
    {
      var high := !output || level;
      wave := wave + seq(time, _ => high);
    }

    /** The level of the line while the pin is an input. */
    function Get(): bool
      reads this
    {
      var edges := Edges(wave);
      || edges == []
      || edges[|edges| - 1] > |wave|
      || slave(|edges| - 1) <= |wave| - edges[|edges| - 1]
    }

    /** Holds the line, releases it and samples it. */
    method PullAndSample(low: nat, high: nat) returns (sample: bool)
      requires EndsHigh(wave) && low > 0
      modifies this
      ensures wave == Pulse(old(wave), low, high) && !output
      ensures sample <==> slave(|Edges(old(wave))|) <= low + high
    {
      ghost var before := wave;
      output := true;
      level := false;
      Wait(low);
      level := true;
      Wait(high);
      output := false;
      PulseEdge(before, low, high);
      sample := Get();
    }

    /** Returns OK if a slave answers, which means it holds the line when the presence pulse is sampled. */
    method Reset() returns (status: StatusCode)
      requires Valid()
      modifies this
      ensures Valid()
      ensures wave == Pulse(old(wave), params.resetPulse, params.resetPulse)
      ensures status == if slave(|Edges(old(wave))|) > params.resetPulse + params.presencePulse then OK else Error
    {
      ghost var before := wave;
      var high := PullAndSample(params.resetPulse, params.presencePulse);
      Wait(params.resetPulse - params.presencePulse);
      var low := before + Flat(false, params.resetPulse);
      FlatSum(low, true, params.presencePulse, params.resetPulse - params.presencePulse);
      assert params.presencePulse + (params.resetPulse - params.presencePulse) == params.resetPulse;
      PulseEndsHigh(before, params.resetPulse, params.resetPulse);
      return if high then Error else OK;
    }

    method WriteBit(bit: bool)
      requires Valid()
      modifies this
      ensures Valid()
      ensures wave == WriteSlot(params)(old(wave), bit)
    {
      ghost var before := wave;
      if bit {
        output := true;
        level := false;
        Wait(params.writeBit);
        level := true;
        Wait(params.writeSlot - params.writeBit);
        Wait(params.writeRecovery);
        FlatSum(before + Flat(false, params.writeBit), true, params.writeSlot - params.writeBit, params.writeRecovery);
      } else {
        output := true;
        level := false;
        Wait(params.writeSlot);
        level := true;
        Wait(params.writeRecovery);
      }
      ghost var low := LowTime(params, bit);
      assert wave == Pulse(before, low, params.writeSlot + params.writeRecovery - low) by {
        if bit {
          assert params.writeSlot - params.writeBit + params.writeRecovery
              == params.writeSlot + params.writeRecovery - LowTime(params, bit);
        } else {
          assert params.writeRecovery == params.writeSlot + params.writeRecovery - LowTime(params, bit);
        }
      }
      PulseEndsHigh(before, LowTime(params, bit), params.writeSlot + params.writeRecovery - LowTime(params, bit));
    }

    method ReadBit() returns (bit: bool)
      requires Valid()
      modifies this
      ensures Valid()
      ensures wave == ReadSlot(params)(old(wave), bit)
      ensures bit == Sampled(params, slave)(old(|Edges(wave)|))
    {
      ghost var before := wave;
      bit := PullAndSample(params.readInit, params.readRc);
      Wait(params.readSlot - params.readInit - params.readRc);
      Wait(params.readRecovery);
      FlatSum3(before + Flat(false, params.readInit), true,
               params.readRc, params.readSlot - params.readInit - params.readRc, params.readRecovery);
      PulseEndsHigh(before, params.readInit, params.readSlot - params.readInit + params.readRecovery);
    }

    method WriteByte(byte: Byte)
      requires Valid()
      modifies this
      ensures Valid()
      ensures wave == Fold(WriteSlot(params), old(wave), byte)
    {
      var rest := Value(byte);
      for n := 0 to 8
        invariant Valid() && rest == Value(byte[n..])
        invariant wave == Fold(WriteSlot(params), old(wave), byte[..n])
      {
        var bit := rest % 2;
        assert byte[n..][1..] == byte[n + 1..];
        WriteBit(bit != 0);
        rest := rest / 2;
        FoldStep(WriteSlot(params), old(wave), byte, n);
      }
      assert byte[..8] == byte;
    }

    method WriteBytes(buf: array?<Byte>, size: nat) returns (status: StatusCode)
      requires Valid() && (buf != null ==> size <= buf.Length)
      modifies this
      ensures Valid()
      ensures status == if buf == null || size == 0 then InvalidArg else OK
      ensures wave == if status == OK then Fold(WriteSlot(params), old(wave), BitsOf(buf[..size])) else old(wave)
    {
      if buf == null {
        return InvalidArg;
      }
      if size == 0 {
        return InvalidArg;
      }
      for n := 0 to size
        invariant Valid() && wave == Fold(WriteSlot(params), old(wave), BitsOf(buf[..n]))
      {
        WriteByte(buf[n]);
        assert buf[..n + 1] == buf[..n] + [buf[n]];
        FoldByte(WriteSlot(params), old(wave), buf[..n], buf[n]);
      }
      return OK;
    }

    /** The next bit of a transfer that began with the line at `before` and has read `bits`. */
    method ReadNext(ghost before: Wave, ghost bits: seq<bool>) returns (bit: bool)
      requires Valid() && EndsHigh(before) && HasRead(params, slave, before, wave, bits)
      modifies this
      ensures Valid() && HasRead(params, slave, before, wave, bits + [bit])
    {
      ghost var now := wave;
      bit := ReadBit();
      HasReadNext(params, slave, before, now, bits, bit);
    }

    /** Reads into a byte that held something before. */
    method ReadByte(initial: Byte, ghost before: Wave, ghost bits: seq<bool>) returns (byte: Byte)
      requires Valid() && EndsHigh(before) && HasRead(params, slave, before, wave, bits)
      modifies this
      ensures Valid() && HasRead(params, slave, before, wave, bits + byte)
    {
      byte := initial;
      assert bits + byte[..0] == bits;
      for n := 0 to 8
        invariant Valid() && HasRead(params, slave, before, wave, bits + byte[..n])
      {
        var bit := ReadNext(before, bits + byte[..n]);
        var next := StoreBit(byte, n, bit);
        assert bits + byte[..n] + [bit] == bits + next[..n + 1];
        byte := next;
      }
      assert byte[..8] == byte;
    }

    method ReadBytes(buf: array?<Byte>, size: nat) returns (status: StatusCode)
      requires Valid() && (buf != null ==> size <= buf.Length)
      modifies this
      modifies if buf == null then {} else {buf}
      ensures Valid()
      ensures status == if buf == null || size == 0 then InvalidArg else OK
      ensures status != OK ==> wave == old(wave) && (buf != null ==> buf[..] == old(buf[..]))
      ensures status == OK ==> HasRead(params, slave, old(wave), wave, BitsOf(buf[..size]))
      ensures status == OK ==> buf[size..] == old(buf[size..])
    {
      if buf == null {
        return InvalidArg;
      }
      if size == 0 {
        return InvalidArg;
      }
      ghost var before := wave;
      for n := 0 to size
        invariant Valid() && HasRead(params, slave, before, wave, BitsOf(buf[..n]))
        invariant buf[size..] == old(buf[size..])
      {
        ghost var done := buf[..n];
        var byte := ReadByte(buf[n], before, BitsOf(done));
        buf[n] := byte;
        BitsOfNext(done, byte);
        assert buf[..n + 1] == done + [byte];
      }
      return OK;
    }
  }

  /** The line that was at `before` after reading these bits, and where they came from. */
  ghost predicate HasRead(params: Params, slave: nat -> nat, before: Wave, wave: Wave, bits: seq<bool>)
    requires params.Valid()
  {
    && wave == Fold(ReadSlot(params), before, bits)
    && bits == Take(Sampled(params, slave), |Edges(before)|, |bits|)
  }

  lemma HasReadNext(params: Params, slave: nat -> nat, before: Wave, wave: Wave, bits: seq<bool>, bit: bool)
    requires params.Valid() && EndsHigh(before) && HasRead(params, slave, before, wave, bits)
    requires bit == Sampled(params, slave)(|Edges(wave)|)
    ensures HasRead(params, slave, before, ReadSlot(params)(wave, bit), bits + [bit])
  {
    ReadsOnTheLine(params, before, bits);
    assert |Edges(wave)| == |Edges(before)| + |bits|;
    FoldOneMore(ReadSlot(params), before, bits, bit);
    TakeOneMore(Sampled(params, slave), |Edges(before)|, |bits|);
  }

  lemma TakeOneMore(source: nat -> bool, from: nat, count: nat)
    ensures Take(source, from, count + 1) == Take(source, from, count) + [source(from + count)]
  {
  }

  lemma FoldOneMore(slot: (Wave, bool) -> Wave, before: Wave, bits: seq<bool>, bit: bool)
    ensures Fold(slot, before, bits + [bit]) == slot(Fold(slot, before, bits), bit)
  {
    assert (bits + [bit])[..|bits|] == bits;
  }

  lemma BitsOfNext(bytes: seq<Byte>, byte: Byte)
    ensures BitsOf(bytes + [byte]) == BitsOf(bytes) + byte
  {
  }

  lemma FoldByte<S>(f: (S, bool) -> S, initial: S, bytes: seq<Byte>, byte: Byte)
    ensures Fold(f, initial, BitsOf(bytes + [byte])) == Fold(f, Fold(f, initial, BitsOf(bytes)), byte)
  {
    BitsOfNext(bytes, byte);
    FoldConcat(f, initial, BitsOf(bytes), byte);
  }

  lemma FlatSum(wave: Wave, high: bool, a: nat, b: nat)
    ensures wave + Flat(high, a) + Flat(high, b) == wave + Flat(high, a + b)
  {
  }

  lemma FlatSum3(wave: Wave, high: bool, a: nat, b: nat, c: nat)
    ensures wave + Flat(high, a) + Flat(high, b) + Flat(high, c) == wave + Flat(high, a + b + c)
  {
    FlatSum(wave, high, a, b);
    FlatSum(wave, high, a + b, c);
  }

  // ---- Edges ----

  lemma EdgeStep(wave: Wave, high: bool)
    ensures Edges(wave + [high]) == Edges(wave) + (if !high && EndsHigh(wave) then [|wave|] else [])
  {
    var n := |wave|;
    LastEdge(wave + [high], n, wave);
    if n > 0 {
      assert (wave + [high])[n - 1] == wave[n - 1];
    }
  }

  lemma LastEdge(wave: Wave, n: nat, before: Wave)
    requires |wave| == n + 1 && wave[..n] == before
    ensures Edges(wave) == Edges(before) + (if !wave[n] && (n == 0 || wave[n - 1]) then [n] else [])
  {
  }

  lemma FlatStep(wave: Wave, high: bool, time: nat)
    requires time > 0
    ensures wave + Flat(high, time) == wave + Flat(high, time - 1) + [high]
    ensures wave + Flat(high, time) == wave + [high] + Flat(high, time - 1)
  {
  }

  lemma FlatNone(wave: Wave, high: bool)
    ensures wave + Flat(high, 0) == wave
  {
  }

  lemma LastOf(wave: Wave, high: bool, time: nat)
    ensures var w := wave + Flat(high, time);
            if time > 0 then w != [] && w[|w| - 1] == high else w == wave
  {
  }

  /** The line does not fall while it keeps its level. */
  lemma {:induction false} NoEdge(wave: Wave, high: bool, time: nat)
    requires high || !EndsHigh(wave)
    ensures Edges(wave + Flat(high, time)) == Edges(wave)
  {
    if time == 0 {
      FlatNone(wave, high);
    } else {
      NoEdge(wave, high, time - 1);
      FlatStep(wave, high, time);
      EdgeStep(wave + Flat(high, time - 1), high);
      LastOf(wave, high, time - 1);
    }
  }

  lemma LowRun(wave: Wave, low: nat)
    requires EndsHigh(wave) && low > 0
    ensures Edges(wave + Flat(false, low)) == Edges(wave) + [|wave|]
  {
    FlatStep(wave, false, low);
    assert wave + Flat(false, low) == (wave + [false]) + Flat(false, low - 1);
    EdgeStep(wave, false);
    assert !EndsHigh(wave + [false]);
    NoEdge(wave + [false], false, low - 1);
  }

  /** A pulse after a high line makes one falling edge, at its start. */
  lemma PulseEdge(wave: Wave, low: nat, high: nat)
    requires EndsHigh(wave) && low > 0
    ensures Edges(Pulse(wave, low, high)) == Edges(wave) + [|wave|]
  {
    LowRun(wave, low);
    NoEdge(wave + Flat(false, low), true, high);
  }

  lemma PulseEndsHigh(wave: Wave, low: nat, high: nat)
    requires high > 0
    ensures EndsHigh(Pulse(wave, low, high))
  {
    LastOf(wave + Flat(false, low), true, high);
  }

  // ---- Slots ----

  /** The times at which slots of equal length start. */
  function Starts(from: nat, length: nat, count: nat): seq<nat> {
    seq(count, (i: nat) => from + i * length)
  }

  /** A function that appends slots of equal length, each with one falling edge at its start. */
  ghost predicate IsSlot(slot: (Wave, bool) -> Wave, length: nat) {
    forall wave, bit :: EndsHigh(wave) ==> Slotted(wave, slot(wave, bit), length)
  }

  predicate Slotted(wave: Wave, after: Wave, length: nat) {
    |after| == |wave| + length && EndsHigh(after) && Edges(after) == Edges(wave) + [|wave|]
  }

  lemma SlotAt(slot: (Wave, bool) -> Wave, length: nat, wave: Wave, bit: bool)
    requires IsSlot(slot, length) && EndsHigh(wave)
    ensures Slotted(wave, slot(wave, bit), length)
  {
  }

  lemma StartsStep(from: nat, length: nat, count: nat)
    ensures Starts(from, length, count + 1) == Starts(from, length, count) + [from + count * length]
    ensures (count + 1) * length == count * length + length
  {
  }

  lemma {:induction false} SlotsOnTheLine(slot: (Wave, bool) -> Wave, length: nat, wave: Wave, bits: seq<bool>)
    requires IsSlot(slot, length) && EndsHigh(wave)
    ensures var after := Fold(slot, wave, bits);
            && |after| == |wave| + |bits| * length
            && EndsHigh(after)
            && Edges(after) == Edges(wave) + Starts(|wave|, length, |bits|)
  {
    if bits != [] {
      var n := |bits| - 1;
      SlotsOnTheLine(slot, length, wave, bits[..n]);
      var before := Fold(slot, wave, bits[..n]);
      SlotAt(slot, length, before, bits[n]);
      StartsStep(|wave|, length, n);
      assert Edges(wave) + Starts(|wave|, length, n + 1) == Edges(wave) + Starts(|wave|, length, n) + [|before|];
    }
  }

  lemma WriteIsSlot(params: Params)
    requires params.Valid()
    ensures IsSlot(WriteSlot(params), params.writeSlot + params.writeRecovery)
  {
    forall wave, bit | EndsHigh(wave)
      ensures Slotted(wave, WriteSlot(params)(wave, bit), params.writeSlot + params.writeRecovery)
    {
      PulseEdge(wave, LowTime(params, bit), params.writeSlot + params.writeRecovery - LowTime(params, bit));
      PulseEndsHigh(wave, LowTime(params, bit), params.writeSlot + params.writeRecovery - LowTime(params, bit));
    }
  }

  lemma ReadIsSlot(params: Params)
    requires params.Valid()
    ensures IsSlot(ReadSlot(params), params.readSlot + params.readRecovery)
  {
    forall wave, bit | EndsHigh(wave)
      ensures Slotted(wave, ReadSlot(params)(wave, bit), params.readSlot + params.readRecovery)
    {
      PulseEdge(wave, params.readInit, params.readSlot - params.readInit + params.readRecovery);
      PulseEndsHigh(wave, params.readInit, params.readSlot - params.readInit + params.readRecovery);
    }
  }

  lemma ReadsOnTheLine(params: Params, wave: Wave, bits: seq<bool>)
    requires params.Valid() && EndsHigh(wave)
    ensures EndsHigh(Fold(ReadSlot(params), wave, bits))
    ensures |Edges(Fold(ReadSlot(params), wave, bits))| == |Edges(wave)| + |bits|
  {
    ReadIsSlot(params);
    SlotsOnTheLine(ReadSlot(params), params.readSlot + params.readRecovery, wave, bits);
  }

  // ---- What a slave decodes ----

  /** A slave that samples the line `s` microseconds after each falling edge; the idle line is high. */
  function Decode(wave: Wave, s: nat): seq<bool> {
    Samples(wave, Edges(wave), s)
  }

  function Samples(wave: Wave, edges: seq<nat>, s: nat): seq<bool> {
    seq(|edges|, i requires 0 <= i < |edges| => edges[i] + s >= |wave| || wave[edges[i] + s])
  }

  /** What the slave reads in the slot of a bit, `s` microseconds after its start. */
  function Shown(params: Params, s: nat): bool -> bool
    requires params.Valid()
  {
    bit => s >= LowTime(params, bit)
  }

  function Map(f: bool -> bool, bits: seq<bool>): seq<bool> {
    seq(|bits|, i requires 0 <= i < |bits| => f(bits[i]))
  }

  /** Every slot is long enough for its sample. */
  ghost predicate Settled(wave: Wave, s: nat) {
    EndsHigh(wave) && forall e :: e in Edges(wave) ==> e + s < |wave|
  }

  predicate Extends(wave: Wave, after: Wave, s: nat, shown: bool) {
    |after| > |wave| + s && after[..|wave|] == wave && after[|wave| + s] == shown
  }

  lemma SampleStep(wave: Wave, after: Wave, edges: seq<nat>, s: nat, shown: bool)
    requires Extends(wave, after, s, shown)
    requires forall e :: e in edges ==> e + s < |wave|
    ensures Samples(after, edges + [|wave|], s) == Samples(wave, edges, s) + [shown]
  {
    forall i | 0 <= i < |edges| ensures Samples(after, edges + [|wave|], s)[i] == Samples(wave, edges, s)[i] {
      assert edges[i] in edges;
      assert after[edges[i] + s] == after[..|wave|][edges[i] + s];
    }
  }

  lemma DecodeStep(wave: Wave, after: Wave, length: nat, s: nat, shown: bool)
    requires Settled(wave, s) && Slotted(wave, after, length) && Extends(wave, after, s, shown)
    ensures Decode(after, s) == Decode(wave, s) + [shown] && Settled(after, s)
  {
    var edges := Edges(wave);
    SampleStep(wave, after, edges, s, shown);
  }

  lemma MapStep(f: bool -> bool, bits: seq<bool>, before: seq<bool>)
    requires bits != []
    ensures before + Map(f, bits) == before + Map(f, bits[..|bits| - 1]) + [f(bits[|bits| - 1])]
  {
  }

  lemma {:induction false} SlotsDecode(slot: (Wave, bool) -> Wave, length: nat, shown: bool -> bool, wave: Wave,
                                           bits: seq<bool>, s: nat)
    requires IsSlot(slot, length) && Settled(wave, s)
    requires forall w, bit :: Extends(w, slot(w, bit), s, shown(bit))
    ensures Decode(Fold(slot, wave, bits), s) == Decode(wave, s) + Map(shown, bits)
    ensures Settled(Fold(slot, wave, bits), s)
  {
    if bits != [] {
      var n := |bits| - 1;
      SlotsDecode(slot, length, shown, wave, bits[..n], s);
      var before := Fold(slot, wave, bits[..n]);
      SlotAt(slot, length, before, bits[n]);
      DecodeStep(before, slot(before, bits[n]), length, s, shown(bits[n]));
      MapStep(shown, bits, Decode(wave, s));
    } else {
      assert Decode(wave, s) + Map(shown, bits) == Decode(wave, s);
    }
  }

  lemma SlotShows(params: Params, wave: Wave, bit: bool, s: nat)
    requires params.Valid() && s < params.writeSlot + params.writeRecovery
    ensures Extends(wave, WriteSlot(params)(wave, bit), s, Shown(params, s)(bit))
  {
    var low := LowTime(params, bit);
    var after := Pulse(wave, low, params.writeSlot + params.writeRecovery - low);
    assert after[|wave| + s] == (s >= low);
  }

  /** What a sampling slave reads on a settled line: each bit as it shows at the time of the sample. */
  lemma DecodesAsShown(params: Params, wave: Wave, bits: seq<bool>, s: nat)
    requires params.Valid() && s < params.writeSlot + params.writeRecovery && Settled(wave, s)
    ensures Decode(Fold(WriteSlot(params), wave, bits), s) == Decode(wave, s) + Map(Shown(params, s), bits)
    ensures Settled(Fold(WriteSlot(params), wave, bits), s)
  {
    WriteIsSlot(params);
    forall w, bit ensures Extends(w, WriteSlot(params)(w, bit), s, Shown(params, s)(bit)) {
      SlotShows(params, w, bit, s);
    }
    SlotsDecode(WriteSlot(params), params.writeSlot + params.writeRecovery, Shown(params, s), wave, bits, s);
  }

  /** The line is low for as long as a read slot begins with, and high for the rest of it. */
  lemma ReadSlotShape(params: Params, wave: Wave, bit: bool, t: nat)
    requires params.Valid() && t < params.readSlot + params.readRecovery
    ensures |ReadSlot(params)(wave, bit)| == |wave| + params.readSlot + params.readRecovery
    ensures ReadSlot(params)(wave, bit)[..|wave|] == wave
    ensures ReadSlot(params)(wave, bit)[|wave| + t] == (t >= params.readInit)
  {
    PulseShape(wave, params.readInit, params.readSlot - params.readInit + params.readRecovery, t);
  }

  lemma PulseShape(wave: Wave, low: nat, high: nat, t: nat)
    requires t < low + high
    ensures |Pulse(wave, low, high)| == |wave| + low + high
    ensures Pulse(wave, low, high)[..|wave|] == wave && Pulse(wave, low, high)[|wave| + t] == (t >= low)
  {
    var pulse := Pulse(wave, low, high);
    assert pulse[|wave| + t] == if t < low then Flat(false, low)[t] else Flat(true, high)[t - low];
  }

  /** The line is low for all of the slot of a written 0, and for a while at the beginning of that of a written 1. */
  lemma WriteSlotShape(params: Params, wave: Wave, bit: bool, t: nat)
    requires params.Valid() && t < params.writeSlot + params.writeRecovery
    ensures |WriteSlot(params)(wave, bit)| == |wave| + params.writeSlot + params.writeRecovery
    ensures WriteSlot(params)(wave, bit)[..|wave|] == wave
    ensures WriteSlot(params)(wave, bit)[|wave| + t] == if bit then t >= params.writeBit else t >= params.writeSlot
  {
    PulseShape(wave, LowTime(params, bit), params.writeSlot + params.writeRecovery - LowTime(params, bit), t);
  }

  /** A slave that samples read slots while the line is released reads nothing but ones. */
  lemma ReadSlotsShowOnes(params: Params, wave: Wave, bits: seq<bool>, s: nat)
    requires params.Valid() && params.readInit <= s < params.readSlot + params.readRecovery && Settled(wave, s)
    ensures Decode(Fold(ReadSlot(params), wave, bits), s) == Decode(wave, s) + seq(|bits|, _ => true)
    ensures Settled(Fold(ReadSlot(params), wave, bits), s)
  {
    ReadIsSlot(params);
    var shown := (_: bool) => true;
    forall w, bit ensures Extends(w, ReadSlot(params)(w, bit), s, shown(bit)) {
      ReadSlotShape(params, w, bit, s);
    }
    SlotsDecode(ReadSlot(params), params.readSlot + params.readRecovery, shown, wave, bits, s);
    assert Map(shown, bits) == seq(|bits|, _ => true);
  }

  /** Reading n bits takes the same time whatever they are. */
  lemma ReadTime(params: Params, wave: Wave, bits: seq<bool>)
    requires params.Valid() && EndsHigh(wave)
    ensures |Fold(ReadSlot(params), wave, bits)| == |wave| + |bits| * (params.readSlot + params.readRecovery)
  {
    ReadIsSlot(params);
    SlotsOnTheLine(ReadSlot(params), params.readSlot + params.readRecovery, wave, bits);
  }

  /** The line decodes these bytes, after whatever was on it before. */
  ghost predicate Decodes(params: Params, wave: Wave, bytes: seq<Byte>, s: nat)
    requires params.Valid()
  {
    Decode(Fold(WriteSlot(params), wave, BitsOf(bytes)), s) == Decode(wave, s) + BitsOf(bytes)
  }

  /** A slave that samples once within every slot decodes all written bytes, whatever they are and whatever was
      decoded before, exactly when it samples neither before the end of the low pulse of a 1 nor at or after the
      end of the slot. */
  lemma DecodesExactly(params: Params, s: nat)
    requires params.Valid() && s < params.writeSlot + params.writeRecovery
    ensures (forall wave, bytes :: Settled(wave, s) ==> Decodes(params, wave, bytes, s))
       <==> params.writeBit <= s < params.writeSlot
  {
    if params.writeBit <= s < params.writeSlot {
      forall wave, bytes | Settled(wave, s) ensures Decodes(params, wave, bytes, s) {
        DecodesAsShown(params, wave, BitsOf(bytes), s);
        assert Map(Shown(params, s), BitsOf(bytes)) == BitsOf(bytes);
      }
    } else {
      var bytes := [if s < params.writeBit then Mask(0) else ZERO];
      DecodesAsShown(params, [], BitsOf(bytes), s);
      assert BitsOf(bytes)[0] == (s < params.writeBit);
      assert Map(Shown(params, s), BitsOf(bytes))[0] != BitsOf(bytes)[0];
      assert Decode([], s) + BitsOf(bytes) == BitsOf(bytes);
      assert Decode([], s) + Map(Shown(params, s), BitsOf(bytes)) == Map(Shown(params, s), BitsOf(bytes));
      assert Settled([], s) && !Decodes(params, [], bytes, s);
    }
  }

  /** Writing n bytes takes the same time whatever they hold. */
  lemma WriteTime(params: Params, wave: Wave, bytes: seq<Byte>)
    requires params.Valid() && EndsHigh(wave)
    ensures |Fold(WriteSlot(params), wave, BitsOf(bytes))|
         == |wave| + 8 * |bytes| * (params.writeSlot + params.writeRecovery)
  {
    WriteIsSlot(params);
    SlotsOnTheLine(WriteSlot(params), params.writeSlot + params.writeRecovery, wave, BitsOf(bytes));
  }

  /** The timing of the DS18B20 store meets the asserted relations, and a slave may sample 15 microseconds after
      the edge; a byte takes 488 microseconds. */
  lemma Ds18b20Timing(bytes: seq<Byte>)
    ensures DS18B20_PARAMS.Valid()
    ensures Decode(Fold(WriteSlot(DS18B20_PARAMS), [], BitsOf(bytes)), 15) == BitsOf(bytes)
    ensures |Fold(WriteSlot(DS18B20_PARAMS), [], BitsOf(bytes))| == 488 * |bytes|
  {
    DecodesExactly(DS18B20_PARAMS, 15);
    assert Settled([], 15) && Decodes(DS18B20_PARAMS, [], bytes, 15);
    assert Decode([], 15) + BitsOf(bytes) == BitsOf(bytes);
    WriteTime(DS18B20_PARAMS, [], bytes);
  }

  /** Reading gives what the slave sends, whatever that is, exactly when the slave holds the line
      until after the master samples it. */
  lemma ReadsExactly(params: Params, hold: nat)
    ensures (forall answer, from, count: nat ::
               Take(Sampled(params, Sending(answer, hold)), from, count) == Take(answer, from, count))
       <==> params.readInit + params.readRc < hold
  {
    if hold <= params.readInit + params.readRc {
      var answer: nat -> bool := (k: nat) => false;
      assert Take(Sampled(params, Sending(answer, hold)), 0, 1)[0] != Take(answer, 0, 1)[0];
    }
  }

  /** Bytes that a slave decoded and sends back are read as they were written. */
  lemma RoundTrip(params: Params, hold: nat, s: nat, sent: seq<Byte>, answer: nat -> bool, from: nat,
                  received: seq<Byte>)
    requires params.Valid() && params.writeBit <= s < params.writeSlot && params.readInit + params.readRc < hold
    requires Take(answer, from, 8 * |sent|) == Decode(Fold(WriteSlot(params), [], BitsOf(sent)), s)
    requires |received| == |sent|
    requires BitsOf(received) == Take(Sampled(params, Sending(answer, hold)), from, 8 * |received|)
    ensures received == sent
  {
    DecodesExactly(params, s);
    assert Settled([], s) && Decodes(params, [], sent, s);
    assert Decode([], s) + BitsOf(sent) == BitsOf(sent);
    ReadsExactly(params, hold);
    BitsOfInjective(received, sent);
  }
}
