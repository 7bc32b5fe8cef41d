/** The configuration of a DS18B20 sensor: in the sensor object, in storage and in the device. */
module Ds18b20Sensor {
  import opened Bits
  import opened OneWireBus
  import opened Options
  import opened Status
  import opened Storage
  import Crc
  import Scratchpad

  datatype Resolution = NoResolution | Bit12 | Bit11 | Bit10 | Bit9

  type Rom = rom: seq<Byte> | |rom| == 8 witness [ZERO, ZERO, ZERO, ZERO, ZERO, ZERO, ZERO, ZERO]

  datatype Configuration = Configuration(rom: Rom, resolution: Resolution)

  /** What a configuration is constructed with: no code and no resolution. */
  const DEFAULT := Configuration([ZERO, ZERO, ZERO, ZERO, ZERO, ZERO, ZERO, ZERO], NoResolution)

  /** The configuration bits (R0, R1) of the device. */
  function Proto(resolution: Resolution): (bool, bool) {
    match resolution
    case Bit12 => (true, true)
    case Bit11 => (false, true)
    case Bit10 => (true, false)
    case Bit9 => (false, false)
    case NoResolution => (false, false)
  }

  /** The configuration in the sensor object, whether it is assigned to a bus, and what is stored. */
  datatype Snapshot = Snapshot(configured: bool, configuration: Configuration, stored: Option<Configuration>)

  /** What happens on the bus: the statuses of writing and reading back the scratchpad, and the bytes read. */
  datatype Exchange = Exchange(written: StatusCode, readBack: StatusCode, pad: seq<Byte>)

  /** The device has taken over the resolution. */
  predicate Confirms(x: Exchange, resolution: Resolution) {
    && x.written == OK && x.readBack == OK
    && |x.pad| == 9 && Crc.Valid(x.pad) && (x.pad[4][5], x.pad[4][6]) == Proto(resolution)
  }

  /** How setting the resolution of the device ends. */
  function DeviceEnds(x: Exchange, resolution: Resolution): StatusCode {
    if x.written != OK then x.written
    else if x.readBack != OK then x.readBack
    else if !Confirms(x, resolution) then InvalidState
    else OK
  }

  /** How storing the configuration ends. It is not written again if it is stored already. */
  function StoreEnds(stored: Option<Configuration>, c: Configuration, health: Health)
    : (StatusCode, Option<Configuration>)
  {
    if !health.readable then (Error, stored)
    else if UnwrapOr(stored, DEFAULT) == c then (OK, stored)
    else if !health.writable then (Error, stored)
    else (OK, Some(c))
  }

  /** How writing a configuration ends, and the state after it. */
  function WriteEnds(s: Snapshot, c: Configuration, x: Exchange, health: Health): (StatusCode, Snapshot) {
    if !Crc.Valid(c.rom) then (InvalidArg, s)
    else if DeviceEnds(x, c.resolution) != OK then (DeviceEnds(x, c.resolution), s)
    else
      var (status, stored) := StoreEnds(s.stored, c, health);
      if status != OK then (status, s) else (OK, Snapshot(true, c, stored))
  }

  function EraseEnds(s: Snapshot, health: Health): (StatusCode, Snapshot) {
    if !health.erasable then (Error, s)
    else if s.stored.None? then (NoData, s)
    else (OK, Snapshot(false, DEFAULT, None))
  }

  /** Adding a sensor to a bus loads its configuration, if there is one. */
  function AddEnds(s: Snapshot, x: Exchange, health: Health): Snapshot {
    if s.configured then WriteEnds(s, s.configuration, x, health).1
    else if !health.readable || s.stored.None? then s
    else WriteEnds(s, s.stored.value, x, health).1
  }

  /** The configuration register. */
  function Register(resolution: Resolution): Byte {
    ZERO[5 := Proto(resolution).0][6 := Proto(resolution).1]
  }

  /** What crosses the bus when a resolution is set: the register is written to the device with the ROM code of the
      configuration, and its scratchpad is read back. */
  ghost predicate Crosses(params: Params, slave: nat -> nat, before: Wave, c: Configuration, x: Exchange, after: Wave)
    requires params.Valid()
  {
    var address, register := [Scratchpad.MATCH_ROM] + c.rom, [ZERO, ZERO, Register(c.resolution)];
    var wrote := Scratchpad.Frame(params, before, address + [Scratchpad.WRITE_SCRATCHPAD] + register);
    var asked := Scratchpad.Frame(params, wrote, address + [Scratchpad.READ_SCRATCHPAD]);
    && x.written == (if Scratchpad.Present(params, slave, before) then OK else Error)
    && (x.written == OK ==> x.readBack == if Scratchpad.Present(params, slave, wrote) then OK else Error)
    && (if x.written != OK then after == Scratchpad.Frame(params, before, [])
        else if x.readBack != OK then after == Scratchpad.Frame(params, wrote, [])
        else HasRead(params, slave, asked, after, BitsOf(x.pad)))
  }

  class Sensor {
    const id: string
    const storage: Cell<Configuration>
    var bus: Bus?
    var configuration: Configuration

    constructor (id: string, storage: Cell<Configuration>)
      ensures this.id == id && this.storage == storage
      ensures State() == Snapshot(false, DEFAULT, storage.stored)
    {
      this.id, this.storage := id, storage;
      bus, configuration := null, DEFAULT;
    }

    function State(): Snapshot
      reads this, storage
    {
      Snapshot(bus != null, configuration, storage.stored)
    }

    method ReadConfiguration(initial: Configuration) returns (status: StatusCode, value: Configuration)
      ensures status == if bus != null then OK else if !storage.health.readable then Error
                        else if storage.stored.None? then NoData else OK
      ensures status == OK ==> value == if bus != null then configuration else storage.stored.value
    {
      if bus != null {
        return OK, configuration;
      }
      status, value := storage.Read(initial);
    }

    /** Writes the resolution to the device and checks it. The exchange is whatever the bus does. */
    method WriteDevice(target: Bus, c: Configuration) returns (status: StatusCode, ghost x: Exchange)
      requires target.Valid()
      modifies target
      ensures status == DeviceEnds(x, c.resolution)
      ensures target.Valid()
      ensures Crosses(target.params, target.slave, old(target.wave), c, x, target.wave)
    {
      var (r0, r1) := Proto(c.resolution);
      var rom := new Byte[8](i requires 0 <= i < 8 => c.rom[i]);
      var pad := new Byte[9](_ => ZERO);
      pad[4] := ZERO[5 := r0][6 := r1];
      assert rom[..] == c.rom && pad[2..5] == [ZERO, ZERO, Register(c.resolution)];
      status := Scratchpad.Write(target, rom, pad);
      x := Exchange(status, OK, []);
      if status != OK {
        return;
      }
      status := Scratchpad.Read(target, rom, pad);
      x := Exchange(OK, status, pad[..]);
      if status != OK {
        return;
      }
      var valid := Scratchpad.Valid(pad);
      if !valid {
        return InvalidState, x;
      }
      if pad[4][5] != r0 || pad[4][6] != r1 {
        return InvalidState, x;
      }
      status := OK;
    }

    method Persist(c: Configuration) returns (status: StatusCode)
      modifies storage`stored
      ensures (status, storage.stored) == StoreEnds(old(storage.stored), c, storage.health)
    {
      var code, persisted := storage.Read(DEFAULT);
      if code != OK && code != NoData {
        return code;
      }
      if persisted != c {
        status := storage.Write(c);
        if status != OK {
          return;
        }
      }
      status := OK;
    }

    method WriteConfiguration(target: Bus, c: Configuration) returns (status: StatusCode, ghost x: Exchange)
      requires target.Valid()
      modifies this, storage`stored, target
      ensures (status, State()) == WriteEnds(old(State()), c, x, storage.health)
      ensures bus == if status == OK then target else old(bus)
      ensures target.Valid()
    {
      x := Exchange(OK, OK, []);
      var crc := Crc.Crc8(c.rom[..7], ZERO, Crc.DALLAS_POLYNOMIAL, Crc.LSB);
      if crc != c.rom[7] {
        return InvalidArg, x;
      }
      status, x := WriteDevice(target, c);
      if status != OK {
        return;
      }
      status := Persist(c);
      if status != OK {
        return;
      }
      bus := target;
      configuration := c;
    }

    method EraseConfiguration(initial: Configuration) returns (status: StatusCode, erased: Configuration)
      modifies this, storage`stored
      ensures (status, State()) == EraseEnds(old(State()), storage.health)
      ensures erased == if status == OK then old(configuration) else initial
    {
      status := storage.Erase();
      if status != OK {
        return status, initial;
      }
      erased := configuration;
      bus := null;
      configuration := DEFAULT;
    }
  }

  /** The sensors on one bus. */
  class Node {
    const bus: Bus
    var sensors: seq<Sensor>

    constructor (bus: Bus)
      ensures this.bus == bus && sensors == []
    {
      this.bus := bus;
      sensors := [];
    }

    /** Sensors have names of their own; the configuration of a new one is loaded, if there is one. */
    method Add(sensor: Sensor) returns (status: StatusCode, ghost x: Exchange)
      requires bus.Valid()
      modifies this, sensor, sensor.storage`stored, bus
      ensures status == if exists s :: s in old(sensors) && s.id == sensor.id then InvalidArg else OK
      ensures sensors == if status == OK then old(sensors) + [sensor] else old(sensors)
      ensures sensor.State()
           == if status == OK then AddEnds(old(sensor.State()), x, sensor.storage.health) else old(sensor.State())
      ensures bus.Valid()
    {
      x := Exchange(OK, OK, []);
      for i := 0 to |sensors|
        invariant forall j :: 0 <= j < i ==> sensors[j].id != sensor.id
      {
        if sensors[i].id == sensor.id {
          return InvalidArg, x;
        }
      }
      var code, c := sensor.ReadConfiguration(DEFAULT);
      if code == OK {
        code, x := sensor.WriteConfiguration(bus, c);
      }
      sensors := sensors + [sensor];
      status := OK;
    }
  }

  // ---- When a configuration is taken ----

  /** The code of the resolution in bits 5 and 6 of the configuration register: 0 for 9 bits up to 3 for 12 bits. */
  function ResolutionCode(resolution: Resolution): nat {
    match resolution
    case Bit12 => 3
    case Bit11 => 2
    case Bit10 => 1
    case Bit9 => 0
    case NoResolution => 0
  }

  /** The bits of a register count as a number. */
  lemma RegisterValue(register: Byte)
    ensures Value(register[5..7]) == Digit(register[5]) + 2 * Digit(register[6])
  {
    var two, one := register[5..7], register[6..7];
    assert two[1..] == one && one[1..] == [];
    assert Value(one) == Digit(register[6]);
    assert Value(two) == Digit(two[0]) + 2 * Value(one);
  }

  /** The register that is written for a resolution has its code in bits 5 and 6 and zeros elsewhere, so it is 00h, 20h,
      40h or 60h for 9, 10, 11 or 12 bits. */
  lemma RegisterHasCode(resolution: Resolution)
    ensures Value(Register(resolution)[5..7]) == ResolutionCode(resolution)
    ensures Value(Register(resolution)) == 0x20 * ResolutionCode(resolution)
  {
    var register := Register(resolution);
    RegisterValue(register);
    ByteValue(register);
    CodeOfBits(resolution);
    RegisterBits(Proto(resolution).0, Proto(resolution).1, register);
  }

  lemma RegisterBits(r0: bool, r1: bool, register: Byte)
    requires register == ZERO[5 := r0][6 := r1]
    ensures register[5] == r0 && register[6] == r1
    ensures !register[0] && !register[1] && !register[2] && !register[3] && !register[4] && !register[7]
  {
  }

  lemma CodeOfBits(resolution: Resolution)
    ensures Digit(Proto(resolution).0) + 2 * Digit(Proto(resolution).1) == ResolutionCode(resolution)
  {
  }

  /** The device was written and has answered with a scratchpad whose CRC fits and whose register has the code of the
      resolution. */
  predicate Accepted(x: Exchange, resolution: Resolution) {
    && x.written == OK && x.readBack == OK && |x.pad| == 9
    && Crc.Register(Crc.LSB, Crc.DALLAS_POLYNOMIAL, ZERO, x.pad[..8]) == x.pad[8]
    && Value(x.pad[4][5..7]) == ResolutionCode(resolution)
  }

  /** The last byte of the ROM code is the CRC of the seven before it. */
  predicate Genuine(rom: Rom) {
    Crc.Register(Crc.LSB, Crc.DALLAS_POLYNOMIAL, ZERO, rom[..7]) == rom[7]
  }

  lemma ConfirmsIsAccepted(x: Exchange, resolution: Resolution)
    ensures Confirms(x, resolution) <==> Accepted(x, resolution)
  {
    if |x.pad| == 9 {
      RegisterValue(x.pad[4]);
    }
  }

  /** The storage has the configuration, or nothing although it is the default one. */
  predicate Present(stored: Option<Configuration>, c: Configuration) {
    stored == Some(c) || (stored == None && c == DEFAULT)
  }

  /** A configuration is taken if and only if its ROM code is genuine, the device accepts it, and the storage can be
      read and has it already or can be written; then it is in the object and, if the storage did not have it, stored.
      Otherwise nothing changes, and the status tells what failed first. */
  lemma WriteTakes(s: Snapshot, c: Configuration, x: Exchange, health: Health)
    ensures var (status, s') := WriteEnds(s, c, x, health);
            && (status == OK <==>
                  && Genuine(c.rom) && Accepted(x, c.resolution)
                  && health.readable && (Present(s.stored, c) || health.writable))
            && (status == OK ==> s' == Snapshot(true, c, if Present(s.stored, c) then s.stored else Some(c)))
            && (status != OK ==> s' == s && status == WhyNot(c, x))
  {
    ConfirmsIsAccepted(x, c.resolution);
  }

  /** What the status tells when a configuration is not taken. */
  function WhyNot(c: Configuration, x: Exchange): StatusCode {
    if !Genuine(c.rom) then InvalidArg
    else if x.written != OK then x.written
    else if x.readBack != OK then x.readBack
    else if !Accepted(x, c.resolution) then InvalidState
    else Error
  }

  /** What a successful write has stored, but for the default configuration. */
  lemma TakenIsStored(s: Snapshot, c: Configuration, x: Exchange, health: Health)
    requires WriteEnds(s, c, x, health).0 == OK && c != DEFAULT
    ensures WriteEnds(s, c, x, health).1 == Snapshot(true, c, Some(c))
  {
    WriteTakes(s, c, x, health);
  }

  /** How a sensor comes out of a reboot: with the stored configuration if there is one, the storage can be read and the
      device accepts it, and without a configuration otherwise; what is stored never changes. */
  lemma RebootTells(s: Snapshot, x: Exchange, health: Health)
    ensures var s' := Next(s, Reboot(x, health));
            && s'.stored == s.stored
            && (s'.configured <==>
                  && s.stored.Some? && health.readable
                  && Genuine(s.stored.value.rom) && Accepted(x, s.stored.value.resolution))
            && s'.configuration == if s'.configured then s.stored.value else DEFAULT
  {
    if s.stored.Some? {
      WriteTakes(Snapshot(false, DEFAULT, s.stored), s.stored.value, x, health);
    }
  }

  /** Adding a sensor that has a configuration writes it again. */
  lemma AddWritesAgain(s: Snapshot, x: Exchange, health: Health)
    requires s.configured
    ensures var s' := AddEnds(s, x, health);
            var c := s.configuration;
            var taken := Genuine(c.rom) && Accepted(x, c.resolution) && health.readable;
            && s'.configured && s'.configuration == c
            && s'.stored == if taken && health.writable && !Present(s.stored, c) then Some(c) else s.stored
  {
    WriteTakes(s, s.configuration, x, health);
  }

  /** Erasing succeeds if and only if the storage can be erased and holds something. Then nothing is stored and the
      sensor has no configuration, and no reboot gives it one; otherwise nothing changes. */
  lemma EraseTells(s: Snapshot, health: Health, x: Exchange, later: Health)
    ensures var (status, s') := EraseEnds(s, health);
            && (status == OK <==> health.erasable && s.stored.Some?)
            && (status == OK ==> s' == Snapshot(false, DEFAULT, None) && Next(s', Reboot(x, later)) == s')
            && (status != OK ==> s' == s && status == if health.erasable then NoData else Error)
  {
    RebootTells(EraseEnds(s, health).1, x, later);
  }

  // ---- What the device hears ----

  /** Match ROM [55h] and the code, Write Scratchpad [4Eh], two zeros and the register of the resolution. */
  predicate SetsResolution(bytes: seq<Byte>, c: Configuration) {
    && |bytes| == 13 && Value(bytes[0]) == 0x55 && bytes[1..9] == c.rom && Value(bytes[9]) == 0x4E
    && Value(bytes[10]) == Value(bytes[11]) == 0 && Value(bytes[12]) == 0x20 * ResolutionCode(c.resolution)
  }

  /** Match ROM [55h] and the code, and Read Scratchpad [BEh]. */
  predicate AsksBack(bytes: seq<Byte>, c: Configuration) {
    |bytes| == 10 && Value(bytes[0]) == 0x55 && bytes[1..9] == c.rom && Value(bytes[9]) == 0xBE
  }

  function Setting(c: Configuration): seq<Byte> {
    [Scratchpad.MATCH_ROM] + c.rom + [Scratchpad.WRITE_SCRATCHPAD] + [ZERO, ZERO, Register(c.resolution)]
  }

  function Asking(c: Configuration): seq<Byte> {
    [Scratchpad.MATCH_ROM] + c.rom + [Scratchpad.READ_SCRATCHPAD]
  }

  lemma SettingIs(c: Configuration)
    ensures SetsResolution(Setting(c), c)
  {
    Scratchpad.MatchRomByte();
    Scratchpad.WriteByte();
    RegisterHasCode(c.resolution);
    ByteValue(ZERO);
    var bytes := Setting(c);
    assert bytes[1..9] == c.rom && bytes[9] == Scratchpad.WRITE_SCRATCHPAD;
    assert bytes[10] == bytes[11] == ZERO && bytes[12] == Register(c.resolution);
  }

  lemma AskingIs(c: Configuration)
    ensures AsksBack(Asking(c), c)
  {
    Scratchpad.MatchRomByte();
    Scratchpad.ReadByte();
    assert Asking(c)[1..9] == c.rom;
  }

  /** What a slave that samples every slot reads while a resolution is set, after whatever it had read before: the reset
      pulse, and if somebody answers it the setting of the resolution and another reset pulse, and if somebody answers
      that the question for it and a one in each of 72 read slots. */
  lemma DeviceHears(params: Params, slave: nat -> nat, before: Wave, c: Configuration, x: Exchange, after: Wave, s: nat)
    returns (setting: seq<Byte>, asking: seq<Byte>)
    requires params.Valid() && params.writeBit <= s < params.writeSlot && s < params.resetPulse
    requires params.readInit <= s < params.readSlot + params.readRecovery && Settled(before, s)
    requires Crosses(params, slave, before, c, x, after) && (x.readBack == OK ==> |x.pad| == 9)
    ensures SetsResolution(setting, c) && AsksBack(asking, c)
    ensures Decode(after, s) == Heard(Decode(before, s), x, setting, asking)
  {
    SettingIs(c);
    AskingIs(c);
    setting, asking := Setting(c), Asking(c);
    if x.written != OK {
      OnlyReset(params, before, s);
    } else {
      var wrote := Scratchpad.Frame(params, before, setting);
      Scratchpad.FrameDecodes(params, before, setting, s);
      if x.readBack != OK {
        OnlyReset(params, wrote, s);
      } else {
        ReadBackHears(params, slave, wrote, asking, x.pad, after, s);
      }
    }
  }

  /** What is heard after `earlier`. */
  function Heard(earlier: seq<bool>, x: Exchange, setting: seq<Byte>, asking: seq<Byte>): seq<bool> {
    if x.written != OK then earlier + [false]
    else if x.readBack != OK then earlier + [false] + BitsOf(setting) + [false]
    else earlier + [false] + BitsOf(setting) + [false] + BitsOf(asking) + seq(72, _ => true)
  }

  lemma OnlyReset(params: Params, wave: Wave, s: nat)
    requires params.Valid() && params.writeBit <= s < params.writeSlot && s < params.resetPulse && Settled(wave, s)
    ensures Decode(Scratchpad.Frame(params, wave, []), s) == Decode(wave, s) + [false]
  {
    Scratchpad.FrameDecodes(params, wave, [], s);
    assert BitsOf([]) == [];
    assert Decode(wave, s) + [false] + [] == Decode(wave, s) + [false];
  }

  lemma ReadBackHears(params: Params, slave: nat -> nat, wrote: Wave, asking: seq<Byte>, pad: seq<Byte>, after: Wave,
                      s: nat)
    requires params.Valid() && params.writeBit <= s < params.writeSlot && s < params.resetPulse
    requires params.readInit <= s < params.readSlot + params.readRecovery && Settled(wrote, s) && |pad| == 9
    requires HasRead(params, slave, Scratchpad.Frame(params, wrote, asking), after, BitsOf(pad))
    ensures Decode(after, s) == Decode(wrote, s) + [false] + BitsOf(asking) + seq(72, _ => true)
  {
    Scratchpad.FrameDecodes(params, wrote, asking, s);
    ReadSlotsShowOnes(params, Scratchpad.Frame(params, wrote, asking), BitsOf(pad), s);
  }

  // ---- The object and the storage agree ----

  /** A configured sensor has the stored configuration, with a valid ROM code. */
  predicate Agrees(s: Snapshot) {
    s.configured ==> s.stored == Some(s.configuration) && Crc.Valid(s.configuration.rom)
  }

  /** A successful write leaves object and storage in agreement, and the device confirmed, unless the written
      configuration is the default one and nothing is stored: then the default is taken for what is stored. */
  lemma WriteAgrees(s: Snapshot, c: Configuration, x: Exchange, health: Health)
    requires WriteEnds(s, c, x, health).0 == OK
    ensures var s' := WriteEnds(s, c, x, health).1;
            && s'.configured && s'.configuration == c && Crc.Valid(c.rom) && Confirms(x, c.resolution)
            && (Agrees(s') <==> s.stored.Some? || c != DEFAULT)
  {
  }

  /** The exception is real: the default configuration passes the check of its ROM code. */
  lemma DefaultIsValid()
    ensures Crc.Valid(DEFAULT.rom)
  {
    ZerosRegister(DEFAULT.rom[..7]);
  }

  lemma {:induction false} ZerosRegister(message: seq<Byte>)
    requires forall i :: 0 <= i < |message| ==> message[i] == ZERO
    ensures Crc.Register(Crc.LSB, Crc.DALLAS_POLYNOMIAL, ZERO, message) == ZERO
  {
    if message != [] {
      ZerosRegister(message[..|message| - 1]);
      assert Xor(ZERO, ZERO) == ZERO;
      Crc.ClockZero(Crc.LSB, Crc.DALLAS_POLYNOMIAL, ZERO);
    }
  }

  /** With the default configuration the sensor counts as configured although nothing is stored: a reboot forgets it,
      and it cannot be erased. */
  lemma DefaultIsNotStored(x: Exchange, health: Health, again: Exchange)
    requires health.readable && Confirms(x, NoResolution)
    ensures var (status, s) := WriteEnds(Snapshot(false, DEFAULT, None), DEFAULT, x, health);
            && status == OK && s.configured && s.stored == None && !Agrees(s)
            && !AddEnds(Snapshot(false, DEFAULT, s.stored), again, health).configured
            && EraseEnds(s, health).0 != OK && EraseEnds(s, health).1 == s
  {
    DefaultIsValid();
  }

  /** There is such an exchange: nine bytes of zeros are a scratchpad with a valid CRC and the lowest resolution. */
  lemma ZerosConfirm() returns (x: Exchange)
    ensures Confirms(x, NoResolution)
    ensures x.pad == seq(9, _ => ZERO)
  {
    x := Exchange(OK, OK, seq(9, _ => ZERO));
    ZerosRegister(x.pad[..8]);
  }

  // ---- Histories ----

  /** A reboot makes a new object and adds it to its bus. */
  datatype Event =
    | Write(configuration: Configuration, x: Exchange, health: Health)
    | Erase(health: Health)
    | Reboot(x: Exchange, health: Health)

  function Next(s: Snapshot, e: Event): Snapshot {
    match e
    case Write(c, x, health) => WriteEnds(s, c, x, health).1
    case Erase(health) => EraseEnds(s, health).1
    case Reboot(x, health) => AddEnds(Snapshot(false, DEFAULT, s.stored), x, health)
  }

  function Run(s: Snapshot, events: seq<Event>): Snapshot
    decreases |events|
  {
    if events == [] then s else Run(Next(s, events[0]), events[1..])
  }

  predicate Resolved(events: seq<Event>) {
    forall i :: 0 <= i < |events| && events[i].Write? ==> events[i].configuration.resolution != NoResolution
  }

  lemma NextAgrees(s: Snapshot, e: Event)
    requires Agrees(s) && (e.Write? ==> e.configuration.resolution != NoResolution)
    ensures Agrees(Next(s, e))
  {
  }

  /** In every history of writes, erasures and reboots, with any failures of the bus and the storage, in which the
      written configurations have a resolution: a configured sensor has the stored configuration. */
  lemma {:induction false} RunAgrees(s: Snapshot, events: seq<Event>)
    requires Agrees(s) && Resolved(events)
    ensures Agrees(Run(s, events))
    decreases |events|
  {
    if events != [] {
      NextAgrees(s, events[0]);
      assert Resolved(events[1..]);
      RunAgrees(Next(s, events[0]), events[1..]);
    }
  }

  /** A reboot restores the configuration exactly when the device confirms it again and the storage can be read; it
      never changes what is stored, so a later reboot can. */
  lemma RebootRestores(s: Snapshot, x: Exchange, health: Health)
    requires s.configured && Agrees(s)
    ensures Next(s, Reboot(x, health)) == s <==> health.readable && Confirms(x, s.configuration.resolution)
    ensures Next(s, Reboot(x, health)).stored == s.stored
  {
  }

  predicate IsReboot(e: Event) {
    e.Reboot?
  }

  /** Once a configuration other than the default one was taken, after any reboots that succeed or not, one with a
      storage that can be read and a device that accepts it gives the configuration back. */
  lemma TakenComesBack(s: Snapshot, c: Configuration, x: Exchange, health: Health, reboots: seq<Event>,
                       again: Exchange, later: Health)
    requires WriteEnds(s, c, x, health).0 == OK && c != DEFAULT
    requires forall i :: 0 <= i < |reboots| ==> IsReboot(reboots[i])
    ensures var s' := Next(Run(WriteEnds(s, c, x, health).1, reboots), Reboot(again, later));
            && s'.stored == Some(c)
            && (s'.configured <==> later.readable && Accepted(again, c.resolution))
            && (s'.configured ==> s'.configuration == c)
  {
    TakenIsStored(s, c, x, health);
    WriteTakes(s, c, x, health);
    RebootsKeep(WriteEnds(s, c, x, health).1, reboots);
    RebootTells(Run(WriteEnds(s, c, x, health).1, reboots), again, later);
  }

  lemma {:induction false} RebootsKeep(s: Snapshot, reboots: seq<Event>)
    requires forall i :: 0 <= i < |reboots| ==> IsReboot(reboots[i])
    ensures Run(s, reboots).stored == s.stored
    decreases |reboots|
  {
    if reboots != [] {
      assert IsReboot(reboots[0]);
      RebootTells(s, reboots[0].x, reboots[0].health);
      forall i | 0 <= i < |reboots[1..]| ensures IsReboot(reboots[1..][i]) {
        assert IsReboot(reboots[i + 1]);
      }
      RebootsKeep(Next(s, reboots[0]), reboots[1..]);
    }
  }

  /** Different resolutions look different to the device, and no resolution looks like the lowest. */
  lemma ProtoTells(a: Resolution, b: Resolution)
    ensures Proto(a) == Proto(b) <==> a == b || {a, b} == {NoResolution, Bit9}
  {
    assert {a, b} == {NoResolution, Bit9} ==> a in {NoResolution, Bit9} && b in {NoResolution, Bit9};
    if a == NoResolution && b == Bit9 {
      assert {a, b} == {NoResolution, Bit9};
    }
    if b == NoResolution && a == Bit9 {
      assert {a, b} == {NoResolution, Bit9};
    }
  }
}
