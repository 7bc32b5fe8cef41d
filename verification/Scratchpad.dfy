/** Transactions with one DS18B20 on the bus: a reset, the ROM code of the device, a command and its data. */
module Scratchpad {
  import opened Bits
  import opened Folds
  import opened OneWireBus
  import opened Status
  import Crc

  const MATCH_ROM: Byte := [true, false, true, false, true, false, true, false]
  const WRITE_SCRATCHPAD: Byte := [false, true, true, true, false, false, true, false]
  const READ_SCRATCHPAD: Byte := [false, true, true, true, true, true, false, true]

  /** The line after a reset and these bytes. */
  function Frame(params: Params, wave: Wave, bytes: seq<Byte>): Wave
    requires params.Valid()
  {
    Fold(WriteSlot(params), Pulse(wave, params.resetPulse, params.resetPulse), BitsOf(bytes))
  }

  /** A device answers the reset that is the next falling edge of the line. */
  predicate Present(params: Params, slave: nat -> nat, wave: Wave) {
    slave(|Edges(wave)|) > params.resetPulse + params.presencePulse
  }

  lemma BitsOfConcat(a: seq<Byte>, b: seq<Byte>)
    ensures BitsOf(a + b) == BitsOf(a) + BitsOf(b)
  {
  }

  lemma FrameConcat(params: Params, wave: Wave, a: seq<Byte>, b: seq<Byte>)
    requires params.Valid()
    ensures Frame(params, wave, a + b) == Fold(WriteSlot(params), Frame(params, wave, a), BitsOf(b))
  {
    BitsOfConcat(a, b);
    FoldConcat(WriteSlot(params), Pulse(wave, params.resetPulse, params.resetPulse), BitsOf(a), BitsOf(b));
  }

  lemma FrameByte(params: Params, wave: Wave, a: seq<Byte>, byte: Byte)
    requires params.Valid()
    ensures Frame(params, wave, a + [byte]) == Fold(WriteSlot(params), Frame(params, wave, a), byte)
  {
    FoldByte(WriteSlot(params), Pulse(wave, params.resetPulse, params.resetPulse), a, byte);
  }

  /** Addresses one device. */
  method MatchRom(bus: Bus, rom: array<Byte>) returns (status: StatusCode)
    requires bus.Valid() && rom.Length == 8
    modifies bus
    ensures bus.Valid()
    ensures status == if Present(bus.params, bus.slave, old(bus.wave)) then OK else Error
    ensures bus.wave == Frame(bus.params, old(bus.wave), if status == OK then [MATCH_ROM] + rom[..] else [])
  {
    ghost var before := bus.wave;
    status := bus.Reset();
    assert BitsOf([]) == [];
    if status != OK {
      return;
    }
    bus.WriteByte(MATCH_ROM);
    FrameByte(bus.params, before, [], MATCH_ROM);
    assert [] + [MATCH_ROM] == [MATCH_ROM];
    status := bus.WriteBytes(rom, 8);
    FrameConcat(bus.params, before, [MATCH_ROM], rom[..]);
    assert rom[..8] == rom[..];
  }

  /** Addresses one device and gives it a command. */
  method Command(bus: Bus, rom: array<Byte>, command: Byte) returns (status: StatusCode)
    requires bus.Valid() && rom.Length == 8
    modifies bus
    ensures bus.Valid()
    ensures status == if Present(bus.params, bus.slave, old(bus.wave)) then OK else Error
    ensures bus.wave == Frame(bus.params, old(bus.wave), if status == OK then [MATCH_ROM] + rom[..] + [command] else [])
  {
    ghost var before := bus.wave;
    status := MatchRom(bus, rom);
    if status == OK {
      bus.WriteByte(command);
      FrameByte(bus.params, before, [MATCH_ROM] + rom[..], command);
    }
  }

  /** Only bytes 2, 3 and 4 can be written. */
  method WriteRegisters(bus: Bus, pad: array<Byte>) returns (status: StatusCode)
    requires bus.Valid() && pad.Length == 9
    modifies bus
    ensures bus.Valid() && status == OK
    ensures bus.wave == Fold(WriteSlot(bus.params), old(bus.wave), BitsOf(pad[2..5]))
  {
    var data := new Byte[3](i requires 0 <= i < 3 && pad.Length == 9 reads pad => pad[i + 2]);
    status := bus.WriteBytes(data, 3);
    assert data[..3] == pad[2..5];
  }

  /** Addresses one device and writes its registers. */
  method Write(bus: Bus, rom: array<Byte>, pad: array<Byte>) returns (status: StatusCode)
    requires bus.Valid() && rom.Length == 8 && pad.Length == 9
    modifies bus
    ensures bus.Valid()
    ensures status == if Present(bus.params, bus.slave, old(bus.wave)) then OK else Error
    ensures bus.wave == Frame(bus.params, old(bus.wave),
                              if status == OK then [MATCH_ROM] + rom[..] + [WRITE_SCRATCHPAD] + pad[2..5] else [])
  {
    ghost var before := bus.wave;
    status := Command(bus, rom, WRITE_SCRATCHPAD);
    if status != OK {
      return;
    }
    status := WriteRegisters(bus, pad);
    FrameConcat(bus.params, before, [MATCH_ROM] + rom[..] + [WRITE_SCRATCHPAD], pad[2..5]);
  }

  method Read(bus: Bus, rom: array<Byte>, pad: array<Byte>) returns (status: StatusCode)
    requires bus.Valid() && rom.Length == 8 && pad.Length == 9 && rom != pad
    modifies bus, pad
    ensures bus.Valid()
    ensures status == if Present(bus.params, bus.slave, old(bus.wave)) then OK else Error
    ensures status == OK ==>
              HasRead(bus.params, bus.slave,
                      Frame(bus.params, old(bus.wave), [MATCH_ROM] + rom[..] + [READ_SCRATCHPAD]),
                      bus.wave, BitsOf(pad[..]))
    ensures status != OK ==> pad[..] == old(pad[..]) && bus.wave == Frame(bus.params, old(bus.wave), [])
  {
    status := Command(bus, rom, READ_SCRATCHPAD);
    if status != OK {
      return;
    }
    status := bus.ReadBytes(pad, 9);
    assert pad[..9] == pad[..];
  }

  /** The check of the CRC byte. */
  method Valid(pad: array<Byte>) returns (valid: bool)
    requires pad.Length == 9
    ensures valid == Crc.Valid(pad[..])
  {
    var crc := Crc.Crc8(pad[..8], ZERO, Crc.DALLAS_POLYNOMIAL, Crc.LSB);
    assert pad[..][..8] == pad[..8];
    valid := crc == pad[8];
  }

  /** Whatever was on the line before, a device that samples within the window decodes exactly the bytes of a frame,
      after what it decoded before and one sample of the reset pulse. */
  lemma FrameDecodes(params: Params, wave: Wave, bytes: seq<Byte>, s: nat)
    requires params.Valid() && params.writeBit <= s < params.writeSlot && s < 2 * params.resetPulse
    requires Settled(wave, s)
    ensures Decode(Frame(params, wave, bytes), s) == Decode(wave, s) + [s >= params.resetPulse] + BitsOf(bytes)
    ensures Settled(Frame(params, wave, bytes), s)
  {
    var after := Pulse(wave, params.resetPulse, params.resetPulse);
    PulseEdge(wave, params.resetPulse, params.resetPulse);
    PulseEndsHigh(wave, params.resetPulse, params.resetPulse);
    PulseExtends(wave, params.resetPulse, s);
    DecodeStep(wave, after, 2 * params.resetPulse, s, s >= params.resetPulse);
    DecodesExactly(params, s);
    assert Decodes(params, after, bytes, s);
    DecodesAsShown(params, after, BitsOf(bytes), s);
  }

  lemma PulseExtends(wave: Wave, time: nat, s: nat)
    requires s < 2 * time
    ensures |Pulse(wave, time, time)| == |wave| + 2 * time
    ensures Extends(wave, Pulse(wave, time, time), s, s >= time)
  {
  }

  lemma MatchRomByte()
    ensures Value(MATCH_ROM) == 0x55
  {
    ByteValue(MATCH_ROM);
  }

  lemma WriteByte()
    ensures Value(WRITE_SCRATCHPAD) == 0x4E
  {
    ByteValue(WRITE_SCRATCHPAD);
  }

  lemma ReadByte()
    ensures Value(READ_SCRATCHPAD) == 0xBE
  {
    ByteValue(READ_SCRATCHPAD);
  }

  /** The commands and the polynomial are those of the data sheet. */
  lemma CommandBytes()
    ensures Value(MATCH_ROM) == 0x55 && Value(WRITE_SCRATCHPAD) == 0x4E && Value(READ_SCRATCHPAD) == 0xBE
    ensures Value(Crc.DALLAS_POLYNOMIAL) == 0x8C
  {
    MatchRomByte();
    WriteByte();
    ReadByte();
    ByteValue(Crc.DALLAS_POLYNOMIAL);
  }
}
