/** The scanner as a program: fields updated in place over a bus of devices. */
module RomCodeScanner {
  import opened Bits
  import opened Status
  import opened RomSearch
  import RomEnumeration
  import Crc

  /** The code that a buffer of eight bytes holds. */
  function CodeOf(buf: seq<Byte>): Code
    requires |buf| == 8
  {
    BitsOf(buf)
  }

  datatype Slot = Plain | Complement | Choice

  /** The devices on one wire during a Search ROM transaction. In every step all participating devices answer two
      read slots, with their bit and with its complement, and then compare the bit the master writes with theirs. */
  class SearchBus {
    const devices: set<Code>
    var active: set<Code>
    var position: nat
    var slot: Slot

    constructor (devices: set<Code>)
      ensures this.devices == devices
    {
      this.devices := devices;
      active := {};
      position := 64;
      slot := Plain;
    }

    ghost predicate Searching(active: set<Code>, position: nat)
      reads this
    {
      this.active == active && this.position == position && slot == Plain
    }

    /** Some device answers with a presence pulse, or nobody is there. */
    method Reset() returns (status: StatusCode)
      modifies this
      ensures status == if devices == {} then Error else OK
    {
      active := {};
      position := 64;
      slot := Plain;
      status := if devices == {} then Error else OK;
    }

    /** The Search ROM command [F0h] lets every device take part. */
    method WriteSearchRom()
      modifies this
      ensures Searching(devices, 0)
    {
      active := devices;
      position := 0;
      slot := Plain;
    }

    method ReadBit() returns (bit: bool)
      requires position < 64 && slot != Choice
      modifies this`slot
      ensures bit == if old(slot) == Plain then AllOnes(active, position) else AllZeros(active, position)
      ensures slot == if old(slot) == Plain then Complement else Choice
    {
      if slot == Plain {
        bit := AllOnes(active, position);
        slot := Complement;
      } else {
        bit := AllZeros(active, position);
        slot := Choice;
      }
    }

    method WriteBit(bit: bool)
      requires position < 64 && slot == Choice
      modifies this
      ensures Searching(old(Keep(active, position, bit)), old(position) + 1)
    {
      active := Keep(active, position, bit);
      position := position + 1;
      slot := Plain;
    }
  }

  class RomCodeScanner {
    const bus: SearchBus
    var finished: bool
    var prevDiscrepancy: int
    var currDiscrepancy: int
    var conflictCount: nat

    constructor (bus: SearchBus)
      ensures this.bus == bus && State() == FRESH
    {
      this.bus := bus;
      finished := false;
      prevDiscrepancy := -1;
      currDiscrepancy := -1;
      conflictCount := 0;
    }

    ghost function State(): Scanner
      reads this
    {
      Scanner(finished, prevDiscrepancy, currDiscrepancy, conflictCount)
    }

    /** Forgets everything about earlier passes. */
    method Reset()
      modifies this
      ensures State() == FRESH
    {
      finished := false;
      prevDiscrepancy := -1;
      currDiscrepancy := -1;
      conflictCount := 0;
    }

    /** One call of scan: what it returns and leaves behind, or that an assertion stops the program. */
    method Scan(buf: array<Byte>) returns (halted: bool, status: StatusCode)
      requires buf.Length == 8 && prevDiscrepancy < 64
      modifies this, bus, buf
      ensures Scanned(old(State()), bus.devices, old(CodeOf(buf[..])), halted, status, CodeOf(buf[..]), State())
      ensures !halted ==> prevDiscrepancy < 64
      ensures old(finished) ==> !halted && status == NoData && buf[..] == old(buf[..])
      ensures !old(finished) && bus.devices == {} ==> !halted && status == Error && buf[..] == old(buf[..])
      ensures !halted && !old(finished) && bus.devices != {} ==>
                var crc := Crc.Register(Crc.LSB, Crc.DALLAS_POLYNOMIAL, ZERO, buf[..7]);
                && CodeOf(buf[..]) in bus.devices
                && status == (if crc == buf[7] then OK else Error)
                && (finished <==> status == OK && conflictCount == 0)
    {
      if finished {
        return false, NoData;
      }
      status := bus.Reset();
      if status != OK {
        return false, status;
      }
      bus.WriteSearchRom();
      ghost var before, code := State(), CodeOf(buf[..]);
      assert Match(bus.devices, code[..0]) == bus.devices;
      PassFindsADevice(before, bus.devices, code, 0);
      halted, status := ScanBits(buf);
      if halted || status != OK {
        return;
      }
      PassIsScan(before, bus.devices, code, State(), CodeOf(buf[..]));
      status := Accept(buf);
    }

    /** The end of a scan that has found a code. */
    method Accept(buf: array<Byte>) returns (status: StatusCode)
      requires buf.Length == 8 && !finished
      modifies this`finished
      ensures status == if RomEnumeration.Checked(CodeOf(buf[..])) then OK else Error
      ensures Crc.Register(Crc.LSB, Crc.DALLAS_POLYNOMIAL, ZERO, buf[..7]) == buf[7] <==> status == OK
      ensures finished == (status == OK && conflictCount == 0)
    {
      RomEnumeration.BytesOfBits(buf[..]);
      assert buf[..][..7] == buf[..7];
      var valid := RomCodeValid(buf);
      if !valid {
        return Error;
      }
      if conflictCount == 0 {
        finished := true;
      }
      status := OK;
    }

    /** One round of the bit loop; `silent` means that no device is left. */
    method ScanBit(buf: array<Byte>, n: nat) returns (halted: bool, silent: bool)
      requires buf.Length == 8 && prevDiscrepancy < 64 && n < 64 && bus.Searching(bus.active, n)
      modifies this, bus, buf
      ensures Pass(old(State()), old(bus.active), old(CodeOf(buf[..])), n)
           == if halted then Aborted
              else if silent then Silent(State(), CodeOf(buf[..]))
              else if prevDiscrepancy < 64 then Pass(State(), bus.active, CodeOf(buf[..]), n + 1) else Aborted
      ensures !halted && !silent ==> prevDiscrepancy < 64 && bus.Searching(bus.active, n + 1)
    {
      var bit1 := bus.ReadBit();
      var bit2 := bus.ReadBit();
      if bit1 && bit2 {
        return false, true;
      }
      var bit := false;
      if !bit1 && !bit2 {
        halted, bit := HandleDiscrepancy(buf, n);
        if halted {
          return true, false;
        }
      } else {
        bit := bit1 && !bit2;
      }
      StoreCodeBit(buf, n, bit);
      bus.WriteBit(bit);
      return false, false;
    }

    /** The bit loop. */
    method ScanBits(buf: array<Byte>) returns (halted: bool, status: StatusCode)
      requires buf.Length == 8 && prevDiscrepancy < 64 && bus.Searching(bus.devices, 0)
      modifies this, bus, buf
      ensures match Pass(old(State()), bus.devices, old(CodeOf(buf[..])), 0)
              case Aborted => halted
              case Silent(s, left) => !halted && status == NoData && CodeOf(buf[..]) == left && State() == s
              case Found(s, code) => !halted && status == OK && CodeOf(buf[..]) == code && State() == s
    {
      ghost var outcome := Pass(State(), bus.devices, CodeOf(buf[..]), 0);
      var n := 0;
      while n < 64
        invariant 0 <= n <= 64 && prevDiscrepancy < 64 && bus.Searching(bus.active, n)
        invariant outcome == Pass(State(), bus.active, CodeOf(buf[..]), n)
      {
        var silent;
        halted, silent := ScanBit(buf, n);
        if halted {
          return true, Error;
        }
        if silent {
          return false, NoData;
        }
        n := n + 1;
      }
      return false, OK;
    }

    method HandleDiscrepancy(buf: array<Byte>, position: nat) returns (halted: bool, bit: bool)
      requires buf.Length == 8 && position < 64 && prevDiscrepancy < 64
      modifies this
      ensures match RomSearch.HandleDiscrepancy(old(State()), CodeOf(buf[..]), position)
              case Halted => halted
              case Take(b, s) => !halted && bit == b && State() == s && prevDiscrepancy < 64
    {
      if currDiscrepancy == position {
        // The current discrepancy is handled, go on with the previous one.
        if position == 0 {
          prevDiscrepancy := 0;
          currDiscrepancy := -1;
          conflictCount := 0;
        } else {
          currDiscrepancy := prevDiscrepancy;
          if conflictCount == 0 {
            return true, false;
          }
          conflictCount := conflictCount - 1;
        }
        return false, true;
      }
      if position > currDiscrepancy {
        // A new discrepancy.
        if prevDiscrepancy < 0 {
          prevDiscrepancy := position;
          currDiscrepancy := position;
        } else {
          prevDiscrepancy := currDiscrepancy;
          currDiscrepancy := position;
        }
        conflictCount := conflictCount + 1;
        return false, false;
      }
      // Follow the previous path.
      if prevDiscrepancy < 0 {
        return true, false;
      }
      var bytePos, bitPos := prevDiscrepancy / 8, prevDiscrepancy % 8;
      NthIsBit(buf[bytePos], bitPos);
      prevDiscrepancy := position;
      return false, Nth(buf[bytePos], bitPos);
    }
  }

  /** What a call of scan did is what the specified scan does. */
  predicate Scanned(before: Scanner, devices: set<Code>, buf: Code, halted: bool, status: StatusCode, left: Code,
                    after: Scanner)
    requires before.prev < 64
  {
    var (reply, next) := RomEnumeration.Scan(before, devices, buf);
    if reply.Halt? then halted else !halted && status == reply.status && left == reply.code && after == next
  }

  /** The specified scan when a pass has found a code. */
  lemma PassIsScan(s: Scanner, devices: set<Code>, buf: Code, t: Scanner, code: Code)
    requires s.prev < 64 && !s.finished && devices != {} && Pass(s, devices, buf, 0) == Found(t, code)
    ensures code in devices && !t.finished
    ensures RomEnumeration.Scan(s, devices, buf)
         == if RomEnumeration.Checked(code) then (RomEnumeration.Return(OK, code), t.(finished := t.conflicts == 0))
            else (RomEnumeration.Return(Error, code), t)
  {
    RomEnumeration.ScanTells(s, devices, buf);
  }

  /** Writes one bit of a code through its mask. */
  method StoreCodeBit(buf: array<Byte>, n: nat, bit: bool)
    requires buf.Length == 8 && n < 64
    modifies buf
    ensures CodeOf(buf[..]) == old(CodeOf(buf[..]))[n := bit]
  {
    var bytePos, bitPos := n / 8, n % 8;
    WriteBit(buf[..], n, bit);
    var stored := Bits.StoreBit(buf[bytePos], bitPos, bit);
    buf[bytePos] := stored;
    assert buf[..] == old(buf[..])[n / 8 := old(buf[..])[n / 8][n % 8 := bit]];
  }

  /** The check of the CRC byte. */
  method RomCodeValid(buf: array<Byte>) returns (valid: bool)
    requires buf.Length == 8
    ensures valid == RomEnumeration.ValidCode(CodeOf(buf[..]))
  {
    RomEnumeration.BytesOfBits(buf[..]);
    var crc := Crc.Crc8(buf[..7], ZERO, Crc.DALLAS_POLYNOMIAL, Crc.LSB);
    assert buf[..][..7] == buf[..7];
    valid := crc == buf[7];
  }
}
