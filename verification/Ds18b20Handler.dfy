/** The two loops of the HTTP handler over the scanner. */
module Ds18b20Handler {
  import opened Bits
  import opened Status
  import opened RomSearch
  import opened ScannerSkeleton
  import opened RomPasses
  import opened RomEnumeration
  import opened RomCodeScanner
  import opened RomOutcome
  import opened ScannerFate

  /** The six bytes after the family code. */
  function SerialNumber(code: Code): seq<Byte> {
    BytesOf(code)[1..7]
  }

  /** A code is the family code, six bytes of serial number and the CRC. */
  predicate Spells(code: Code, family: Byte, serial: seq<Byte>, crc: Byte) {
    BytesOf(code) == [family] + serial + [crc]
  }

  /** The serial number of a code made of these parts is the second, and every code is made of such parts. */
  lemma SerialNumberIs(code: Code, serial: seq<Byte>)
    ensures SerialNumber(code) == serial <==> exists family, crc :: Spells(code, family, serial, crc)
  {
    var bytes := BytesOf(code);
    assert bytes == [bytes[0]] + bytes[1..7] + [bytes[7]];
    if SerialNumber(code) == serial {
      assert Spells(code, bytes[0], serial, bytes[7]);
    }
    if family, crc :| Spells(code, family, serial, crc) {
      assert |serial| == 6;
      assert ([family] + serial + [crc])[1..7] == serial;
    }
  }

  lemma SerialNumberOfBits(family: Byte, serial: seq<Byte>, crc: Byte)
    requires |serial| == 6
    ensures SerialNumber(BitsOf([family] + serial + [crc])) == serial
  {
    BytesOfBits([family] + serial + [crc]);
    SerialNumberIs(BitsOf([family] + serial + [crc]), serial);
  }

  /** How a loop over the scanner ends; `Unfinished` means it had not ended after the given number of scans. */
  datatype Ending = Ended(status: StatusCode, codes: seq<Code>) | Crashed | Unfinished

  /** The replies of a fresh scanner, in order. */
  function Replies(devices: set<Code>): nat -> Reply {
    (k: nat) => ReplyAt(devices, k)
  }

  /** The search for a serial number, `fuel` scans long, from the `k`-th reply on. */
  function Find(replies: nat -> Reply, wanted: seq<Byte>, k: nat, fuel: nat): Ending
    decreases fuel
  {
    if fuel == 0 then Unfinished
    else if replies(k).Halt? then Crashed
    else if replies(k).status != OK then Ended(replies(k).status, [])
    else if SerialNumber(replies(k).code) == wanted then Ended(OK, [replies(k).code])
    else Find(replies, wanted, k + 1, fuel - 1)
  }

  lemma FindStep(replies: nat -> Reply, wanted: seq<Byte>, k: nat, fuel: nat, reply: Reply)
    requires fuel > 0 && reply == replies(k)
    ensures Find(replies, wanted, k, fuel)
         == if reply.Halt? then Crashed
            else if reply.status != OK then Ended(reply.status, [])
            else if SerialNumber(reply.code) == wanted then Ended(OK, [reply.code])
            else Find(replies, wanted, k + 1, fuel - 1)
  {
  }

  /** The listing of all codes, `fuel` scans long, into a formatter with room for `room` strings. */
  function List(replies: nat -> Reply, k: nat, fuel: nat, room: nat): Ending
    decreases fuel
  {
    if fuel == 0 then Unfinished
    else if replies(k).Halt? then Crashed
    else if replies(k).status != OK then Ended(if replies(k).status == NoData then OK else replies(k).status, [])
    else if room == 0 then Ended(NoMem, [])
    else Prepend([replies(k).code], List(replies, k + 1, fuel - 1, room - 1))
  }

  function Prepend(codes: seq<Code>, ending: Ending): Ending {
    if ending.Ended? then Ended(ending.status, codes + ending.codes) else ending
  }

  lemma PrependOne(codes: seq<Code>, code: Code, ending: Ending)
    ensures Prepend(codes, Prepend([code], ending)) == Prepend(codes + [code], ending)
  {
    if ending.Ended? {
      assert codes + ([code] + ending.codes) == (codes + [code]) + ending.codes;
    }
  }

  lemma PrependNone(ending: Ending)
    ensures Prepend([], ending) == ending
  {
    assert ending.Ended? ==> [] + ending.codes == ending.codes;
  }

  lemma ListStep(replies: nat -> Reply, k: nat, fuel: nat, room: nat, codes: seq<Code>, reply: Reply)
    requires fuel > 0 && reply == replies(k)
    ensures Prepend(codes, List(replies, k, fuel, room))
         == if reply.Halt? then Crashed
            else if reply.status != OK then Ended(if reply.status == NoData then OK else reply.status, codes)
            else if room == 0 then Ended(NoMem, codes)
            else Prepend(codes + [reply.code], List(replies, k + 1, fuel - 1, room - 1))
  {
    assert codes + [] == codes;
    if reply.Return? && room > 0 {
      PrependOne(codes, reply.code, List(replies, k + 1, fuel - 1, room - 1));
    }
  }

  /** A freshly constructed ROM code: all bytes zero. */
  method FreshRomCode() returns (buf: array<Byte>)
    ensures fresh(buf) && buf.Length == 8 && CodeOf(buf[..]) == Partial([])
  {
    buf := new Byte[8](_ => ZERO);
  }

  /** The machine after `count` steps. */
  function After<M, R>(step: M -> (R, M), m: M, count: nat): M {
    if count == 0 then m else step(After(step, m, count - 1)).1
  }

  lemma {:induction false} RunIsAfter<M, R>(step: M -> (R, M), m: M, count: nat)
    ensures Run(step, m, count) == step(After(step, m, count)).0
  {
    if count > 0 {
      RunIsAfter(step, step(m).1, count - 1);
      AfterShift(step, m, count - 1);
    }
  }

  lemma {:induction false} AfterShift<M, R>(step: M -> (R, M), m: M, count: nat)
    ensures After(step, step(m).1, count) == After(step, m, count + 1)
  {
    if count > 0 {
      AfterShift(step, m, count - 1);
    }
  }

  /** The scanner has made `k` scans with fresh buffers on this bus. */
  ghost predicate HasScanned(scanner: RomCodeScanner, bus: SearchBus, k: nat)
    reads scanner
  {
    && scanner.bus == bus && scanner.prevDiscrepancy < 64
    && After(Scans(bus.devices), Alive(FRESH), k) == Alive(scanner.State())
  }

  /** One round of either loop: a scan into a fresh ROM code. */
  method ScanNext(scanner: RomCodeScanner, ghost k: nat) returns (reply: Reply)
    requires HasScanned(scanner, scanner.bus, k)
    modifies scanner, scanner.bus
    ensures reply == Replies(scanner.bus.devices)(k)
    ensures !reply.Halt? ==> HasScanned(scanner, scanner.bus, k + 1)
  {
    var buf := FreshRomCode();
    RunIsAfter(Scans(scanner.bus.devices), Alive(FRESH), k);
    var halted, status := scanner.Scan(buf);
    reply := if halted then Halt else Return(status, CodeOf(buf[..]));
  }

  /** One round of find_rom_code: whether the loop is left, and how. */
  method FindRound(scanner: RomCodeScanner, wanted: seq<Byte>, ghost k: nat, ghost left: nat)
    returns (done: bool, ending: Ending)
    requires left > 0 && HasScanned(scanner, scanner.bus, k)
    modifies scanner, scanner.bus
    ensures done ==> ending == Find(Replies(scanner.bus.devices), wanted, k, left)
    ensures !done ==> HasScanned(scanner, scanner.bus, k + 1)
    ensures !done ==>
              var replies := Replies(scanner.bus.devices);
              Find(replies, wanted, k, left) == Find(replies, wanted, k + 1, left - 1)
  {
    var reply := ScanNext(scanner, k);
    FindStep(Replies(scanner.bus.devices), wanted, k, left, reply);
    if reply.Halt? {
      return true, Crashed;
    }
    if reply.status != OK {
      return true, Ended(reply.status, []);
    }
    if SerialNumber(reply.code) == wanted {
      return true, Ended(OK, [reply.code]);
    }
    return false, Unfinished;
  }

  /** A scanner that has not scanned yet. */
  method NewScanner(bus: SearchBus) returns (scanner: RomCodeScanner)
    ensures fresh(scanner) && HasScanned(scanner, bus, 0)
  {
    scanner := new RomCodeScanner(bus);
  }

  method FindFrom(scanner: RomCodeScanner, wanted: seq<Byte>, ghost first: nat, fuel: nat) returns (ending: Ending)
    requires HasScanned(scanner, scanner.bus, first)
    modifies scanner, scanner.bus
    ensures ending == Find(Replies(scanner.bus.devices), wanted, first, fuel)
  {
    ghost var replies, k := Replies(scanner.bus.devices), first;
    ghost var all := Find(replies, wanted, first, fuel);
    var left := fuel;
    while left > 0
      invariant HasScanned(scanner, scanner.bus, k) && all == Find(replies, wanted, k, left)
    {
      var done;
      done, ending := FindRound(scanner, wanted, k, left);
      if done {
        return;
      }
      left, k := left - 1, k + 1;
    }
    return Unfinished;
  }

  /** The loop of find_rom_code, cut after `fuel` scans. */
  method FindRomCode(bus: SearchBus, wanted: seq<Byte>, fuel: nat) returns (ending: Ending)
    modifies bus
    ensures ending == Find(Replies(bus.devices), wanted, 0, fuel)
  {
    var scanner := NewScanner(bus);
    ending := FindFrom(scanner, wanted, 0, fuel);
  }

  /** One round of scan_rom_codes, which has listed `codes`. */
  method ListRound(scanner: RomCodeScanner, codes: seq<Code>, room: nat, ghost left: nat)
    returns (done: bool, ending: Ending, listed: seq<Code>)
    requires left > 0 && |codes| <= room && HasScanned(scanner, scanner.bus, |codes|)
    modifies scanner, scanner.bus
    ensures done ==> ending == Prepend(codes, List(Replies(scanner.bus.devices), |codes|, left, room - |codes|))
    ensures !done ==> |listed| == |codes| + 1 <= room && HasScanned(scanner, scanner.bus, |listed|)
    ensures !done ==>
      (var replies := Replies(scanner.bus.devices);
       Prepend(codes, List(replies, |codes|, left, room - |codes|))
       == Prepend(listed, List(replies, |listed|, left - 1, room - |listed|)))
  {
    var reply := ScanNext(scanner, |codes|);
    ListStep(Replies(scanner.bus.devices), |codes|, left, room - |codes|, codes, reply);
    if reply.Halt? {
      return true, Crashed, codes;
    }
    if reply.status != OK {
      return true, Ended(if reply.status == NoData then OK else reply.status, codes), codes;
    }
    if |codes| == room {
      return true, Ended(NoMem, codes), codes;
    }
    return false, Unfinished, codes + [reply.code];
  }

  method ListFrom(scanner: RomCodeScanner, initial: seq<Code>, fuel: nat, room: nat) returns (ending: Ending)
    requires |initial| <= room && HasScanned(scanner, scanner.bus, |initial|)
    modifies scanner, scanner.bus
    ensures ending == Prepend(initial, List(Replies(scanner.bus.devices), |initial|, fuel, room - |initial|))
  {
    ghost var replies := Replies(scanner.bus.devices);
    ghost var all := Prepend(initial, List(replies, |initial|, fuel, room - |initial|));
    var codes, left := initial, fuel;
    while left > 0
      invariant |codes| <= room && HasScanned(scanner, scanner.bus, |codes|)
      invariant all == Prepend(codes, List(replies, |codes|, left, room - |codes|))
    {
      var done;
      done, ending, codes := ListRound(scanner, codes, room, left);
      if done {
        return;
      }
      left := left - 1;
    }
    return Unfinished;
  }

  /** The loop of scan_rom_codes, cut after `fuel` scans, into a formatter with room for `room` strings. */
  method ScanRomCodes(bus: SearchBus, fuel: nat, room: nat) returns (ending: Ending)
    modifies bus
    ensures ending == List(Replies(bus.devices), 0, fuel, room)
  {
    var scanner := NewScanner(bus);
    ending := ListFrom(scanner, [], fuel, room);
    PrependNone(List(Replies(bus.devices), 0, fuel, room));
  }

  // ---- Left combs ----

  /** The replies list these codes and then have no more data. */
  ghost predicate Lists(replies: nat -> Reply, codes: seq<Code>) {
    forall k: nat :: replies(k) == if k < |codes| then Return(OK, codes[k]) else Return(NoData, Partial([]))
  }

  lemma CombLists(devices: set<Code>)
    requires AllValid(devices) && LeftComb(devices)
    ensures Lists(Replies(devices), Order(devices))
    ensures Increasing(Order(devices)) && |Order(devices)| == |devices|
    ensures forall d :: d in Order(devices) <==> d in devices
  {
    forall k: nat
      ensures Replies(devices)(k)
          == if k < |Order(devices)| then Return(OK, Order(devices)[k]) else Return(NoData, Partial([]))
    {
      LeftCombEnumeration(devices, k);
    }
    LeftCombEnumeration(devices, 0);
  }

  /** No device before position `k` of the order has the serial number. */
  ghost predicate NotBefore(codes: seq<Code>, wanted: seq<Byte>, k: nat) {
    forall i :: 0 <= i < k && i < |codes| ==> SerialNumber(codes[i]) != wanted
  }

  /** The search ended at the first code of the order with the serial number. */
  ghost predicate EndedAtFirst(codes: seq<Code>, wanted: seq<Byte>, ending: Ending) {
    exists i :: 0 <= i < |codes| && EndedWith(codes[i], wanted, ending) && NotBefore(codes, wanted, i)
  }

  predicate EndedWith(code: Code, wanted: seq<Byte>, ending: Ending) {
    ending == Ended(OK, [code]) && SerialNumber(code) == wanted
  }

  lemma {:induction false} FindInList(replies: nat -> Reply, codes: seq<Code>, wanted: seq<Byte>, k: nat, fuel: nat)
    requires Lists(replies, codes) && k <= |codes| < k + fuel && NotBefore(codes, wanted, k)
    ensures var ending := Find(replies, wanted, k, fuel);
            || EndedAtFirst(codes, wanted, ending)
            || (ending == Ended(NoData, []) && NotBefore(codes, wanted, |codes|))
    decreases fuel
  {
    if k < |codes| && SerialNumber(codes[k]) != wanted {
      FindInList(replies, codes, wanted, k + 1, fuel - 1);
    }
  }

  /** On a left comb of valid codes the search ends within one scan more than there are devices. It succeeds exactly
      when some device has the serial number, and then with the smallest such code; otherwise there is no more data. */
  lemma FindRomCodeSucceeds(devices: set<Code>, wanted: seq<Byte>, fuel: nat)
    requires AllValid(devices) && LeftComb(devices) && fuel > |devices|
    ensures var ending := Find(Replies(devices), wanted, 0, fuel);
            if exists d :: d in devices && SerialNumber(d) == wanted then
              && ending.Ended? && ending.status == OK && |ending.codes| == 1
              && ending.codes[0] in devices && SerialNumber(ending.codes[0]) == wanted
              && forall d :: d in devices && SerialNumber(d) == wanted && d != ending.codes[0] ==>
                   Less(ending.codes[0], d)
            else ending == Ended(NoData, [])
  {
    CombLists(devices);
    var codes := Order(devices);
    FindInList(Replies(devices), codes, wanted, 0, fuel);
    FirstInOrder(devices, codes, wanted, Find(Replies(devices), wanted, 0, fuel));
  }

  /** The same, told by the bytes of the codes: the search succeeds exactly when the bytes of some device are a family
      code, the wanted serial number and a CRC, and the code that it ends with is made in this way. */
  lemma FindRomCodeByBytes(devices: set<Code>, wanted: seq<Byte>, fuel: nat)
    requires AllValid(devices) && LeftComb(devices) && fuel > |devices|
    ensures var ending := Find(Replies(devices), wanted, 0, fuel);
            if exists d, family, crc :: d in devices && Spells(d, family, wanted, crc) then
              && ending.Ended? && ending.status == OK && |ending.codes| == 1 && ending.codes[0] in devices
              && exists family, crc :: Spells(ending.codes[0], family, wanted, crc)
            else ending == Ended(NoData, [])
  {
    FindRomCodeSucceeds(devices, wanted, fuel);
    forall d: Code ensures SerialNumber(d) == wanted <==> exists family, crc :: Spells(d, family, wanted, crc) {
      SerialNumberIs(d, wanted);
    }
  }

  lemma FirstInOrder(devices: set<Code>, codes: seq<Code>, wanted: seq<Byte>, ending: Ending)
    requires Increasing(codes) && forall d :: d in codes <==> d in devices
    requires EndedAtFirst(codes, wanted, ending) || (ending == Ended(NoData, []) && NotBefore(codes, wanted, |codes|))
    ensures if exists d :: d in devices && SerialNumber(d) == wanted then
              && ending.Ended? && ending.status == OK && |ending.codes| == 1
              && ending.codes[0] in devices && SerialNumber(ending.codes[0]) == wanted
              && forall d :: d in devices && SerialNumber(d) == wanted && d != ending.codes[0] ==>
                   Less(ending.codes[0], d)
            else ending == Ended(NoData, [])
  {
    if EndedAtFirst(codes, wanted, ending) {
      var i :| 0 <= i < |codes| && EndedWith(codes[i], wanted, ending) && NotBefore(codes, wanted, i);
      assert codes[i] in devices;
      forall d | d in devices && SerialNumber(d) == wanted && d != codes[i] ensures Less(codes[i], d) {
        var j :| 0 <= j < |codes| && codes[j] == d;
        assert i < j;
      }
    } else {
      forall d | d in devices ensures SerialNumber(d) != wanted {
        var j :| 0 <= j < |codes| && codes[j] == d;
      }
    }
  }

  // ---- All sets ----

  /** OK for `n` replies, and then the same for ever. */
  ghost predicate RepliesThen(replies: nat -> Reply, n: nat, end: Kind) {
    forall k: nat :: Answers(if k < n then Hit else end, replies(k))
  }

  lemma DeviceReplies(devices: set<Code>) returns (n: nat)
    requires AllValid(devices)
    ensures RepliesThen(Replies(devices), n, EndOf(FateOfDevices(devices)))
  {
    n := FateAnswers(devices);
    forall k: nat ensures Answers(if k < n then Hit else EndOf(FateOfDevices(devices)), Replies(devices)(k)) {
    }
  }

  /** Some reply is a code with the serial number. */
  ghost predicate Occurs(replies: nat -> Reply, wanted: seq<Byte>) {
    exists k: nat :: Carries(replies(k), wanted)
  }

  predicate Carries(reply: Reply, wanted: seq<Byte>) {
    Answers(Hit, reply) && SerialNumber(reply.code) == wanted
  }

  /** Some device that scanning can find has the serial number. */
  ghost predicate CanFind(devices: set<Code>, wanted: seq<Byte>)
    requires devices != {}
  {
    exists d :: Findable(devices, d) && SerialNumber(d) == wanted
  }

  /** Whether the serial number ever occurs is decided by the devices. */
  lemma OccursExactly(devices: set<Code>, wanted: seq<Byte>)
    requires AllValid(devices)
    ensures Occurs(Replies(devices), wanted) <==> CanFind(devices, wanted)
  {
    if Occurs(Replies(devices), wanted) {
      var k: nat :| Carries(Replies(devices)(k), wanted);
      var d := ReplyAt(devices, k).code;
      assert ReplyAt(devices, k) == Return(OK, d);
      ReportedExactly(devices, d);
    }
    if d :| Findable(devices, d) && SerialNumber(d) == wanted {
      ReportedExactly(devices, d);
      var k :| ReplyAt(devices, k) == Return(OK, d);
      assert Carries(Replies(devices)(k), wanted);
    }
  }

  /** The search ended with a reply of that serial number. */
  ghost predicate EndedAt(replies: nat -> Reply, wanted: seq<Byte>, ending: Ending) {
    exists k: nat :: Carries(replies(k), wanted) && ending == Ended(OK, [replies(k).code])
  }

  /** The search ended with a device that has the serial number and can be found. */
  ghost predicate EndedFound(devices: set<Code>, wanted: seq<Byte>, ending: Ending)
    requires devices != {}
  {
    exists d :: Findable(devices, d) && EndedWith(d, wanted, ending)
  }

  lemma FoundAt(devices: set<Code>, wanted: seq<Byte>, ending: Ending)
    requires AllValid(devices) && EndedAt(Replies(devices), wanted, ending)
    ensures EndedFound(devices, wanted, ending)
  {
    var k: nat :| Carries(Replies(devices)(k), wanted) && ending == Ended(OK, [Replies(devices)(k).code]);
    var d := ReplyAt(devices, k).code;
    assert ReplyAt(devices, k) == Return(OK, d);
    ReportedExactly(devices, d);
    assert EndedWith(d, wanted, ending);
  }

  function Missed(end: Kind): Ending {
    match end
    case Hit => Unfinished
    case Done => Ended(NoData, [])
    case Crash => Crashed
  }

  lemma {:induction false} FindMisses(replies: nat -> Reply, n: nat, end: Kind, wanted: seq<Byte>, k: nat, fuel: nat)
    requires RepliesThen(replies, n, end) && !Occurs(replies, wanted)
    ensures Find(replies, wanted, k, fuel) == if k + fuel <= n || fuel == 0 then Unfinished else Missed(end)
    decreases fuel
  {
    if fuel > 0 {
      assert Answers(if k < n then Hit else end, replies(k));
      FindMisses(replies, n, end, wanted, k + 1, fuel - 1);
      assert !Carries(replies(k), wanted);
    }
  }

  lemma {:induction false} FindHits(replies: nat -> Reply, wanted: seq<Byte>, k: nat, at: nat, fuel: nat)
    requires k <= at < k + fuel && Carries(replies(at), wanted)
    requires forall i :: k <= i <= at ==> Answers(Hit, replies(i))
    ensures EndedAt(replies, wanted, Find(replies, wanted, k, fuel))
    decreases fuel
  {
    assert Answers(Hit, replies(k));
    if SerialNumber(replies(k).code) == wanted {
      assert Carries(replies(k), wanted);
    } else {
      FindHits(replies, wanted, k + 1, at, fuel - 1);
    }
  }

  /** Before a later reply with OK all replies are OK. */
  lemma HitsBefore(replies: nat -> Reply, n: nat, end: Kind, at: nat)
    requires RepliesThen(replies, n, end) && Answers(Hit, replies(at))
    ensures forall i: nat :: i <= at ==> Answers(Hit, replies(i))
  {
    assert Answers(if at < n then Hit else end, replies(at));
    forall i: nat | i <= at ensures Answers(Hit, replies(i)) {
      assert Answers(if i < n then Hit else end, replies(i));
    }
  }

  lemma SearchEnds(devices: set<Code>, wanted: seq<Byte>) returns (n: nat)
    requires AllValid(devices)
    ensures forall fuel :: fuel > n ==>
              var ending := Find(Replies(devices), wanted, 0, fuel);
              if Occurs(Replies(devices), wanted) then EndedAt(Replies(devices), wanted, ending)
              else ending == Missed(EndOf(FateOfDevices(devices)))
  {
    var replies, end := Replies(devices), EndOf(FateOfDevices(devices));
    n := DeviceReplies(devices);
    if Occurs(replies, wanted) {
      var at: nat :| Carries(replies(at), wanted);
      HitsBefore(replies, n, end, at);
      forall fuel | fuel > at ensures EndedAt(replies, wanted, Find(replies, wanted, 0, fuel)) {
        FindHits(replies, wanted, 0, at, fuel);
      }
      n := at;
    } else {
      forall fuel | fuel > n ensures Find(replies, wanted, 0, fuel) == Missed(end) {
        FindMisses(replies, n, end, wanted, 0, fuel);
      }
    }
  }

  /** How the search goes on any set of valid devices: it ends with a device that has the serial number if and only if
      scanning can find one, and otherwise it ends as scanning does, so it never ends on an endless set. */
  lemma FindRomCodeEnds(devices: set<Code>, wanted: seq<Byte>) returns (n: nat)
    requires AllValid(devices)
    ensures forall fuel :: fuel > n ==>
              var ending := Find(Replies(devices), wanted, 0, fuel);
              if CanFind(devices, wanted) then EndedFound(devices, wanted, ending)
              else ending == Missed(EndOf(FateOfDevices(devices)))
  {
    n := SearchEnds(devices, wanted);
    OccursExactly(devices, wanted);
    forall fuel | fuel > n && CanFind(devices, wanted)
      ensures EndedFound(devices, wanted, Find(Replies(devices), wanted, 0, fuel))
    {
      FoundAt(devices, wanted, Find(Replies(devices), wanted, 0, fuel));
    }
  }

  ghost predicate NeverEnds(replies: nat -> Reply, wanted: seq<Byte>) {
    forall fuel :: Find(replies, wanted, 0, fuel) == Unfinished
  }

  lemma NeverEndsWhen(replies: nat -> Reply, n: nat, wanted: seq<Byte>)
    requires RepliesThen(replies, n, Hit) && !Occurs(replies, wanted)
    ensures NeverEnds(replies, wanted)
  {
    forall fuel ensures Find(replies, wanted, 0, fuel) == Unfinished {
      FindMisses(replies, n, Hit, wanted, 0, fuel);
    }
  }

  lemma EndsUnless(devices: set<Code>, wanted: seq<Byte>)
    requires AllValid(devices) && NeverEnds(Replies(devices), wanted)
    ensures FateOfDevices(devices).Endless? && !Occurs(Replies(devices), wanted)
  {
    var n := SearchEnds(devices, wanted);
    var ending := Find(Replies(devices), wanted, 0, n + 1);
    assert ending == Unfinished;
  }

  /** The search never ends exactly when scanning never ends and can find no device with the serial number. */
  lemma FindNeverEnds(devices: set<Code>, wanted: seq<Byte>)
    requires AllValid(devices)
    ensures NeverEnds(Replies(devices), wanted) <==> FateOfDevices(devices).Endless? && !CanFind(devices, wanted)
  {
    OccursExactly(devices, wanted);
    if NeverEnds(Replies(devices), wanted) {
      EndsUnless(devices, wanted);
    } else if FateOfDevices(devices).Endless? && !Occurs(Replies(devices), wanted) {
      var n := DeviceReplies(devices);
      NeverEndsWhen(Replies(devices), n, wanted);
    }
  }

  /** The codes of the replies from the `k`-th on. */
  function CodesOf(replies: nat -> Reply, k: nat, count: nat): (codes: seq<Code>)
    requires forall i :: k <= i < k + count ==> replies(i).Return?
    ensures |codes| == count
  {
    seq(count, i requires 0 <= i < count => replies(k + i).code)
  }

  lemma {:induction false} ListThen(replies: nat -> Reply, n: nat, end: Kind, k: nat, fuel: nat, room: nat)
    requires RepliesThen(replies, n, end) && k <= n && (n < k + fuel || room < fuel)
    requires end == Hit ==> room < fuel && k + room <= n
    requires forall i :: k <= i < n ==> replies(i).Return?
    ensures List(replies, k, fuel, room)
         == if k + room < n || end == Hit then Ended(NoMem, CodesOf(replies, k, room))
            else if end == Crash then Crashed
            else Ended(OK, CodesOf(replies, k, n - k))
    decreases fuel
  {
    assert Answers(if k < n then Hit else end, replies(k));
    ListStep(replies, k, fuel, room, [], replies(k));
    if k < n && room > 0 {
      ListThen(replies, n, end, k + 1, fuel - 1, room - 1);
    }
  }

  lemma ListWhole(replies: nat -> Reply, codes: seq<Code>, fuel: nat, room: nat)
    requires Lists(replies, codes) && |codes| < fuel
    ensures List(replies, 0, fuel, room) == if |codes| <= room then Ended(OK, codes) else Ended(NoMem, codes[..room])
  {
    var n := |codes|;
    forall k: nat ensures Answers(if k < n then Hit else Done, replies(k)) {
      assert replies(k) == if k < |codes| then Return(OK, codes[k]) else Return(NoData, Partial([]));
    }
    assert forall i :: 0 <= i < n ==> replies(i) == Return(OK, codes[i]);
    ListThen(replies, n, Done, 0, fuel, room);
    assert CodesOf(replies, 0, n) == codes;
    assert n > room ==> CodesOf(replies, 0, room) == codes[..room];
  }

  /** On a left comb of valid codes the listing ends within one scan more than there are devices, with all devices in
      increasing order, or out of memory exactly when there are more devices than room. */
  lemma ScanRomCodesLists(devices: set<Code>, fuel: nat, room: nat)
    requires AllValid(devices) && LeftComb(devices) && fuel > |devices|
    ensures |Order(devices)| == |devices|
    ensures List(Replies(devices), 0, fuel, room)
         == if |devices| <= room then Ended(OK, Order(devices)) else Ended(NoMem, Order(devices)[..room])
  {
    CombLists(devices);
    ListWhole(Replies(devices), Order(devices), fuel, room);
  }

  /** The first replies hold exactly the codes that are ever reported. */
  lemma ListedIsReported(devices: set<Code>, n: nat, end: Kind, d: Code)
    requires RepliesThen(Replies(devices), n, end) && end != Hit
    requires forall i: nat :: i < n ==> Replies(devices)(i).Return?
    ensures d in CodesOf(Replies(devices), 0, n) <==> Reported(devices, d)
  {
    var replies, codes := Replies(devices), CodesOf(Replies(devices), 0, n);
    if d in codes {
      var i :| 0 <= i < n && codes[i] == d;
      assert Answers(if i < n then Hit else end, replies(i));
      assert ReplyAt(devices, i) == Return(OK, d);
    }
    if Reported(devices, d) {
      var k: nat :| ReplyAt(devices, k) == Return(OK, d);
      assert Answers(if k < n then Hit else end, replies(k));
      assert codes[k] == d;
    }
  }

  /** The list has all devices that scanning can find, which are all devices exactly on complete sets. */
  ghost predicate ListsFindable(devices: set<Code>, codes: seq<Code>)
    requires devices != {}
  {
    && (forall d: Code :: d in codes <==> Findable(devices, d))
    && (FateOfDevices(devices).Complete? <==> forall d :: d in devices ==> d in codes)
  }

  lemma CompleteLists(devices: set<Code>, n: nat)
    requires AllValid(devices) && RepliesThen(Replies(devices), n, EndOf(FateOfDevices(devices)))
    requires EndOf(FateOfDevices(devices)) == Done
    requires forall i: nat :: i < n ==> Replies(devices)(i).Return?
    ensures ListsFindable(devices, CodesOf(Replies(devices), 0, n))
  {
    forall d: Code
      ensures d in CodesOf(Replies(devices), 0, n) <==> Findable(devices, d)
      ensures d in CodesOf(Replies(devices), 0, n) <==> Reported(devices, d)
    {
      ListedIsReported(devices, n, Done, d);
      ReportedExactly(devices, d);
    }
    ScanningEnds(devices);
  }

  lemma HitsReturn(replies: nat -> Reply, n: nat, end: Kind)
    requires RepliesThen(replies, n, end)
    ensures forall i: nat :: i < n ==> replies(i).Return?
  {
    forall i: nat | i < n ensures replies(i).Return? {
      assert Answers(if i < n then Hit else end, replies(i));
    }
  }

  lemma HitsForever(replies: nat -> Reply, n: nat, m: nat)
    requires RepliesThen(replies, n, Hit)
    ensures RepliesThen(replies, m, Hit)
  {
    forall k: nat ensures Answers(if k < m then Hit else Hit, replies(k)) {
      assert Answers(if k < n then Hit else Hit, replies(k));
    }
  }

  /** What the listing comes to after `n` replies with OK, followed by `end` for ever. */
  ghost predicate ListingIs(replies: nat -> Reply, n: nat, end: Kind, room: nat, ending: Ending) {
    if n > room || end == Hit then Full(room, ending)
    else if end == Crash then ending.Crashed?
    else (forall i: nat :: i < n ==> replies(i).Return?) && ending == Ended(OK, CodesOf(replies, 0, n))
  }

  lemma ListFirst(replies: nat -> Reply, n: nat, end: Kind, fuel: nat, room: nat)
    requires RepliesThen(replies, n, end) && n < fuel && (end == Hit ==> n == room)
    ensures ListingIs(replies, n, end, room, List(replies, 0, fuel, room))
  {
    HitsReturn(replies, n, end);
    ListThen(replies, n, end, 0, fuel, room);
  }

  /** The listing has reached the room limit. */
  predicate Full(room: nat, ending: Ending) {
    ending.Ended? && ending.status == NoMem && |ending.codes| == room
  }

  /** How a listing that started with `n` replies with OK ends on these devices. */
  ghost predicate ListingEnds(devices: set<Code>, n: nat, room: nat, ending: Ending)
    requires devices != {}
  {
    match FateOfDevices(devices)
    case Endless => Full(room, ending)
    case Crashing => if n > room then Full(room, ending) else ending.Crashed?
    case _ =>
      if n > room then Full(room, ending)
      else ending.Ended? && ending.status == OK && |ending.codes| == n && ListsFindable(devices, ending.codes)
  }

  lemma EndsAsListed(devices: set<Code>, n: nat, room: nat, ending: Ending)
    requires AllValid(devices) && RepliesThen(Replies(devices), n, EndOf(FateOfDevices(devices)))
    requires ListingIs(Replies(devices), n, EndOf(FateOfDevices(devices)), room, ending)
    ensures ListingEnds(devices, n, room, ending)
  {
    if EndOf(FateOfDevices(devices)) == Done && n <= room {
      CompleteLists(devices, n);
    }
  }

  /** How the listing goes on any set of valid devices. With `n` replies before scanning ends it reaches the room limit
      if there is room for fewer, and always on an endless set; otherwise it ends with OK and the `n` codes, which hold
      all devices exactly on left combs, or in the failed assertion. */
  lemma ScanRomCodesEnds(devices: set<Code>, room: nat) returns (n: nat)
    requires AllValid(devices)
    ensures forall fuel :: fuel > n ==> ListingEnds(devices, n, room, List(Replies(devices), 0, fuel, room))
  {
    var end := EndOf(FateOfDevices(devices));
    n := DeviceReplies(devices);
    if end == Hit {
      HitsForever(Replies(devices), n, room);
      n := room;
    }
    forall fuel | fuel > n ensures ListingEnds(devices, n, room, List(Replies(devices), 0, fuel, room)) {
      ListFirst(Replies(devices), n, end, fuel, room);
      EndsAsListed(devices, n, room, List(Replies(devices), 0, fuel, room));
    }
  }

  // ---- Devices with invalid codes, and none ----

  /** Without a device both loops end with Error at once. */
  lemma NobodyThere(wanted: seq<Byte>, fuel: nat, room: nat)
    requires fuel > 0
    ensures Find(Replies({}), wanted, 0, fuel) == Ended(Error, [])
    ensures List(Replies({}), 0, fuel, room) == Ended(Error, [])
  {
    NobodyAnswers(0);
  }

  /** All these codes are those of devices and pass the check. */
  predicate AllGenuine(devices: set<Code>, codes: seq<Code>) {
    forall i :: 0 <= i < |codes| ==> codes[i] in devices && Checked(codes[i])
  }

  ghost predicate OnlyGenuine(devices: set<Code>, replies: nat -> Reply) {
    forall k: nat :: Genuine(devices, replies(k))
  }

  lemma RepliesAreGenuine(devices: set<Code>)
    ensures OnlyGenuine(devices, Replies(devices))
  {
    forall k: nat ensures Genuine(devices, Replies(devices)(k)) {
      RunIsGenuine(devices, Alive(FRESH), k);
    }
  }

  lemma {:induction false} FindKeepsGenuine(devices: set<Code>, replies: nat -> Reply, wanted: seq<Byte>, k: nat,
                                            fuel: nat)
    requires OnlyGenuine(devices, replies)
    ensures var ending := Find(replies, wanted, k, fuel);
            ending.Ended? ==>
              AllGenuine(devices, ending.codes) && |ending.codes| == if ending.status == OK then 1 else 0
    decreases fuel
  {
    if fuel > 0 {
      assert Genuine(devices, replies(k));
      FindKeepsGenuine(devices, replies, wanted, k + 1, fuel - 1);
    }
  }

  lemma {:induction false} ListKeepsGenuine(devices: set<Code>, replies: nat -> Reply, k: nat, fuel: nat, room: nat)
    requires OnlyGenuine(devices, replies)
    ensures var ending := List(replies, k, fuel, room);
            ending.Ended? ==> AllGenuine(devices, ending.codes)
    decreases fuel
  {
    if fuel > 0 {
      assert Genuine(devices, replies(k));
      if room > 0 {
        ListKeepsGenuine(devices, replies, k + 1, fuel - 1, room - 1);
      }
    }
  }

  /** Whatever is on the bus, and however the loops end: the search ends with OK only on a device whose code passes the
      check, and the listing lists only such devices. */
  lemma LoopsAreGenuine(devices: set<Code>, wanted: seq<Byte>, fuel: nat, room: nat)
    ensures var found := Find(Replies(devices), wanted, 0, fuel);
            found.Ended? ==>
              AllGenuine(devices, found.codes) && |found.codes| == if found.status == OK then 1 else 0
    ensures var listed := List(Replies(devices), 0, fuel, room);
            listed.Ended? ==> AllGenuine(devices, listed.codes)
  {
    RepliesAreGenuine(devices);
    FindKeepsGenuine(devices, Replies(devices), wanted, 0, fuel);
    ListKeepsGenuine(devices, Replies(devices), 0, fuel, room);
  }

  /** The `k`-th pick on these devices is the first whose code fails the check. */
  ghost predicate FirstInvalid(devices: set<Code>, k: nat)
    requires devices != {}
  {
    && !Passes(devices, Run(Digest(SkeletonOf(devices)), Alive(FRESH), k))
    && forall j: nat :: j < k ==> Accepted(CodeAt(devices, j))
  }

  /** A code that passes the check. */
  predicate Accepted(reply: Reply) {
    reply.Return? && reply.status == OK && Checked(reply.code)
  }

  /** What the `k`-th pick stands for. */
  function CodeAt(devices: set<Code>, k: nat): Reply
    requires devices != {}
  {
    ReplyOf(devices, Run(Digest(SkeletonOf(devices)), Alive(FRESH), k))
  }

  lemma BeforeInvalid(devices: set<Code>, k: nat, j: nat)
    requires devices != {} && FirstInvalid(devices, k) && j <= k
    ensures Replies(devices)(j).Return? && Replies(devices)(j).status == (if j < k then OK else Error)
    ensures Replies(devices)(j).code == CodeAt(devices, j).code
  {
    forall i: nat | i < j ensures Passes(devices, Run(Digest(SkeletonOf(devices)), Alive(FRESH), i)) {
      assert Accepted(CodeAt(devices, i));
    }
    RepliesUntilInvalid(devices, j);
    if j < k {
      assert Accepted(CodeAt(devices, j));
    }
  }

  /** OK for `n` replies, and then Error. */
  ghost predicate FailsAt(replies: nat -> Reply, n: nat) {
    forall j: nat :: j <= n ==> replies(j).Return? && replies(j).status == if j < n then OK else Error
  }

  lemma {:induction false} FindToError(replies: nat -> Reply, n: nat, wanted: seq<Byte>, k: nat, fuel: nat)
    requires FailsAt(replies, n) && k <= n < k + fuel
    requires forall j :: k <= j < n ==> SerialNumber(replies(j).code) != wanted
    ensures Find(replies, wanted, k, fuel) == Ended(Error, [])
    decreases fuel
  {
    if k < n {
      FindToError(replies, n, wanted, k + 1, fuel - 1);
    }
  }

  lemma {:induction false} ListToError(replies: nat -> Reply, n: nat, k: nat, fuel: nat, room: nat)
    requires FailsAt(replies, n) && k <= n < k + fuel
    ensures List(replies, k, fuel, room)
         == if k + room < n then Ended(NoMem, CodesOf(replies, k, room)) else Ended(Error, CodesOf(replies, k, n - k))
    decreases fuel
  {
    ListStep(replies, k, fuel, room, [], replies(k));
    if k < n && room > 0 {
      ListToError(replies, n, k + 1, fuel - 1, room - 1);
    }
  }

  /** A device whose code fails the check ends both loops when its turn comes: the listing with Error, after the codes
      before it, and the search with Error unless one of those has the serial number. */
  lemma InvalidEndsLoops(devices: set<Code>, k: nat, wanted: seq<Byte>, fuel: nat, room: nat)
    requires devices != {} && FirstInvalid(devices, k) && fuel > k
    ensures (forall j: nat :: j < k ==> SerialNumber(CodeAt(devices, j).code) != wanted) ==>
              Find(Replies(devices), wanted, 0, fuel) == Ended(Error, [])
    ensures var listed := List(Replies(devices), 0, fuel, room);
            && listed.Ended? && listed.status == (if room < k then NoMem else Error)
            && |listed.codes| == (if room < k then room else k)
            && forall j :: 0 <= j < |listed.codes| ==> listed.codes[j] == CodeAt(devices, j).code
  {
    var replies := Replies(devices);
    forall j: nat | j <= k
      ensures replies(j).Return? && replies(j).status == (if j < k then OK else Error)
      ensures replies(j).code == CodeAt(devices, j).code
    {
      BeforeInvalid(devices, k, j);
    }
    assert FailsAt(replies, k);
    ListToError(replies, k, 0, fuel, room);
    if forall j: nat :: j < k ==> SerialNumber(CodeAt(devices, j).code) != wanted {
      FindToError(replies, k, wanted, 0, fuel);
    }
  }
}
