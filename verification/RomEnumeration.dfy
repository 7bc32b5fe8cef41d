/** What repeated scans with fresh buffers enumerate: all devices exactly when they form a left comb. */
module RomEnumeration {
  import opened Bits
  import opened Status
  import opened RomSearch
  import opened ScannerSkeleton
  import opened RomPasses
  import Crc

  // ---- One scan ----

  /** The bytes of a ROM code: family code, six bytes of serial number, CRC. */
  function BytesOf(code: Code): (bytes: seq<Byte>)
    ensures |bytes| == 8
  {
    seq(8, i requires 0 <= i < 8 => code[8 * i..8 * i + 8])
  }

  lemma BytesOfBits(bytes: seq<Byte>)
    requires |bytes| == 8
    ensures BytesOf(BitsOf(bytes)) == bytes
  {
    forall i | 0 <= i < 8 ensures BitsOf(bytes)[8 * i..8 * i + 8] == bytes[i] {
    }
  }

  predicate ValidCode(code: Code) {
    Crc.Valid(BytesOf(code))
  }

  /** What scan returns and leaves in the caller's buffer, or a failed configASSERT. */
  datatype Reply = Return(status: StatusCode, code: Code) | Halt

  /** One call of scan on a fixed set of devices. Without a device there is no presence pulse. */
  function Scan(s: Scanner, devices: set<Code>, buf: Code): (Reply, Scanner)
    requires s.prev < 64
  {
    if s.finished then (Return(NoData, buf), s)
    else if devices == {} then (Return(Error, buf), s)
    else
      match Pass(s, devices, buf, 0)
      case Aborted => (Halt, s)
      case Silent(s', left) => (Return(NoData, left), s')
      case Found(s', code) =>
        if !ValidCode(code) then (Return(Error, code), s')
        else (Return(OK, code), if s'.conflicts == 0 then s'.(finished := true) else s')
  }

  /** One scan of a fixed set of devices with a fresh buffer. */
  function Scans(devices: set<Code>): Machine -> (Reply, Machine) {
    (m: Machine) =>
      if m.Dead? || m.scanner.prev >= 64 then (Halt, Dead)
      else if Scan(m.scanner, devices, Partial([])).0.Halt? then (Halt, Dead)
      else (Scan(m.scanner, devices, Partial([])).0, Alive(Scan(m.scanner, devices, Partial([])).1))
  }

  /** The `k`-th reply of a scanner that starts afresh. */
  function ReplyAt(devices: set<Code>, k: nat): Reply {
    Run(Scans(devices), Alive(FRESH), k)
  }

  ghost predicate AllValid(devices: set<Code>) {
    devices != {} && forall d :: d in devices ==> ValidCode(d)
  }

  /** What a pick reports on the actual devices. */
  function ReplyOf(devices: set<Code>, pick: Pick): Reply
    requires devices != {}
  {
    match pick
    case Smallest => Return(OK, First(devices))
    case Behind(p) => if Split(devices, First(devices), p) then Return(OK, Branch(devices, p)) else Halt
    case NoMore => Return(NoData, Partial([]))
    case Stopped => Halt
  }

  // ---- Any devices, with valid codes or not ----

  /** The last byte of the code is the CRC of the seven before it. */
  predicate Checked(code: Code) {
    Crc.Register(Crc.LSB, Crc.DALLAS_POLYNOMIAL, ZERO, BytesOf(code)[..7]) == BytesOf(code)[7]
  }

  /** How a scan ends that has made a pass. */
  predicate ScanEnds(devices: set<Code>, pass: Outcome, reply: Reply, next: Scanner) {
    match pass
    case Aborted => reply == Halt
    case Silent(_, _) => false
    case Found(t, code) =>
      && code in devices && !t.finished
      && reply == Return(if Checked(code) then OK else Error, code)
      && next == t.(finished := Checked(code) && t.conflicts == 0)
  }

  /** What a scan does on any set of devices, from any state and with any buffer: nothing after it has finished, Error
      on an empty bus, a failed assertion where the pass fails one; and otherwise it ends on a device, with OK exactly
      if the code of that device passes the check of its CRC byte, and then it has finished if no conflict is left. */
  lemma ScanTells(s: Scanner, devices: set<Code>, buf: Code)
    requires s.prev < 64
    ensures var scan := Scan(s, devices, buf);
            if s.finished then scan == (Return(NoData, buf), s)
            else if devices == {} then scan == (Return(Error, buf), s)
            else ScanEnds(devices, Pass(s, devices, buf, 0), scan.0, scan.1)
  {
    MatchAll(devices);
    assert buf[..0] == [];
    if devices != {} {
      PassFindsADevice(s, devices, buf, 0);
      PassKeepsFinished(s, devices, buf, 0);
    }
  }

  lemma {:induction false} PassKeepsFinished(s: Scanner, active: set<Code>, buf: Code, n: nat)
    requires n <= 64 && s.prev < 64
    ensures var outcome := Pass(s, active, buf, n);
            outcome.Found? ==> outcome.scanner.finished == s.finished
    decreases 64 - n
  {
    if n < 64 && !(AllOnes(active, n) && AllZeros(active, n)) {
      if !AllOnes(active, n) && !AllZeros(active, n) {
        match HandleDiscrepancy(s, buf, n)
        case Halted =>
        case Take(bit, t) => PassKeepsFinished(t, Keep(active, n, bit), buf[n := bit], n + 1);
      } else {
        PassKeepsFinished(s, Keep(active, n, AllOnes(active, n)), buf[n := AllOnes(active, n)], n + 1);
      }
    }
  }

  predicate Genuine(devices: set<Code>, reply: Reply) {
    reply.Return? && reply.status == OK ==> reply.code in devices && Checked(reply.code)
  }

  lemma {:induction false} RunIsGenuine(devices: set<Code>, m: Machine, k: nat)
    ensures Genuine(devices, Run(Scans(devices), m, k))
    decreases k
  {
    if m.Alive? && m.scanner.prev < 64 {
      ScanTells(m.scanner, devices, Partial([]));
    }
    if k > 0 {
      RunIsGenuine(devices, Scans(devices)(m).1, k - 1);
    }
  }

  /** Whatever is on the bus, a code that is reported with OK is that of a device and passes the check. */
  lemma OkIsGenuine(devices: set<Code>, k: nat)
    requires ReplyAt(devices, k).Return? && ReplyAt(devices, k).status == OK
    ensures ReplyAt(devices, k).code in devices && Checked(ReplyAt(devices, k).code)
  {
    RunIsGenuine(devices, Alive(FRESH), k);
  }

  /** On an empty bus every scan ends with Error. */
  lemma NobodyAnswers(k: nat)
    ensures ReplyAt({}, k) == Return(Error, Partial([]))
  {
    ScanTells(FRESH, {}, Partial([]));
    assert Scans({})(Alive(FRESH)) == (Return(Error, Partial([])), Alive(FRESH));
    RunFixed(Scans({}), Alive(FRESH), k);
  }

  /** What a pick reports when the code is checked. */
  function CheckedReply(devices: set<Code>, pick: Pick): Reply
    requires devices != {}
  {
    var reply := ReplyOf(devices, pick);
    if reply.Return? && reply.status == OK && !Checked(reply.code) then Return(Error, reply.code) else reply
  }

  lemma FreshScan(devices: set<Code>, s: Scanner)
    requires devices != {} && Steady(s, SkeletonOf(devices)) && !s.finished
    ensures Trips(s, SkeletonOf(devices)) ==> Scan(s, devices, Partial([])).0 == Halt
    ensures !Trips(s, SkeletonOf(devices)) ==>
              var t := AfterFresh(s, SkeletonOf(devices));
              var found := if Split(devices, First(devices), s.curr) then Branch(devices, s.curr) else First(devices);
              Scan(s, devices, Partial([]))
              == if !Checked(found) then (Return(Error, found), t)
                 else (Return(OK, found), if t.conflicts == 0 then t.(finished := true) else t)
  {
    FreshPass(s, devices);
    var found := if Split(devices, First(devices), s.curr) then Branch(devices, s.curr) else First(devices);
    if !Trips(s, SkeletonOf(devices)) {
      ScanOfFound(s, devices, Partial([]), AfterFresh(s, SkeletonOf(devices)), found);
    }
  }

  lemma ScanOfFound(s: Scanner, devices: set<Code>, buf: Code, t: Scanner, code: Code)
    requires s.prev < 64 && !s.finished && code in devices && Pass(s, devices, buf, 0) == Found(t, code)
    ensures Scan(s, devices, buf)
         == if !Checked(code) then (Return(Error, code), t)
            else (Return(OK, code), if t.conflicts == 0 then t.(finished := true) else t)
  {
  }

  lemma ScanIsDigest(devices: set<Code>, s: Scanner)
    requires devices != {} && Steady(s, SkeletonOf(devices))
    ensures Scans(devices)(Alive(s)).0 == CheckedReply(devices, Digest(SkeletonOf(devices))(Alive(s)).0)
    ensures Passes(devices, Digest(SkeletonOf(devices))(Alive(s)).0) ==>
              Scans(devices)(Alive(s)).1 == Digest(SkeletonOf(devices))(Alive(s)).1
    ensures InOrder(devices, Digest(SkeletonOf(devices))(Alive(s)).1)
  {
    if !s.finished {
      FreshScan(devices, s);
      if !Trips(s, SkeletonOf(devices)) {
        FreshStaysSteady(s, SkeletonOf(devices));
      }
    }
  }

  predicate InOrder(devices: set<Code>, m: Machine)
    requires devices != {}
  {
    m.Alive? ==> Steady(m.scanner, SkeletonOf(devices))
  }

  /** The pick at a scan is a code that passes the check, or no code. */
  predicate Passes(devices: set<Code>, pick: Pick)
    requires devices != {}
  {
    CheckedReply(devices, pick) == ReplyOf(devices, pick)
  }

  lemma {:induction false} RunIsPicks(devices: set<Code>, m: Machine, k: nat)
    requires devices != {} && InOrder(devices, m)
    requires forall j: nat :: j < k ==> Passes(devices, Run(Digest(SkeletonOf(devices)), m, j))
    ensures Run(Scans(devices), m, k) == CheckedReply(devices, Run(Digest(SkeletonOf(devices)), m, k))
    decreases k
  {
    var step := Digest(SkeletonOf(devices));
    if m.Alive? {
      ScanIsDigest(devices, m.scanner);
    }
    if k > 0 {
      assert Passes(devices, Run(step, m, 0));
      forall j: nat | j < k - 1 ensures Passes(devices, Run(step, step(m).1, j)) {
        assert Run(step, step(m).1, j) == Run(step, m, j + 1);
      }
      RunIsPicks(devices, step(m).1, k - 1);
    }
  }

  /** On any devices scanning is what the bookkeeping over discrepancies says, until the first code that fails the
      check, which is reported with Error. */
  lemma RepliesUntilInvalid(devices: set<Code>, k: nat)
    requires devices != {}
    requires forall j: nat :: j < k ==> Passes(devices, Run(Digest(SkeletonOf(devices)), Alive(FRESH), j))
    ensures ReplyAt(devices, k) == CheckedReply(devices, Run(Digest(SkeletonOf(devices)), Alive(FRESH), k))
  {
    RunIsPicks(devices, Alive(FRESH), k);
  }

  lemma AllPass(devices: set<Code>, pick: Pick)
    requires AllValid(devices)
    ensures Passes(devices, pick)
  {
    var reply := ReplyOf(devices, pick);
    assert reply.Return? && reply.status == OK ==> reply.code in devices && ValidCode(reply.code);
  }

  /** Scanning is what the bookkeeping over discrepancies says. */
  lemma RepliesArePicks(devices: set<Code>, k: nat)
    requires AllValid(devices)
    ensures ReplyAt(devices, k) == ReplyOf(devices, Run(Digest(SkeletonOf(devices)), Alive(FRESH), k))
  {
    forall pick ensures Passes(devices, pick) {
      AllPass(devices, pick);
    }
    RepliesUntilInvalid(devices, k);
  }

  // ---- Where codes differ ----

  /** Where two different codes first differ. */
  function FirstDiff(a: Code, b: Code): (n: nat)
    requires a != b
    ensures n < 64 && a[..n] == b[..n] && a[n] != b[n]
    ensures forall i :: 0 <= i < n ==> a[i] == b[i]
  {
    FirstDiffFrom(a, b, 0)
  }

  function FirstDiffFrom(a: Code, b: Code, n: nat): (diff: nat)
    requires a != b && n <= 64 && a[..n] == b[..n]
    ensures n <= diff < 64 && a[..diff] == b[..diff] && a[diff] != b[diff]
    ensures forall i :: 0 <= i < diff ==> a[i] == b[i]
    decreases 64 - n
  {
    PrefixIsShort(a, b, n);
    assert a[n] == b[n] ==> a[..n + 1] == a[..n] + [a[n]] == b[..n + 1];
    assert forall i :: 0 <= i < n ==> a[i] == a[..n][i] == b[..n][i] == b[i];
    if a[n] != b[n] then n else FirstDiffFrom(a, b, n + 1)
  }

  lemma PrefixIsShort(a: Code, b: Code, n: nat)
    requires a != b && n <= 64 && a[..n] == b[..n]
    ensures n < 64
  {
    assert a[..64] == a;
    assert b[..64] == b;
  }

  /** Two devices make a discrepancy where they first differ. */
  lemma DiffIsSplit(devices: set<Code>, a: Code, b: Code)
    requires a in devices && b in devices && a != b
    ensures Split(devices, a, FirstDiff(a, b))
  {
    var n := FirstDiff(a, b);
    assert a[..n + 1] == a[..n] + [a[n]] && b[..n + 1] == a[..n] + [b[n]];
    assert a in Match(devices, a[..n] + [a[n]]) && b in Match(devices, a[..n] + [b[n]]);
  }

  // ---- Left combs ----

  /** Every device but the smallest first differs from it at a position of its own. */
  ghost predicate LeftComb(devices: set<Code>)
    requires devices != {}
  {
    forall x, y :: x in devices && y in devices && x != First(devices) && y != First(devices) && x != y ==>
      FirstDiff(First(devices), x) != FirstDiff(First(devices), y)
  }

  lemma DiffIs(a: Code, b: Code, p: nat)
    requires p < 64 && a[..p] == b[..p] && a[p] != b[p]
    ensures a != b && FirstDiff(a, b) == p
  {
    forall i | 0 <= i < p ensures a[i] == b[i] {
      assert a[..p][i] == b[..p][i];
    }
  }

  lemma DiffersAt(devices: set<Code>, d: Code, p: nat)
    requires devices != {} && p < 64 && Split(devices, First(devices), p)
    requires d in devices && First(devices)[..p] + [true] <= d
    ensures d != First(devices) && FirstDiff(First(devices), d) == p
  {
    var c := First(devices);
    MatchAll(devices);
    LowIsLeftmost(devices, []);
    var w := c[..p] + [true];
    assert d[p] == w[p] && !c[p];
    assert d[..p] == d[..p + 1][..p] == w[..p] == c[..p];
    DiffIs(c, d, p);
  }

  lemma BranchOfDiff(devices: set<Code>, d: Code)
    requires devices != {} && d in devices && d != First(devices)
    ensures var p := FirstDiff(First(devices), d);
            Split(devices, First(devices), p) && First(devices)[..p] + [true] <= d
  {
    var c := First(devices);
    var p := FirstDiff(c, d);
    DiffIsSplit(devices, c, d);
    MatchAll(devices);
    LowIsLeftmost(devices, []);
    assert d[..p + 1] == d[..p] + [d[p]] == c[..p] + [true];
  }

  /** On a left comb a branch holds one device, so no further discrepancy. */
  lemma NoSplitOnBranch(devices: set<Code>, p: nat, i: nat)
    requires devices != {} && LeftComb(devices) && Split(devices, First(devices), p) && p < i < 64
    ensures !Split(devices, Branch(devices, p), i)
  {
    var branch := Branch(devices, p);
    if Split(devices, branch, i) {
      var a: Code :| a in Match(devices, branch[..i] + [false]);
      var b: Code :| b in Match(devices, branch[..i] + [true]);
      assert branch[..p + 1] == First(devices)[..p] + [true];
      assert a[..p + 1] == a[..i][..p + 1] == branch[..i][..p + 1] == branch[..p + 1];
      assert b[..p + 1] == b[..i][..p + 1] == branch[..i][..p + 1] == branch[..p + 1];
      assert a[i] == a[..i + 1][i] == false && b[i] == b[..i + 1][i] == true;
      DiffersAt(devices, a, p);
      DiffersAt(devices, b, p);
    }
  }

  /** The codes behind the discrepancies of the smallest code before position `n`, the deepest first. */
  function Branches(devices: set<Code>, n: nat): seq<Code>
    requires devices != {} && n <= 64
  {
    var p := LastSplit(SplitsAlong(devices, First(devices)), n);
    if p < 0 then [] else [Branch(devices, p)] + Branches(devices, p)
  }

  /** The order in which the scanner reports devices. */
  function Order(devices: set<Code>): seq<Code>
    requires devices != {}
  {
    [First(devices)] + Branches(devices, 64)
  }

  lemma {:induction false} BranchesArePicks(devices: set<Code>, n: nat)
    requires devices != {} && n <= 64
    ensures var picks := Picks(SplitsAlong(devices, First(devices)), n);
            && |picks| == |Branches(devices, n)|
            && forall i :: 0 <= i < |picks| ==> ReplyOf(devices, picks[i]) == Return(OK, Branches(devices, n)[i])
  {
    var p := LastSplit(SplitsAlong(devices, First(devices)), n);
    if p >= 0 {
      BranchesArePicks(devices, p);
    }
  }

  lemma {:induction false} BranchesHold(devices: set<Code>, n: nat, code: Code)
    requires devices != {} && n <= 64
    ensures code in Branches(devices, n) <==>
            exists p: nat :: p < n && Split(devices, First(devices), p) && code == Branch(devices, p)
  {
    var f := SplitsAlong(devices, First(devices));
    var last := LastSplit(f, n);
    if last >= 0 {
      BranchesHold(devices, last, code);
    }
    forall p: nat | p < n && Split(devices, First(devices), p) ensures p <= last {
      assert f(p);
    }
  }

  /** LSB-first lexicographic order. */
  predicate Less(a: Code, b: Code) {
    a != b && !a[FirstDiff(a, b)]
  }

  predicate Increasing(codes: seq<Code>) {
    forall i, j :: 0 <= i < j < |codes| ==> Less(codes[i], codes[j])
  }

  lemma DeeperIsLess(devices: set<Code>, p: nat, q: nat)
    requires devices != {} && q < p
    requires Split(devices, First(devices), p) && Split(devices, First(devices), q)
    ensures Less(Branch(devices, p), Branch(devices, q)) && Less(First(devices), Branch(devices, q))
  {
    var c, a, b := First(devices), Branch(devices, p), Branch(devices, q);
    MatchAll(devices);
    LowIsLeftmost(devices, []);
    var w := c[..q] + [true];
    assert b[q] == w[q];
    assert b[..q] == b[..q + 1][..q] == w[..q] == c[..q];
    assert a[..p] == a[..p + 1][..p] == c[..p];
    assert a[q] == a[..p][q] == c[..p][q];
    assert a[..q] == a[..p][..q] == c[..q];
    DiffIs(a, b, q);
    DiffIs(c, b, q);
  }

  lemma FirstIsLess(devices: set<Code>, q: nat)
    requires devices != {} && Split(devices, First(devices), q)
    ensures Less(First(devices), Branch(devices, q))
  {
    DiffersAt(devices, Branch(devices, q), q);
    MatchAll(devices);
    LowIsLeftmost(devices, []);
  }

  lemma BranchIsLessThanShallower(devices: set<Code>, p: nat, x: Code)
    requires devices != {} && p < 64 && Split(devices, First(devices), p) && x in Branches(devices, p)
    ensures Less(Branch(devices, p), x)
  {
    BranchesHold(devices, p, x);
    var q: nat :| q < p && Split(devices, First(devices), q) && x == Branch(devices, q);
    DeeperIsLess(devices, p, q);
  }

  lemma FirstIsLessThanAll(devices: set<Code>, x: Code)
    requires devices != {} && x in Branches(devices, 64)
    ensures Less(First(devices), x)
  {
    BranchesHold(devices, 64, x);
    var q: nat :| q < 64 && Split(devices, First(devices), q) && x == Branch(devices, q);
    FirstIsLess(devices, q);
  }

  lemma Prepend(first: Code, rest: seq<Code>)
    requires Increasing(rest) && forall x :: x in rest ==> Less(first, x)
    ensures Increasing([first] + rest)
  {
    var codes := [first] + rest;
    forall i, j | 0 <= i < j < |codes| ensures Less(codes[i], codes[j]) {
      assert codes[j] == rest[j - 1] && (i > 0 ==> codes[i] == rest[i - 1]);
    }
  }

  lemma {:induction false} BranchesIncrease(devices: set<Code>, n: nat)
    requires devices != {} && n <= 64
    ensures Increasing(Branches(devices, n))
  {
    var p := LastSplit(SplitsAlong(devices, First(devices)), n);
    if p >= 0 {
      BranchesIncrease(devices, p);
      forall x | x in Branches(devices, p) ensures Less(Branch(devices, p), x) {
        BranchIsLessThanShallower(devices, p, x);
      }
      Prepend(Branch(devices, p), Branches(devices, p));
    }
  }

  lemma OrderIncreases(devices: set<Code>)
    requires devices != {}
    ensures Increasing(Order(devices))
  {
    BranchesIncrease(devices, 64);
    forall x | x in Branches(devices, 64) ensures Less(First(devices), x) {
      FirstIsLessThanAll(devices, x);
    }
    Prepend(First(devices), Branches(devices, 64));
  }

  lemma CombDeviceIsListed(devices: set<Code>, d: Code)
    requires devices != {} && LeftComb(devices) && d in devices && d != First(devices)
    ensures d in Branches(devices, 64)
  {
    var p := FirstDiff(First(devices), d);
    BranchOfDiff(devices, d);
    DiffersAt(devices, Branch(devices, p), p);
    assert d == Branch(devices, p);
    BranchesHold(devices, 64, d);
  }

  /** On a left comb the order lists every device once, in increasing order. */
  lemma OrderListsDevices(devices: set<Code>)
    requires devices != {} && LeftComb(devices)
    ensures Increasing(Order(devices))
    ensures forall d :: d in Order(devices) <==> d in devices
    ensures |Order(devices)| == |devices|
  {
    var order := Order(devices);
    OrderIncreases(devices);
    forall d: Code ensures d in order <==> d in devices {
      BranchesHold(devices, 64, d);
      if d in devices && d != First(devices) {
        CombDeviceIsListed(devices, d);
      }
    }
    assert devices == set d | d in order;
    assert forall i, j :: 0 <= i < j < |order| ==> Less(order[i], order[j]);
    DistinctSize(order);
  }

  lemma {:induction false} DistinctSize<T>(items: seq<T>)
    requires forall i, j :: 0 <= i < j < |items| ==> items[i] != items[j]
    ensures |set x | x in items| == |items|
  {
    if items != [] {
      var n := |items| - 1;
      DistinctSize(items[..n]);
      assert (set x | x in items) == (set x | x in items[..n]) + {items[n]};
      assert items[n] !in items[..n];
    }
  }

  // ---- The theorems ----

  /** Scanning a left comb with fresh buffers: every device once, in LSB-first lexicographic order, then no more
      data for ever; no assertion fires. */
  lemma LeftCombEnumeration(devices: set<Code>, k: nat)
    requires AllValid(devices) && LeftComb(devices)
    ensures Increasing(Order(devices)) && |Order(devices)| == |devices|
    ensures forall d :: d in Order(devices) <==> d in devices
    ensures ReplyAt(devices, k) == if k < |devices| then Return(OK, Order(devices)[k]) else Return(NoData, Partial([]))
  {
    OrderListsDevices(devices);
    RepliesArePicks(devices, k);
    CombOfLeftComb(devices);
    CombRun(SkeletonOf(devices), k);
    BranchesArePicks(devices, 64);
  }

  lemma SubsetSize<T>(a: set<T>, b: set<T>)
    requires a <= b
    ensures |a| <= |b|
  {
    assert b == a + (b - a);
  }

  /** One device or two are always a left comb, so they are always found. */
  lemma TwoDevicesAreFound(devices: set<Code>)
    requires AllValid(devices) && |devices| <= 2
    ensures LeftComb(devices) && forall d :: d in devices ==> Reported(devices, d)
  {
    forall x, y | x in devices && y in devices && x != First(devices) && y != First(devices) && x != y
      ensures false
    {
      SubsetSize({First(devices), x, y}, devices);
    }
    CompleteIffLeftComb(devices);
  }

  lemma CombOfLeftComb(devices: set<Code>)
    requires devices != {} && LeftComb(devices)
    ensures Comb(SkeletonOf(devices))
  {
    var k := SkeletonOf(devices);
    forall p, i | 0 <= p < i < 64 && k.spine(p) ensures !k.branch(p)(i) {
      NoSplitOnBranch(devices, p, i);
    }
  }

  /** Whatever the devices, a scan only ever returns the smallest code or the smallest code behind one of its
      discrepancies. */
  lemma FoundIsOnTheSpine(devices: set<Code>, k: nat)
    requires AllValid(devices) && ReplyAt(devices, k).Return? && ReplyAt(devices, k).status == OK
    ensures ReplyAt(devices, k).code == First(devices) || OnTheSpine(devices, ReplyAt(devices, k).code)
  {
    RepliesArePicks(devices, k);
    PicksAreOnTheSpine(SkeletonOf(devices), Alive(FRESH), k);
    var pick := Run(Digest(SkeletonOf(devices)), Alive(FRESH), k);
    assert pick.Behind? ==> Split(devices, First(devices), pick.p);
  }

  /** The smallest code behind some discrepancy of the smallest code. */
  ghost predicate OnTheSpine(devices: set<Code>, d: Code)
    requires devices != {}
  {
    exists p :: Split(devices, First(devices), p) && d == Branch(devices, p)
  }

  /** Such a code is the only one of its kind that first differs from the smallest code where it does. */
  lemma SpineDevicesDiffer(devices: set<Code>, x: Code, y: Code)
    requires devices != {} && OnTheSpine(devices, x) && OnTheSpine(devices, y) && x != y
    ensures x != First(devices) && y != First(devices) && FirstDiff(First(devices), x) != FirstDiff(First(devices), y)
  {
    var p :| Split(devices, First(devices), p) && x == Branch(devices, p);
    var q :| Split(devices, First(devices), q) && y == Branch(devices, q);
    DiffersAt(devices, x, p);
    DiffersAt(devices, y, q);
  }

  ghost predicate Reported(devices: set<Code>, d: Code) {
    exists k :: ReplyAt(devices, k) == Return(OK, d)
  }

  /** Repeated scans with fresh buffers find all devices if and only if the devices form a left comb. */
  lemma CompleteIffLeftComb(devices: set<Code>)
    requires AllValid(devices)
    ensures (forall d :: d in devices ==> Reported(devices, d)) <==> LeftComb(devices)
  {
    if LeftComb(devices) {
      forall d | d in devices ensures Reported(devices, d) {
        LeftCombEnumeration(devices, 0);
        var k :| 0 <= k < |devices| && Order(devices)[k] == d;
        LeftCombEnumeration(devices, k);
      }
    }
    if forall d :: d in devices ==> Reported(devices, d) {
      forall x, y | x in devices && y in devices && x != First(devices) && y != First(devices) && x != y
        ensures FirstDiff(First(devices), x) != FirstDiff(First(devices), y)
      {
        var i :| ReplyAt(devices, i) == Return(OK, x);
        var j :| ReplyAt(devices, j) == Return(OK, y);
        FoundIsOnTheSpine(devices, i);
        FoundIsOnTheSpine(devices, j);
        SpineDevicesDiffer(devices, x, y);
      }
    }
  }

  /** The smallest device sets that are not left combs: one discrepancy `p` on the smallest code and one more, `r`,
      behind it. With `p` above 0 every scan from the third on returns the smallest code, so scanning never ends;
      with `p` at 0 the third scan fails an assertion. */
  lemma ForkedSetFails(devices: set<Code>, p: nat, r: nat, k: nat)
    requires AllValid(devices) && ForkedBranch(SkeletonOf(devices), p, r)
    ensures Split(devices, First(devices), p) && !LeftComb(devices)
    ensures ReplyAt(devices, k)
         == if k == 1 then Return(OK, Branch(devices, p))
            else if k == 0 || p > 0 then Return(OK, First(devices))
            else Halt
  {
    RepliesArePicks(devices, k);
    ForkedBranchFails(SkeletonOf(devices), p, r, k);
    var skeleton := SkeletonOf(devices);
    assert skeleton.spine(p) && skeleton.branch(p)(r);
    if LeftComb(devices) {
      NoSplitOnBranch(devices, p, r);
    }
  }
}
