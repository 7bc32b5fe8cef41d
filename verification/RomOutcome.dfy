/** How scanning ends, for every set of devices, and sets that show that each ending happens. */
module RomOutcome {
  import opened Bits
  import opened Status
  import opened RomSearch
  import opened ScannerSkeleton
  import opened ScannerFate
  import opened ScannerPicks
  import opened RomPasses
  import opened RomEnumeration
  import Crc

  predicate Answers(kind: Kind, reply: Reply) {
    match kind
    case Hit => reply.Return? && reply.status == OK
    case Done => reply.Return? && reply.status == NoData
    case Crash => reply.Halt?
  }

  function FateOfDevices(devices: set<Code>): Fate
    requires devices != {}
  {
    FateOf(SkeletonOf(devices))
  }

  lemma PickAnswers(devices: set<Code>, k: nat, kind: Kind)
    requires AllValid(devices) && Reports(kind, Run(Digest(SkeletonOf(devices)), Alive(FRESH), k))
    ensures Answers(kind, ReplyAt(devices, k))
  {
    RepliesArePicks(devices, k);
    PicksAreOnTheSpine(SkeletonOf(devices), Alive(FRESH), k);
    var pick := Run(Digest(SkeletonOf(devices)), Alive(FRESH), k);
    assert pick.Behind? ==> Split(devices, First(devices), pick.p);
  }

  /** OK for `n` scans, and then the same for ever. */
  ghost predicate AnswersThen(devices: set<Code>, n: nat, end: Kind) {
    forall k: nat :: Answers(if k < n then Hit else end, ReplyAt(devices, k))
  }

  function EndOf(fate: Fate): Kind {
    match fate
    case Complete => Done
    case Lossy => Done
    case Endless => Hit
    case Crashing => Crash
  }

  lemma FateAnswers(devices: set<Code>) returns (n: nat)
    requires AllValid(devices)
    ensures AnswersThen(devices, n, EndOf(FateOfDevices(devices)))
  {
    var skeleton := SkeletonOf(devices);
    n := Fates(skeleton);
    var end := EndOf(FateOf(skeleton));
    assert ReportsThen(skeleton, Alive(FRESH), n, end);
    forall k: nat ensures Answers(if k < n then Hit else end, ReplyAt(devices, k)) {
      PickAnswers(devices, k, if k < n then Hit else end);
    }
  }

  /** A comb of discrepancies is a left comb of devices. */
  lemma CombIsLeftComb(devices: set<Code>)
    requires devices != {} && Comb(SkeletonOf(devices))
    ensures LeftComb(devices)
  {
    var c := First(devices);
    forall x, y | x in devices && y in devices && x != c && y != c && x != y
      ensures FirstDiff(c, x) != FirstDiff(c, y)
    {
      if FirstDiff(c, x) == FirstDiff(c, y) {
        BranchOfDiff(devices, x);
        BranchOfDiff(devices, y);
        var p := FirstDiff(c, x);
        var other := if x == Branch(devices, p) then y else x;
        SameBranchForks(devices, p, other);
      }
    }
  }

  lemma DiffBeyond(a: Code, b: Code, p: nat)
    requires p < 64 && a != b && a[..p + 1] == b[..p + 1]
    ensures FirstDiff(a, b) > p
  {
    forall i | 0 <= i <= p ensures a[i] == b[i] {
      assert a[..p + 1][i] == b[..p + 1][i];
    }
  }

  lemma SameBranchForks(devices: set<Code>, p: nat, other: Code)
    requires devices != {} && p < 64 && Split(devices, First(devices), p)
    requires other in devices && First(devices)[..p] + [true] <= other && other != Branch(devices, p)
    ensures !Comb(SkeletonOf(devices))
  {
    var branch, k := Branch(devices, p), SkeletonOf(devices);
    var i := FirstDiff(branch, other);
    DiffIsSplit(devices, branch, other);
    assert branch[..p + 1] == other[..p + 1] == First(devices)[..p] + [true];
    DiffBeyond(branch, other, p);
    assert k.spine(p) && k.branch(p)(i);
  }

  /** For every set of valid devices, scanning with fresh buffers reports no more data in the end, fails an assertion in
      the end, or returns OK for ever, as the skeleton tells; it ends with all devices reported exactly for left combs,
      and otherwise some device is never reported. */
  lemma ScanningEnds(devices: set<Code>)
    requires AllValid(devices)
    ensures (exists k :: Answers(Done, ReplyAt(devices, k)))
        <==> FateOfDevices(devices).Complete? || FateOfDevices(devices).Lossy?
    ensures (exists k :: Answers(Crash, ReplyAt(devices, k))) <==> FateOfDevices(devices).Crashing?
    ensures (forall k :: Answers(Hit, ReplyAt(devices, k))) <==> FateOfDevices(devices).Endless?
    ensures FateOfDevices(devices).Complete? <==> LeftComb(devices)
    ensures FateOfDevices(devices).Complete? <==> forall d :: d in devices ==> Reported(devices, d)
  {
    var n := FateAnswers(devices);
    EndShows(devices, n, EndOf(FateOfDevices(devices)));
    NoForkIsComb(SkeletonOf(devices));
    if LeftComb(devices) {
      CombOfLeftComb(devices);
    } else if Comb(SkeletonOf(devices)) {
      CombIsLeftComb(devices);
    }
    CompleteIffLeftComb(devices);
  }

  lemma EndShows(devices: set<Code>, n: nat, end: Kind)
    requires AnswersThen(devices, n, end)
    ensures (exists k :: Answers(Done, ReplyAt(devices, k))) <==> end == Done
    ensures (exists k :: Answers(Crash, ReplyAt(devices, k))) <==> end == Crash
    ensures (forall k :: Answers(Hit, ReplyAt(devices, k))) <==> end == Hit
  {
    assert Answers(end, ReplyAt(devices, n));
    forall k: nat ensures Answers(Hit, ReplyAt(devices, k)) || Answers(end, ReplyAt(devices, k)) {
      assert Answers(if k < n then Hit else end, ReplyAt(devices, k));
    }
  }

  // ---- Which devices are found ----

  /** A discrepancy of the smallest code with no fork behind a deeper one. */
  predicate InReach(devices: set<Code>, q: int)
    requires devices != {}
  {
    Split(devices, First(devices), q) && LastFork(SkeletonOf(devices), 64) <= q
  }

  /** The smallest device, or the smallest behind a discrepancy in reach. */
  ghost predicate Findable(devices: set<Code>, d: Code)
    requires devices != {}
  {
    d == First(devices) || exists q :: InReach(devices, q) && d == Branch(devices, q)
  }

  lemma PickedIsReply(devices: set<Code>, q: int)
    requires AllValid(devices)
    ensures Picked(SkeletonOf(devices), q) <==> InReach(devices, q)
  {
    PickedExactly(SkeletonOf(devices), q);
  }

  lemma ReportedIsFindable(devices: set<Code>, k: nat, d: Code)
    requires AllValid(devices) && ReplyAt(devices, k) == Return(OK, d)
    ensures Findable(devices, d)
  {
    RepliesArePicks(devices, k);
    var pick := Run(Digest(SkeletonOf(devices)), Alive(FRESH), k);
    if pick.Behind? {
      PickedIsReply(devices, pick.p);
      assert InReach(devices, pick.p);
    }
  }

  lemma FirstIsReported(devices: set<Code>)
    requires AllValid(devices)
    ensures ReplyAt(devices, 0) == Return(OK, First(devices))
  {
    FirstPick(SkeletonOf(devices));
    RepliesArePicks(devices, 0);
  }

  lemma BranchIsReported(devices: set<Code>, q: int)
    requires AllValid(devices) && InReach(devices, q)
    ensures Reported(devices, Branch(devices, q))
  {
    PickedIsReply(devices, q);
    var k: nat :| Run(Digest(SkeletonOf(devices)), Alive(FRESH), k) == Behind(q);
    RepliesArePicks(devices, k);
    assert ReplyAt(devices, k) == Return(OK, Branch(devices, q));
  }

  /** For every set of valid devices, the ones that scanning ever reports are the smallest and the smallest behind each
      discrepancy that has no fork behind a deeper one. */
  lemma ReportedExactly(devices: set<Code>, d: Code)
    requires AllValid(devices)
    ensures Reported(devices, d) <==> Findable(devices, d)
  {
    if Reported(devices, d) {
      var k :| ReplyAt(devices, k) == Return(OK, d);
      ReportedIsFindable(devices, k, d);
    }
    if Findable(devices, d) {
      if d == First(devices) {
        FirstIsReported(devices);
      } else {
        var q :| InReach(devices, q) && d == Branch(devices, q);
        BranchIsReported(devices, q);
      }
    }
  }

  // ---- Each ending happens ----

  /** The code of a device that differs from others in three bits only, with its CRC. */
  function Toy(w: seq<bool>): Code
    requires |w| == 3
  {
    BitsOf(Message(w) + [Crc.Register(Crc.LSB, Crc.DALLAS_POLYNOMIAL, ZERO, Message(w))])
  }

  function Message(w: seq<bool>): seq<Byte>
    requires |w| == 3
  {
    [w + [false, false, false, false, false], ZERO, ZERO, ZERO, ZERO, ZERO, ZERO]
  }

  lemma ToyIsValid(w: seq<bool>)
    requires |w| == 3
    ensures ValidCode(Toy(w))
  {
    var crc := Crc.Register(Crc.LSB, Crc.DALLAS_POLYNOMIAL, ZERO, Message(w));
    BytesOfBits(Message(w) + [crc]);
    assert (Message(w) + [crc])[..7] == Message(w);
  }

  lemma ToyBits(w: seq<bool>)
    requires |w| == 3
    ensures Toy(w)[..3] == w
  {
    var bytes := Message(w) + [Crc.Register(Crc.LSB, Crc.DALLAS_POLYNOMIAL, ZERO, Message(w))];
    forall i | 0 <= i < 3 ensures BitsOf(bytes)[i] == w[i] {
      assert i / 8 == 0 && i % 8 == i;
    }
  }

  /** Any two devices differ in their first three bits. */
  ghost predicate Short(devices: set<Code>) {
    devices != {} && forall d, e :: d in devices && e in devices && SameThree(d, e) ==> d == e
  }

  predicate SameThree(d: Code, e: Code) {
    d[..3] == e[..3]
  }

  /** Two codes agree up to position `n` and disagree there. */
  predicate Part(d: Code, c: Code, n: nat)
    requires n < 64
  {
    d[..n] == c[..n] && d[n] != c[n]
  }

  lemma PartByBits(d: Code, c: Code)
    ensures Part(d, c, 0) <==> d[0] != c[0]
    ensures Part(d, c, 1) <==> d[0] == c[0] && d[1] != c[1]
    ensures Part(d, c, 2) <==> d[0] == c[0] && d[1] == c[1] && d[2] != c[2]
    ensures SameThree(d, c) <==> d[0] == c[0] && d[1] == c[1] && d[2] == c[2]
  {
    assert d[..0] == c[..0];
    assert d[..1] == [d[0]] && c[..1] == [c[0]];
    assert d[..2] == [d[0], d[1]] && c[..2] == [c[0], c[1]];
    assert d[..3] == [d[0], d[1], d[2]] && c[..3] == [c[0], c[1], c[2]];
  }

  lemma PartByPrefix(d: Code, c: Code, n: nat)
    requires n < 64
    ensures c[..n] + [!c[n]] <= d <==> Part(d, c, n)
  {
    if c[..n] + [!c[n]] <= d {
      assert d[..n + 1] == c[..n] + [!c[n]];
      assert d[..n] == d[..n + 1][..n] == c[..n] && d[n] == d[..n + 1][n] == !c[n];
    }
    if Part(d, c, n) {
      assert d[..n + 1] == c[..n] + [!c[n]];
    }
  }

  lemma SplitIsPart(devices: set<Code>, c: Code, n: nat)
    requires c in devices && n < 64
    ensures Split(devices, c, n) <==> exists e :: e in devices && Part(e, c, n)
  {
    assert c[..n + 1] == c[..n] + [c[n]];
    assert c in Match(devices, c[..n] + [c[n]]);
    assert Split(devices, c, n) <==> Match(devices, c[..n] + [!c[n]]) != {} by {
      assert c[n] == true || c[n] == false;
    }
    if Match(devices, c[..n] + [!c[n]]) != {} {
      var e :| e in Match(devices, c[..n] + [!c[n]]);
      PartByPrefix(e, c, n);
    }
    if e :| e in devices && Part(e, c, n) {
      PartByPrefix(e, c, n);
      assert e in Match(devices, c[..n] + [!c[n]]);
    }
  }

  lemma SameBeyond(d: Code, c: Code, n: nat)
    requires 3 <= n <= 64 && d[..n] == c[..n]
    ensures SameThree(d, c)
  {
    assert d[..3] == d[..n][..3] && c[..3] == c[..n][..3];
  }

  /** Devices that differ in their first three bits part there. */
  lemma ShortSplits(devices: set<Code>, c: Code, n: int)
    requires Short(devices) && c in devices
    ensures Split(devices, c, n) <==> 0 <= n < 3 && exists e :: e in devices && Part(e, c, n)
  {
    if 0 <= n < 64 {
      SplitIsPart(devices, c, n);
      forall e | e in devices && Part(e, c, n) ensures n < 3 {
        if n >= 3 {
          SameBeyond(e, c, n);
        }
      }
    }
  }

  lemma FirstIsLowest(devices: set<Code>, n: nat)
    requires devices != {} && n < 64 && Split(devices, First(devices), n)
    ensures !First(devices)[n]
  {
    MatchAll(devices);
    LowIsLeftmost(devices, []);
  }

  lemma BranchIsLowest(devices: set<Code>, p: nat)
    requires devices != {} && p < 64 && Split(devices, First(devices), p)
    ensures Part(Branch(devices, p), First(devices), p)
    ensures forall n :: p < n < 64 && Split(devices, Branch(devices, p), n) ==> !Branch(devices, p)[n]
  {
    var prefix, branch := First(devices)[..p] + [true], Branch(devices, p);
    FirstIsLowest(devices, p);
    LowIsLeftmost(devices, prefix);
    PartByPrefix(branch, First(devices), p);
  }

  /** The first three bits of a code. */
  predicate Bits3(c: Code, b0: bool, b1: bool, b2: bool) {
    c[0] == b0 && c[1] == b1 && c[2] == b2
  }

  /** Three devices, two of which share a 1 at position `p` and part at the next position. */
  predicate ForkingThree(a: Code, b: Code, c: Code, p: nat) {
    if p == 0 then Bits3(a, false, false, false) && Bits3(b, true, false, false) && Bits3(c, true, true, false)
    else p == 1 && Bits3(a, false, false, false) && Bits3(b, false, true, false) && Bits3(c, false, true, true)
  }

  lemma ThreeParts(a: Code, b: Code, c: Code, p: nat)
    requires ForkingThree(a, b, c, p)
    ensures Short({a, b, c})
    ensures forall n :: 0 <= n < 3 ==> (Part(b, a, n) <==> n == p) && (Part(c, a, n) <==> n == p) && !Part(a, a, n)
    ensures forall n :: 0 <= n < 3 ==> (Part(a, b, n) <==> n == p) && (Part(c, b, n) <==> n == p + 1) && !Part(b, b, n)
    ensures Part(a, c, p) && Part(b, c, p + 1)
  {
    PartByBits(a, b);
    PartByBits(b, a);
    PartByBits(a, c);
    PartByBits(c, a);
    PartByBits(b, c);
    PartByBits(c, b);
  }

  lemma ThreeFirst(a: Code, b: Code, c: Code, p: nat)
    requires ForkingThree(a, b, c, p)
    ensures First({a, b, c}) == a
    ensures forall i :: Split({a, b, c}, a, i) <==> i == p
    ensures forall i :: p < i < 64 ==> (Split({a, b, c}, b, i) <==> i == p + 1)
    ensures Split({a, b, c}, c, p + 1)
  {
    var devices := {a, b, c};
    ThreeParts(a, b, c, p);
    ShortSplits(devices, b, p);
    ShortSplits(devices, c, p);
    ShortSplits(devices, c, p + 1);
    if First(devices) != a {
      FirstIsLowest(devices, p);
    }
    forall i ensures Split(devices, a, i) <==> i == p {
      ShortSplits(devices, a, i);
    }
    forall i | p < i < 64 ensures Split(devices, b, i) <==> i == p + 1 {
      ShortSplits(devices, b, i);
    }
  }

  lemma ThreeBranch(devices: set<Code>, a: Code, b: Code, c: Code, p: nat)
    requires ForkingThree(a, b, c, p) && devices == {a, b, c}
    requires First(devices) == a && Split(devices, a, p) && Split(devices, c, p + 1)
    ensures Branch(devices, p) == b
  {
    ThreeParts(a, b, c, p);
    BranchIsLowest(devices, p);
  }

  /** They make the smallest set that is no left comb. */
  lemma ThreeFork(a: Code, b: Code, c: Code, p: nat)
    requires ForkingThree(a, b, c, p)
    ensures ForkedBranch(SkeletonOf({a, b, c}), p, p + 1)
  {
    ThreeFirst(a, b, c, p);
    ThreeBranch({a, b, c}, a, b, c, p);
  }

  /** Four devices with two bits that are independent of each other. */
  predicate IndependentFour(a: Code, b: Code, c: Code, d: Code) {
    && Bits3(a, false, false, false) && Bits3(b, false, true, false)
    && Bits3(c, false, false, true) && Bits3(d, false, true, true)
  }

  lemma FourParts(a: Code, b: Code, c: Code, d: Code)
    requires IndependentFour(a, b, c, d)
    ensures Short({a, b, c, d})
    ensures forall n :: 0 <= n < 3 ==>
        (Part(b, a, n) <==> n == 1) && (Part(c, a, n) <==> n == 2) && (Part(d, a, n) <==> n == 1)
    ensures forall n :: 0 <= n < 3 ==>
        (Part(a, b, n) <==> n == 1) && (Part(c, b, n) <==> n == 1) && (Part(d, b, n) <==> n == 2)
    ensures Part(a, c, 2) && Part(c, d, 1) && Part(b, d, 2)
  {
    PartByBits(a, b);
    PartByBits(b, a);
    PartByBits(a, c);
    PartByBits(c, a);
    PartByBits(a, d);
    PartByBits(d, a);
    PartByBits(b, c);
    PartByBits(c, b);
    PartByBits(b, d);
    PartByBits(d, b);
    PartByBits(c, d);
    PartByBits(d, c);
  }

  lemma FourFirst(a: Code, b: Code, c: Code, d: Code)
    requires IndependentFour(a, b, c, d)
    ensures First({a, b, c, d}) == a
    ensures forall i :: Split({a, b, c, d}, a, i) <==> i == 1 || i == 2
  {
    var devices := {a, b, c, d};
    FourParts(a, b, c, d);
    ShortSplits(devices, b, 1);
    ShortSplits(devices, c, 2);
    ShortSplits(devices, d, 1);
    if First(devices) != a {
      FirstIsLowest(devices, if First(devices) == c then 2 else 1);
    }
    forall i ensures Split(devices, a, i) <==> i == 1 || i == 2 {
      ShortSplits(devices, a, i);
      assert !Part(a, a, 1) && !Part(a, a, 2);
    }
  }

  lemma FourBranches(devices: set<Code>, a: Code, b: Code, c: Code, d: Code)
    requires IndependentFour(a, b, c, d) && devices == {a, b, c, d}
    requires First(devices) == a && Split(devices, a, 1) && Split(devices, a, 2)
    ensures Branch(devices, 1) == b && Branch(devices, 2) == c
  {
    FourParts(a, b, c, d);
    ShortSplits(devices, d, 2);
    BranchIsLowest(devices, 1);
    BranchIsLowest(devices, 2);
  }

  lemma FourBeyond(a: Code, b: Code, c: Code, d: Code)
    requires IndependentFour(a, b, c, d)
    ensures forall i :: 1 < i < 64 ==> (Split({a, b, c, d}, b, i) <==> i == 2)
    ensures forall i :: 2 < i < 64 ==> !Split({a, b, c, d}, c, i)
  {
    var devices := {a, b, c, d};
    FourParts(a, b, c, d);
    forall i | 1 < i < 64 ensures Split(devices, b, i) <==> i == 2 {
      ShortSplits(devices, b, i);
    }
    forall i | 2 < i < 64 ensures !Split(devices, c, i) {
      ShortSplits(devices, c, i);
    }
  }

  /** They make a set on which scanning ends without one of them. */
  lemma FourLose(a: Code, b: Code, c: Code, d: Code)
    requires IndependentFour(a, b, c, d)
    ensures TwoApart(SkeletonOf({a, b, c, d}), 1, 2)
  {
    FourFirst(a, b, c, d);
    FourBranches({a, b, c, d}, a, b, c, d);
    FourBeyond(a, b, c, d);
  }

  lemma ToysAre(b0: bool, b1: bool, b2: bool)
    ensures ValidCode(Toy([b0, b1, b2])) && Bits3(Toy([b0, b1, b2]), b0, b1, b2)
  {
    ToyIsValid([b0, b1, b2]);
    ToyBits([b0, b1, b2]);
    var c := Toy([b0, b1, b2]);
    assert c[0] == c[..3][0] && c[1] == c[..3][1] && c[2] == c[..3][2];
  }

  lemma ForkedDevices(devices: set<Code>, p: nat, r: nat)
    requires devices != {} && ForkedBranch(SkeletonOf(devices), p, r)
    ensures FateOfDevices(devices) == if p == 0 then Crashing else Endless
  {
    ForkedFate(SkeletonOf(devices), p, r);
  }

  lemma LosingDevices(devices: set<Code>, p: nat, r: nat)
    requires devices != {} && TwoApart(SkeletonOf(devices), p, r)
    ensures FateOfDevices(devices) == Lossy
  {
    TwoApartFate(SkeletonOf(devices), p, r);
  }

  lemma ThreeSize(a: Code, b: Code, c: Code, p: nat)
    requires ForkingThree(a, b, c, p)
    ensures |{a, b, c}| == 3
  {
  }

  lemma FourSize(a: Code, b: Code, c: Code, d: Code)
    requires IndependentFour(a, b, c, d)
    ensures |{a, b, c, d}| == 4
  {
  }

  lemma SomeThree(p: nat) returns (a: Code, b: Code, c: Code)
    requires p <= 1
    ensures AllValid({a, b, c}) && ForkingThree(a, b, c, p)
  {
    a := SomeCode(false, false, false);
    b := SomeCode(p == 0, p == 1, false);
    c := SomeCode(p == 0, true, p == 1);
  }

  lemma SomeFour() returns (a: Code, b: Code, c: Code, d: Code)
    ensures AllValid({a, b, c, d}) && IndependentFour(a, b, c, d)
  {
    a := SomeCode(false, false, false);
    b := SomeCode(false, true, false);
    c := SomeCode(false, false, true);
    d := SomeCode(false, true, true);
  }

  /** Some three valid codes fork at position `p`, which is 0 or 1: scanning them fails an assertion in the first case
      and never ends in the second. */
  lemma ForksHappen(p: nat) returns (devices: set<Code>)
    requires p <= 1
    ensures AllValid(devices) && |devices| == 3 && ForkedBranch(SkeletonOf(devices), p, p + 1)
    ensures FateOfDevices(devices) == if p == 0 then Crashing else Endless
  {
    var a, b, c := SomeThree(p);
    ThreeFork(a, b, c, p);
    ThreeSize(a, b, c, p);
    devices := {a, b, c};
    ForkedDevices(devices, p, p + 1);
  }

  /** On some four valid codes scanning ends without one of them. */
  lemma LossHappens() returns (devices: set<Code>)
    ensures AllValid(devices) && |devices| == 4 && FateOfDevices(devices).Lossy?
  {
    var a, b, c, d := SomeFour();
    FourLose(a, b, c, d);
    FourSize(a, b, c, d);
    devices := {a, b, c, d};
    LosingDevices(devices, 1, 2);
  }

  lemma SomeCode(b0: bool, b1: bool, b2: bool) returns (c: Code)
    ensures ValidCode(c) && Bits3(c, b0, b1, b2)
  {
    c := Toy([b0, b1, b2]);
    ToysAre(b0, b1, b2);
  }
}
