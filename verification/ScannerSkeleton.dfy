/** The scanner between passes, told by discrepancies alone.

    All that a pass with a fresh buffer can see of a set of devices is its skeleton: where the smallest
    code has discrepancies (the spine), and where the smallest code behind the discrepancy `p` has further
    ones (the branch at `p`). */
module ScannerSkeleton {
  import opened RomSearch

  datatype Skeleton = Skeleton(spine: int -> bool, branch: int -> int -> bool)

  /** The last discrepancy before position `n`, or -1. */
  function LastSplit(splits: int -> bool, n: nat): (last: int)
    ensures -1 <= last < n
    ensures last >= 0 ==> splits(last)
    ensures forall i :: last < i < n ==> !splits(i)
  {
    if n == 0 then -1 else if splits(n - 1) then n - 1 else LastSplit(splits, n - 1)
  }

  /** There is a discrepancy before position `n`. */
  predicate Any(splits: int -> bool, n: int) {
    exists i :: 0 <= i < n && splits(i)
  }

  /** How many discrepancies there are before position `n`. */
  function Splits(splits: int -> bool, n: nat): nat {
    if n == 0 then 0 else Splits(splits, n - 1) + (if splits(n - 1) then 1 else 0)
  }

  lemma {:induction false} SplitsCounts(splits: int -> bool, n: nat)
    ensures var p := LastSplit(splits, n);
            Splits(splits, n) == if p < 0 then 0 else Splits(splits, p) + 1
  {
    if n > 0 && !splits(n - 1) {
      SplitsCounts(splits, n - 1);
    }
  }

  /** The scanner after a discrepancy above the current one. */
  function NewDiscrepancy(s: Scanner, position: int): Scanner {
    s.(prev := if s.prev < 0 then position else s.curr, curr := position, conflicts := s.conflicts + 1)
  }

  /** The scanner after the discrepancies from position `n` on, all of them new. */
  function AfterNew(s: Scanner, splits: int -> bool, n: nat): Scanner
    decreases 64 - n
  {
    if n >= 64 then s else AfterNew(if splits(n) then NewDiscrepancy(s, n) else s, splits, n + 1)
  }

  /** The scanner after the discrepancies from position `n` up to its current one, all followed. */
  function Following(s: Scanner, splits: int -> bool, n: nat): Scanner
    decreases s.curr - n
  {
    if n >= s.curr then s else Following(if splits(n) then s.(prev := n) else s, splits, n + 1)
  }

  lemma {:induction false} FollowingLast(s: Scanner, splits: int -> bool, n: nat)
    requires n <= s.curr
    ensures var last := LastSplit(splits, s.curr);
            Following(s, splits, n) == if last >= n then s.(prev := last) else s
    decreases s.curr - n
  {
    if n < s.curr {
      FollowingLast(if splits(n) then s.(prev := n) else s, splits, n + 1);
    }
  }

  /** The scanner when it takes the 1-branch at its current discrepancy. */
  function Handled(t: Scanner): Scanner {
    if t.curr == 0 then t.(prev := 0, curr := -1, conflicts := 0)
    else t.(curr := t.prev, conflicts := if t.conflicts > 0 then t.conflicts - 1 else 0)
  }

  /** A position that is no earlier than some discrepancy of the smallest code. */
  predicate Late(k: Skeleton, n: int) {
    0 <= n < 64 && Any(k.spine, n + 1)
  }

  /** What holds between passes, whatever the devices. */
  predicate Steady(s: Scanner, k: Skeleton) {
    && (s.prev == -1 || Late(k, s.prev))
    && (s.curr == -1 || (Late(k, s.curr) && s.prev <= s.curr))
  }

  /** Exactly when a pass with a fresh buffer trips an assertion of the scanner. */
  predicate Trips(s: Scanner, k: Skeleton)
    requires Steady(s, k)
  {
    || (s.curr >= 0 && s.prev < 0 && Any(k.spine, s.curr))
    || (s.curr > 0 && s.conflicts == 0 && k.spine(s.curr))
  }

  /** The scanner after a whole pass with a fresh buffer. */
  function AfterFresh(s: Scanner, k: Skeleton): Scanner
    requires Steady(s, k) && !Trips(s, k)
  {
    if s.curr < 0 then AfterNew(s, k.spine, 0)
    else if k.spine(s.curr) then AfterNew(Handled(Following(s, k.spine, 0)), k.branch(s.curr), s.curr + 1)
    else AfterNew(Following(s, k.spine, 0), k.spine, s.curr + 1)
  }

  lemma {:induction false} AfterNewIsSteady(s: Scanner, k: Skeleton, splits: int -> bool, n: nat)
    requires s.curr < n <= 64 && Steady(s, k)
    requires forall i :: n <= i < 64 && splits(i) ==> Late(k, i)
    ensures Steady(AfterNew(s, splits, n), k)
    ensures AfterNew(s, splits, n).finished == s.finished
    decreases 64 - n
  {
    if n < 64 {
      AfterNewIsSteady(if splits(n) then NewDiscrepancy(s, n) else s, k, splits, n + 1);
    }
  }

  /** A pass with a fresh buffer leaves the scanner in order. */
  lemma FreshStaysSteady(s: Scanner, k: Skeleton)
    requires Steady(s, k) && !Trips(s, k)
    ensures Steady(AfterFresh(s, k), k) && AfterFresh(s, k).finished == s.finished
  {
    if s.curr < 0 {
      AfterNewIsSteady(s, k, k.spine, 0);
    } else {
      FollowingLast(s, k.spine, 0);
      var t := Following(s, k.spine, 0);
      if k.spine(s.curr) {
        AfterNewIsSteady(Handled(t), k, k.branch(s.curr), s.curr + 1);
      } else {
        AfterNewIsSteady(t, k, k.spine, s.curr + 1);
      }
    }
  }

  // ---- Repeated scans ----

  /** What a scan reports: the smallest code, the smallest code behind a discrepancy of it, no more data,
      or nothing because an assertion stopped the program. */
  datatype Pick = Smallest | Behind(p: int) | NoMore | Stopped

  datatype Machine = Alive(scanner: Scanner) | Dead

  /** One scan. A machine in disorder never occurs. */
  function Digest(k: Skeleton): Machine -> (Pick, Machine) {
    (m: Machine) =>
      if m.Dead? || !Steady(m.scanner, k) then (Stopped, Dead)
      else if m.scanner.finished then (NoMore, m)
      else if Trips(m.scanner, k) then (Stopped, Dead)
      else
        (if m.scanner.curr >= 0 && k.spine(m.scanner.curr) then Behind(m.scanner.curr) else Smallest,
         Alive(AfterFresh(m.scanner, k).(finished := AfterFresh(m.scanner, k).conflicts == 0)))
  }

  /** The `count`-th reply of a machine that is stepped again and again. */
  function Run<M, R>(step: M -> (R, M), m: M, count: nat): R {
    if count == 0 then step(m).0 else Run(step, step(m).1, count - 1)
  }

  /** Only discrepancies of the smallest code are ever branched at. */
  lemma {:induction false} PicksAreOnTheSpine(k: Skeleton, m: Machine, count: nat)
    ensures var pick := Run(Digest(k), m, count);
            pick.Behind? ==> 0 <= pick.p < 64 && k.spine(pick.p)
    decreases count
  {
    assert m.Alive? && Steady(m.scanner, k) ==> m.scanner.curr < 64;
    if count > 0 {
      PicksAreOnTheSpine(k, Digest(k)(m).1, count - 1);
    }
  }

  // ---- Branches without discrepancies ----

  /** The picks still to come when the discrepancies before position `n` are left, the deepest first. */
  function Picks(spine: int -> bool, n: nat): seq<Pick> {
    var p := LastSplit(spine, n);
    if p < 0 then [] else [Behind(p)] + Picks(spine, p)
  }

  /** The scanner when the discrepancies of the smallest code before position `n` are still to be taken. */
  ghost predicate Along(s: Scanner, spine: int -> bool, n: nat) {
    && n <= 64 && !s.finished
    && s.curr == LastSplit(spine, n)
    && s.conflicts == Splits(spine, n)
    && (if s.curr < 0 then s.prev == -1
        else 0 <= s.prev <= s.curr && spine(s.prev) && (LastSplit(spine, s.curr) < 0 ==> s.prev == s.curr))
  }

  /** The first pass writes down all discrepancies of the smallest code. */
  lemma {:induction false} FirstDescent(s: Scanner, spine: int -> bool, n: nat)
    requires Along(s, spine, n)
    ensures Along(AfterNew(s, spine, n), spine, 64)
    decreases 64 - n
  {
    if n < 64 {
      if spine(n) {
        NewAlong(s, spine, n);
        FirstDescent(NewDiscrepancy(s, n), spine, n + 1);
      } else {
        FirstDescent(s, spine, n + 1);
      }
    }
  }

  lemma NewAlong(s: Scanner, spine: int -> bool, n: nat)
    requires Along(s, spine, n) && n < 64 && spine(n)
    ensures Along(NewDiscrepancy(s, n), spine, n + 1)
  {
    var t := NewDiscrepancy(s, n);
    assert t.curr == n == LastSplit(spine, n + 1);
    assert t.conflicts == Splits(spine, n + 1);
    assert LastSplit(spine, t.curr) == s.curr;
  }

  lemma {:induction false} NothingNew(s: Scanner, splits: int -> bool, n: nat)
    requires forall i :: n <= i < 64 ==> !splits(i)
    ensures AfterNew(s, splits, n) == s
    decreases 64 - n
  {
    if n < 64 {
      NothingNew(s, splits, n + 1);
    }
  }

  /** No branch has discrepancies of its own. */
  ghost predicate Comb(k: Skeleton) {
    forall p, i :: 0 <= p < i < 64 && k.spine(p) ==> !k.branch(p)(i)
  }

  /** The pass after the way to the current discrepancy. */
  lemma FreshCases(s: Scanner, k: Skeleton, t: Scanner)
    requires Steady(s, k) && s.curr >= 0 && t == Following(s, k.spine, 0)
    requires s.prev >= 0 || LastSplit(k.spine, s.curr) < 0
    ensures Trips(s, k) <==> s.curr > 0 && s.conflicts == 0 && k.spine(s.curr)
    ensures !Trips(s, k) ==>
              AfterFresh(s, k) == if k.spine(s.curr) then AfterNew(Handled(t), k.branch(s.curr), s.curr + 1)
                                  else AfterNew(t, k.spine, s.curr + 1)
  {
  }

  /** A scan that does not trip. */
  lemma DigestOf(k: Skeleton, s: Scanner, next: Scanner)
    requires Steady(s, k) && !s.finished && !Trips(s, k) && next == AfterFresh(s, k)
    ensures Digest(k)(Alive(s))
         == (if s.curr >= 0 && k.spine(s.curr) then Behind(s.curr) else Smallest,
             Alive(next.(finished := next.conflicts == 0)))
    ensures Steady(next, k) && !next.finished
  {
    FreshStaysSteady(s, k);
  }

  /** The pass that takes a branch without discrepancies. */
  lemma PlainBranch(k: Skeleton, s: Scanner)
    requires Steady(s, k) && s.curr >= 0 && s.conflicts > 0 && k.spine(s.curr)
    requires s.prev >= 0
    requires forall i :: s.curr < i < 64 ==> !k.branch(s.curr)(i)
    ensures !Trips(s, k)
    ensures var last := LastSplit(k.spine, s.curr);
            AfterFresh(s, k) == Handled(if last >= 0 then s.(prev := last) else s)
  {
    FreshCases(s, k, Following(s, k.spine, 0));
    FollowingLast(s, k.spine, 0);
    NothingNew(Handled(Following(s, k.spine, 0)), k.branch(s.curr), s.curr + 1);
  }

  /** The scan that takes the deepest discrepancy left. */
  lemma BranchScan(k: Skeleton, s: Scanner, n: nat)
    requires Comb(k) && Along(s, k.spine, n) && s.curr >= 0
    ensures Steady(s, k)
    ensures var (pick, next) := Digest(k)(Alive(s));
            && pick == Behind(s.curr) && next.Alive? && Steady(next.scanner, k)
            && (if LastSplit(k.spine, s.curr) < 0 then next.scanner.finished else Along(next.scanner, k.spine, s.curr))
  {
    SplitsCounts(k.spine, n);
    SplitsCounts(k.spine, s.curr);
    PlainBranch(k, s);
    DigestOf(k, s, AfterFresh(s, k));
  }

  /** The machine still has to report exactly these picks. */
  ghost predicate Pending(k: Skeleton, m: Machine, list: seq<Pick>) {
    && m.Alive?
    && Steady(m.scanner, k)
    && ((m.scanner.finished && list == [])
        || exists n :: Along(m.scanner, k.spine, n) && m.scanner.curr >= 0 && list == Picks(k.spine, n))
  }

  lemma PendingStep(k: Skeleton, m: Machine, list: seq<Pick>)
    requires Comb(k) && Pending(k, m, list)
    ensures Digest(k)(m).0 == if list == [] then NoMore else list[0]
    ensures Pending(k, Digest(k)(m).1, if list == [] then [] else list[1..])
  {
    if !m.scanner.finished {
      var n :| Along(m.scanner, k.spine, n) && m.scanner.curr >= 0 && list == Picks(k.spine, n);
      BranchScan(k, m.scanner, n);
      assert list[1..] == Picks(k.spine, m.scanner.curr);
    }
  }

  /** The machine works off the list and then has no more data. */
  lemma {:induction false} PendingRun(k: Skeleton, m: Machine, list: seq<Pick>, count: nat)
    requires Comb(k) && Pending(k, m, list)
    ensures Run(Digest(k), m, count) == if count < |list| then list[count] else NoMore
    decreases count
  {
    PendingStep(k, m, list);
    if count > 0 {
      PendingRun(k, Digest(k)(m).1, if list == [] then [] else list[1..], count - 1);
    }
  }

  lemma FirstScan(k: Skeleton)
    requires Comb(k)
    ensures Digest(k)(Alive(FRESH)).0 == Smallest && Pending(k, Digest(k)(Alive(FRESH)).1, Picks(k.spine, 64))
  {
    FirstDescent(FRESH, k.spine, 0);
    SplitsCounts(k.spine, 64);
    FreshStaysSteady(FRESH, k);
    var next := Digest(k)(Alive(FRESH)).1;
    if LastSplit(k.spine, 64) >= 0 {
      assert Along(next.scanner, k.spine, 64);
    }
  }

  /** On a comb the scans report the smallest code, then one code behind each discrepancy of it from the deepest
      up, and then no more data for ever; no assertion fires. */
  lemma CombRun(k: Skeleton, count: nat)
    requires Comb(k)
    ensures var list := [Smallest] + Picks(k.spine, 64);
            Run(Digest(k), Alive(FRESH), count) == if count < |list| then list[count] else NoMore
  {
    FirstScan(k);
    if count > 0 {
      PendingRun(k, Digest(k)(Alive(FRESH)).1, Picks(k.spine, 64), count - 1);
    }
  }

  // ---- One branch that forks once more ----

  /** The smallest code has one discrepancy, at `p`, and the smallest code behind it has one more. */
  ghost predicate ForkedBranch(k: Skeleton, p: nat, r: nat) {
    && p < r < 64
    && (forall i :: 0 <= i < 64 ==> (k.spine(i) <==> i == p))
    && (forall i :: p < i < 64 ==> (k.branch(p)(i) <==> i == r))
  }

  lemma {:induction false} OneNew(s: Scanner, splits: int -> bool, n: nat, r: nat)
    requires n <= r < 64 && forall i :: n <= i < 64 ==> (splits(i) <==> i == r)
    ensures AfterNew(s, splits, n) == NewDiscrepancy(s, r)
    decreases 64 - n
  {
    if n == r {
      NothingNew(NewDiscrepancy(s, r), splits, r + 1);
    } else {
      OneNew(s, splits, n + 1, r);
    }
  }

  lemma OnlySplit(k: Skeleton, p: nat, r: nat)
    requires ForkedBranch(k, p, r)
    ensures LastSplit(k.spine, p) == -1
    ensures forall n: nat :: p < n <= 64 ==> LastSplit(k.spine, n) == p
  {
    assert k.spine(p);
  }

  function AfterFirst(p: nat): Scanner { Scanner(false, p, p, 1) }

  function AfterSecond(p: nat, r: nat): Scanner { Scanner(false, if p == 0 then -1 else p, r, 1) }

  lemma ForkedFirst(k: Skeleton, p: nat, r: nat)
    requires ForkedBranch(k, p, r)
    ensures Digest(k)(Alive(FRESH)) == (Smallest, Alive(AfterFirst(p)))
  {
    OneNew(FRESH, k.spine, 0, p);
    assert AfterFresh(FRESH, k) == AfterFirst(p);
  }

  lemma ForkedSecond(k: Skeleton, p: nat, r: nat)
    requires ForkedBranch(k, p, r)
    ensures Digest(k)(Alive(AfterFirst(p))) == (Behind(p), Alive(AfterSecond(p, r)))
  {
    OnlySplit(k, p, r);
    FollowingLast(AfterFirst(p), k.spine, 0);
    var one := AfterFirst(p);
    assert Following(one, k.spine, 0) == one;
    OneNew(Handled(one), k.branch(p), p + 1, r);
    assert Late(k, p) by {
      assert k.spine(p);
    }
    DigestOf(k, one, AfterSecond(p, r));
  }

  lemma ForkedThird(k: Skeleton, p: nat, r: nat)
    requires ForkedBranch(k, p, r)
    ensures Digest(k)(Alive(AfterSecond(p, r)))
         == if p == 0 then (Stopped, Dead) else (Smallest, Alive(AfterSecond(p, r)))
  {
    OnlySplit(k, p, r);
    assert k.spine(p);
    var two := AfterSecond(p, r);
    if p > 0 {
      FollowingLast(two, k.spine, 0);
      FreshCases(two, k, two);
      NothingNew(two, k.spine, r + 1);
      DigestOf(k, two, two);
    }
  }

  lemma {:induction false} RunFixed<M, R>(step: M -> (R, M), m: M, count: nat)
    requires step(m).1 == m
    ensures Run(step, m, count) == step(m).0
  {
    if count > 0 {
      RunFixed(step, m, count - 1);
    }
  }

  lemma RunThird<M, R>(step: M -> (R, M), zero: M, one: M, two: M, count: nat)
    requires step(zero).1 == one && step(one).1 == two
    ensures Run(step, zero, 0) == step(zero).0 && Run(step, zero, 1) == step(one).0
    ensures count >= 2 ==> Run(step, zero, count) == Run(step, two, count - 2)
  {
  }

  /** With the fork above position 0 every scan from the third on reports the smallest code, so scanning never
      ends; with the fork at position 0 the third scan trips an assertion. */
  lemma ForkedBranchFails(k: Skeleton, p: nat, r: nat, count: nat)
    requires ForkedBranch(k, p, r)
    ensures Run(Digest(k), Alive(FRESH), count)
         == if count == 1 then Behind(p) else if count == 0 || p > 0 then Smallest else Stopped
  {
    ForkedFirst(k, p, r);
    ForkedSecond(k, p, r);
    ForkedThird(k, p, r);
    var step, two := Digest(k), Alive(AfterSecond(p, r));
    RunThird(step, Alive(FRESH), Alive(AfterFirst(p)), two, count);
    if count >= 2 && p > 0 {
      RunFixed(step, two, count - 2);
    } else if count > 2 {
      RunFixed(step, Dead, count - 3);
    }
  }
}
