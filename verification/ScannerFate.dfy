/** How repeated scans end, for any skeleton: with all codes, with some of them missing, never, or in a failed
    assertion. What decides is the deepest discrepancy of the smallest code whose branch forks. */
module ScannerFate {
  import opened RomSearch
  import opened ScannerSkeleton

  /** How many discrepancies there are from position `lo` up to position `hi`. */
  function Count(splits: int -> bool, lo: int, hi: int): nat
    decreases hi - lo
  {
    if hi <= lo then 0 else Count(splits, lo, hi - 1) + (if splits(hi - 1) then 1 else 0)
  }

  /** The smallest code behind the discrepancy `p` has a further one. */
  predicate Forks(k: Skeleton, p: int) {
    0 <= p < 64 && k.spine(p) && LastSplit(k.branch(p), 64) > p
  }

  /** The deepest discrepancy before position `n` whose branch forks, or -1. */
  function LastFork(k: Skeleton, n: nat): (p: int)
    ensures -1 <= p < n
    ensures p >= 0 ==> Forks(k, p)
    ensures forall q :: p < q < n ==> !Forks(k, q)
  {
    if n == 0 then -1 else if Forks(k, n - 1) then n - 1 else LastFork(k, n - 1)
  }

  datatype Fate = Complete | Lossy | Endless | Crashing

  /** What decides the fate: the deepest fork `p`, the last discrepancy `r` of its branch, the number `forks` of
      discrepancies of the branch, the numbers `between` and `beyond` of discrepancies of the smallest code between
      them and after `r`, and whether it has one at `r`. */
  datatype Fork = Fork(p: int, r: int, forks: nat, between: nat, beyond: nat, onSpine: bool)

  function ForkAt(k: Skeleton, p: int): Fork {
    var r := LastSplit(k.branch(p), 64);
    Fork(p, r, Count(k.branch(p), p + 1, 64), Count(k.spine, p + 1, r + 1), Count(k.spine, r + 1, 64), k.spine(r))
  }

  function FateOfFork(f: Fork): Fate {
    if f.p == 0 && f.forks == 1 then Crashing
    else if f.forks <= f.between && (f.onSpine || f.beyond > 0) then Lossy
    else Endless
  }

  function FateOf(k: Skeleton): Fate {
    var p := LastFork(k, 64);
    if p < 0 then Complete else FateOfFork(ForkAt(k, p))
  }

  // ---- Counting ----

  lemma {:induction false} CountSum(splits: int -> bool, lo: int, mid: int, hi: int)
    requires lo <= mid <= hi
    ensures Count(splits, lo, hi) == Count(splits, lo, mid) + Count(splits, mid, hi)
    decreases hi - mid
  {
    if mid < hi {
      CountSum(splits, lo, mid, hi - 1);
    }
  }

  lemma {:induction false} CountNone(splits: int -> bool, lo: int, hi: int)
    ensures Count(splits, lo, hi) == 0 <==> forall i :: lo <= i < hi ==> !splits(i)
    decreases hi - lo
  {
    if lo < hi {
      CountNone(splits, lo, hi - 1);
    }
  }

  lemma {:induction false} SplitsIsCount(splits: int -> bool, n: nat)
    ensures Splits(splits, n) == Count(splits, 0, n)
  {
    if n > 0 {
      SplitsIsCount(splits, n - 1);
    }
  }

  /** Going down to the next discrepancy counts one. */
  lemma CountDown(splits: int -> bool, lo: int, x: nat)
    requires lo <= x && splits(x)
    ensures Count(splits, lo, x + 1) == Count(splits, lo, x) + 1
    ensures LastSplit(splits, x) >= lo - 1 ==> Count(splits, lo, LastSplit(splits, x) + 1) == Count(splits, lo, x)
  {
    var last := LastSplit(splits, x);
    if last >= lo - 1 {
      CountSum(splits, lo, last + 1, x);
      CountNone(splits, last + 1, x);
    }
  }

  // ---- New discrepancies behind a branch ----

  /** New discrepancies end at the last one and are all counted. */
  lemma {:induction false} AfterNewLast(s: Scanner, splits: int -> bool, n: nat)
    requires n <= 64 && s.curr < n
    ensures var t := AfterNew(s, splits, n);
            && t.finished == s.finished && t.conflicts == s.conflicts + Count(splits, n, 64)
            && t.curr == (if Count(splits, n, 64) == 0 then s.curr else LastSplit(splits, 64))
            && (Count(splits, n, 64) == 0 ==> t == s)
            && (s.prev >= 0 && s.curr >= 0 ==> t.prev >= 0)
    decreases 64 - n
  {
    if n < 64 {
      CountSum(splits, n, n + 1, 64);
      assert Count(splits, n, n + 1) == Count(splits, n, n) + (if splits(n) then 1 else 0);
      AfterNewLast(if splits(n) then NewDiscrepancy(s, n) else s, splits, n + 1);
      if splits(n) && Count(splits, n + 1, 64) == 0 {
        CountNone(splits, n + 1, 64);
        assert LastSplit(splits, 64) == n;
      }
    }
  }

  /** A second new discrepancy gives the scanner a previous one again. */
  lemma {:induction false} SecondNew(s: Scanner, splits: int -> bool, n: nat)
    requires n <= 64 && s.prev < 0 <= s.curr < n
    ensures var t := AfterNew(s, splits, n);
            t.prev == -1 || t.prev == s.prev || t.prev >= 0
    ensures Count(splits, n, 64) == 0 ==> AfterNew(s, splits, n) == s
    ensures Count(splits, n, 64) > 0 ==> AfterNew(s, splits, n).prev >= 0
    decreases 64 - n
  {
    AfterNewLast(s, splits, n);
    if n < 64 {
      CountSum(splits, n, n + 1, 64);
      assert Count(splits, n, n + 1) == Count(splits, n, n) + (if splits(n) then 1 else 0);
      if splits(n) {
        AfterNewLast(NewDiscrepancy(s, n), splits, n + 1);
      } else {
        SecondNew(s, splits, n + 1);
      }
    }
  }

  /** Behind a branch at position 0 the scanner has no previous discrepancy if there is only one new one. */
  lemma {:induction false} NewBehindZero(s: Scanner, splits: int -> bool, n: nat)
    requires n <= 64 && s.prev == 0 && s.curr == -1 && Count(splits, n, 64) > 0
    ensures AfterNew(s, splits, n).prev == -1 <==> Count(splits, n, 64) == 1
    ensures AfterNew(s, splits, n).prev >= -1
    decreases 64 - n
  {
    CountSum(splits, n, n + 1, 64);
    assert Count(splits, n, n + 1) == Count(splits, n, n) + (if splits(n) then 1 else 0);
    if splits(n) {
      SecondNew(NewDiscrepancy(s, n), splits, n + 1);
    } else {
      NewBehindZero(s, splits, n + 1);
    }
  }

  // ---- One scan in each situation ----

  /** The scanner is about to take the branch at `x`. */
  ghost predicate Down(k: Skeleton, s: Scanner, p: int, x: int) {
    && Steady(s, k) && !s.finished && s.conflicts >= 1 && s.prev >= 0
    && s.curr == x && 0 <= p <= x < 64 && k.spine(x) && k.spine(p)
  }

  /** The scanner has taken the branch at `p` and is at the last discrepancy there. */
  ghost predicate BehindFork(k: Skeleton, s: Scanner, p: int, r: int) {
    Steady(s, k) && !s.finished && s.conflicts >= 1 && s.curr == r && 0 <= p < r < 64 && k.spine(p)
  }

  lemma SpineReaches(k: Skeleton, p: int, n: nat)
    requires 0 <= p < n && k.spine(p)
    ensures LastSplit(k.spine, n) >= p
  {
  }

  lemma TakeDown(k: Skeleton, s: Scanner, p: int, x: int)
    requires Down(k, s, p, x) && p < x && !Forks(k, x)
    ensures var last := LastSplit(k.spine, x);
            last >= p && !Trips(s, k) && AfterFresh(s, k) == Scanner(false, last, last, s.conflicts - 1)
  {
    SpineReaches(k, p, x);
    PlainBranch(k, s);
  }

  /** The scanner at the fork, when the branch is taken. */
  lemma FollowedToFork(k: Skeleton, s: Scanner, p: int)
    requires Down(k, s, p, p)
    ensures var t := Following(s, k.spine, 0);
            t == s.(prev := t.prev) && 0 <= t.prev <= p
  {
    FollowingLast(s, k.spine, 0);
  }

  lemma TakeFork(k: Skeleton, s: Scanner, p: int) returns (next: Scanner)
    requires Down(k, s, p, p) && Forks(k, p)
    ensures !Trips(s, k) && next == AfterFresh(s, k)
    ensures var f := ForkAt(k, p);
            && BehindFork(k, next, p, f.r) && f.forks >= 1
            && next.conflicts == (if p == 0 then 0 else s.conflicts - 1) + f.forks
            && (next.prev == -1 <==> p == 0 && f.forks == 1)
  {
    FollowedToFork(k, s, p);
    var t := Handled(Following(s, k.spine, 0));
    CountNone(k.branch(p), p + 1, 64);
    AfterNewLast(t, k.branch(p), p + 1);
    if p == 0 {
      NewBehindZero(t, k.branch(p), p + 1);
    }
    FreshCases(s, k, Following(s, k.spine, 0));
    next := AfterNew(t, k.branch(p), p + 1);
    FreshStaysSteady(s, k);
  }

  /** Past the last discrepancy of the branch, where the smallest code has none. */
  lemma PassBehind(k: Skeleton, s: Scanner, p: int, r: int) returns (next: Scanner)
    requires BehindFork(k, s, p, r) && s.prev >= 0 && !k.spine(r)
    ensures !Trips(s, k) && next == AfterFresh(s, k)
    ensures var beyond := Count(k.spine, r + 1, 64);
            && Steady(next, k) && !next.finished && next.conflicts == s.conflicts + beyond && next.prev >= 0
            && next.curr == if beyond == 0 then r else LastSplit(k.spine, 64)
  {
    SpineReaches(k, p, r);
    FollowingLast(s, k.spine, 0);
    FreshCases(s, k, Following(s, k.spine, 0));
    FreshStaysSteady(s, k);
    next := AfterFresh(s, k);
    assert next == AfterNew(s.(prev := LastSplit(k.spine, r)), k.spine, r + 1);
    AfterNewLast(s.(prev := LastSplit(k.spine, r)), k.spine, r + 1);
    BeyondIsDeepest(k.spine, r);
  }

  lemma BeyondIsDeepest(splits: int -> bool, r: int)
    requires 0 <= r < 64
    ensures Count(splits, r + 1, 64) > 0 ==> LastSplit(splits, 64) > r
  {
    CountNone(splits, r + 1, 64);
  }

  /** Without a previous discrepancy the next scan fails an assertion. */
  lemma FailBehind(k: Skeleton, s: Scanner, p: int, r: int)
    requires BehindFork(k, s, p, r) && s.prev == -1
    ensures Digest(k)(Alive(s)) == (Stopped, Dead)
  {
    SpineReaches(k, p, r);
  }

  lemma AllNew(k: Skeleton, s: Scanner)
    requires s == FRESH && LastSplit(k.spine, 64) >= 0
    ensures var next := AfterNew(s, k.spine, 0);
            && !next.finished && next.prev >= 0
            && next.curr == LastSplit(k.spine, 64) && next.conflicts == Count(k.spine, 0, 64) >= 1
  {
    FirstDescent(s, k.spine, 0);
    SplitsIsCount(k.spine, 64);
    CountNone(k.spine, 0, 64);
  }

  /** The first scan writes down all discrepancies of the smallest code. */
  lemma FirstDown(k: Skeleton, s: Scanner) returns (next: Scanner)
    requires s == FRESH && LastSplit(k.spine, 64) >= 0
    ensures Digest(k)(Alive(s)) == (Smallest, Alive(next))
    ensures Steady(next, k) && !next.finished && next.prev >= 0
    ensures next.curr == LastSplit(k.spine, 64) && next.conflicts == Count(k.spine, 0, 64) >= 1
  {
    AllNew(k, s);
    next := AfterNew(s, k.spine, 0);
    DigestOf(k, s, next);
  }

  // ---- The scanner as a countdown ----

  /** `Taking` is at a discrepancy with `level` more between it and the fork; `Passing` and `Idle` are behind the fork,
      with and without discrepancies of the smallest code further on; `Doomed` is behind a fork at position 0. */
  datatype Stage = Taking(level: nat, conflicts: nat) | Passing(conflicts: nat) | Idle | Spent | Doomed | Failed

  datatype Kind = Hit | Done | Crash

  function BehindTheFork(f: Fork, conflicts: nat): Stage {
    if f.p == 0 && f.forks == 1 then Doomed
    else if f.onSpine then Taking(f.between, conflicts)
    else if f.beyond > 0 then Passing(conflicts)
    else Idle
  }

  /** One scan. The conflicts run out before the fork is reached again, or are filled up there. */
  function Advance(f: Fork): Stage -> (Kind, Stage) {
    (stage: Stage) =>
      match stage
      case Taking(level, conflicts) =>
        if level == 0 then (Hit, BehindTheFork(f, (if f.p == 0 || conflicts == 0 then 0 else conflicts - 1) + f.forks))
        else if conflicts <= 1 then (Hit, Spent)
        else (Hit, Taking(level - 1, conflicts - 1))
      case Passing(conflicts) => (Hit, Taking(f.between + f.beyond, conflicts + f.beyond))
      case Idle => (Hit, Idle)
      case Spent => (Done, Spent)
      case Doomed => (Crash, Failed)
      case Failed => (Crash, Failed)
  }

  /** How many discrepancies the smallest code has between the fork and a position. */
  function LevelOf(k: Skeleton, p: int): int -> nat {
    x => Count(k.spine, p + 1, x + 1)
  }

  /** The scanner is at this stage. */
  ghost predicate Abstracts(k: Skeleton, f: Fork, level: int -> nat, m: Machine, stage: Stage) {
    match stage
    case Taking(above, conflicts) =>
      && m.Alive? && Down(k, m.scanner, f.p, m.scanner.curr)
      && m.scanner.conflicts == conflicts && above == level(m.scanner.curr)
    case Passing(conflicts) =>
      && m.Alive? && BehindFork(k, m.scanner, f.p, f.r) && m.scanner.prev >= 0 && m.scanner.conflicts == conflicts
      && !f.onSpine && f.beyond > 0
    case Idle =>
      && m.Alive? && BehindFork(k, m.scanner, f.p, f.r) && m.scanner.prev >= 0
      && !f.onSpine && f.beyond == 0
    case Spent => m.Alive? && Steady(m.scanner, k) && m.scanner.finished
    case Doomed => m.Alive? && BehindFork(k, m.scanner, f.p, f.r) && m.scanner.prev == -1
    case Failed => m.Dead?
  }

  predicate Reports(kind: Kind, pick: Pick) {
    match kind
    case Hit => pick.Smallest? || pick.Behind?
    case Done => pick.NoMore?
    case Crash => pick.Stopped?
  }

  /** One scan of the scanner is one step of the countdown. */
  ghost predicate InStep(k: Skeleton, f: Fork, level: int -> nat, m: Machine, stage: Stage) {
    && Reports(Advance(f)(stage).0, Digest(k)(m).0)
    && Abstracts(k, f, level, Digest(k)(m).1, Advance(f)(stage).1)
  }

  /** What the levels have to do with the fork; `deep` is the deepest discrepancy of the smallest code. */
  ghost predicate Setting(k: Skeleton, f: Fork, level: int -> nat, deep: int) {
    && 0 <= f.p < f.r < 64 && k.spine(f.p) && f.onSpine == k.spine(f.r) && f.forks >= 1
    && f.p <= deep < 64 && k.spine(deep)
    && level(f.p) == 0 && level(f.r) == f.between && level(deep) == f.between + f.beyond
  }

  lemma DeepestLevel(splits: int -> bool, p: int, r: int)
    requires 0 <= p < r < 64 && splits(p)
    ensures var last := LastSplit(splits, 64);
            && p <= last && splits(last)
            && Count(splits, p + 1, last + 1) == Count(splits, p + 1, r + 1) + Count(splits, r + 1, 64)
  {
    var last := LastSplit(splits, 64);
    CountSum(splits, p + 1, r + 1, 64);
    CountSum(splits, p + 1, last + 1, 64);
    CountNone(splits, last + 1, 64);
  }

  lemma LevelZero(k: Skeleton, p: int)
    ensures LevelOf(k, p)(p) == 0
  {
    assert Count(k.spine, p + 1, p + 1) == 0;
  }

  lemma SettingOf(k: Skeleton, p: int)
    requires p == LastFork(k, 64) >= 0
    ensures Setting(k, ForkAt(k, p), LevelOf(k, p), LastSplit(k.spine, 64))
  {
    var last := LastSplit(k.branch(p), 64);
    assert k.branch(p)(last) && p < last;
    DeepestLevel(k.spine, p, last);
    CountNone(k.branch(p), p + 1, 64);
    LevelZero(k, p);
  }

  lemma LevelDown(splits: int -> bool, p: int, x: int)
    requires 0 <= p < x < 64 && splits(x) && splits(p)
    ensures LastSplit(splits, x) >= p
    ensures Count(splits, p + 1, LastSplit(splits, x) + 1) + 1 == Count(splits, p + 1, x + 1)
  {
    var last := LastSplit(splits, x);
    assert last >= p;
    CountDown(splits, p + 1, x);
    assert last >= p + 1 - 1;
  }

  /** A scan that does not trip takes the stage along. */
  lemma StageOf(k: Skeleton, f: Fork, level: int -> nat, s: Scanner, stage: Stage, next: Scanner, after: Stage)
    requires Steady(s, k) && !s.finished && !Trips(s, k) && Advance(f)(stage) == (Hit, after)
    requires next == AfterFresh(s, k).(finished := AfterFresh(s, k).conflicts == 0)
    requires Abstracts(k, f, level, Alive(next), after)
    ensures InStep(k, f, level, Alive(s), stage)
  {
    DigestOf(k, s, AfterFresh(s, k));
  }

  lemma StepDown(k: Skeleton, f: Fork, level: int -> nat, s: Scanner, next: Scanner)
    requires Down(k, s, f.p, s.curr) && f.p < s.curr && !Trips(s, k) && next == AfterFresh(s, k)
    requires Steady(next, k) && next == Scanner(false, next.curr, next.curr, s.conflicts - 1)
    requires f.p <= next.curr && k.spine(next.curr) && level(next.curr) + 1 == level(s.curr)
    ensures InStep(k, f, level, Alive(s), Taking(level(s.curr), s.conflicts))
  {
    StageOf(k, f, level, s, Taking(level(s.curr), s.conflicts), next.(finished := next.conflicts == 0),
            if next.conflicts == 0 then Spent else Taking(level(next.curr), next.conflicts));
  }

  lemma StepFork(k: Skeleton, f: Fork, level: int -> nat, deep: int, s: Scanner, next: Scanner)
    requires Setting(k, f, level, deep) && Down(k, s, f.p, f.p) && !Trips(s, k) && next == AfterFresh(s, k)
    requires BehindFork(k, next, f.p, f.r) && (next.prev == -1 <==> f.p == 0 && f.forks == 1)
    requires next.conflicts == (if f.p == 0 then 0 else s.conflicts - 1) + f.forks
    ensures InStep(k, f, level, Alive(s), Taking(0, s.conflicts))
  {
    StageOf(k, f, level, s, Taking(0, s.conflicts), next, BehindTheFork(f, next.conflicts));
  }

  lemma StepPassing(k: Skeleton, f: Fork, level: int -> nat, deep: int, s: Scanner, next: Scanner)
    requires Setting(k, f, level, deep) && BehindFork(k, s, f.p, f.r) && s.prev >= 0 && !f.onSpine
    requires !Trips(s, k) && next == AfterFresh(s, k)
    requires Steady(next, k) && !next.finished && next.conflicts == s.conflicts + f.beyond && next.prev >= 0
    requires next.curr == if f.beyond == 0 then f.r else deep
    ensures InStep(k, f, level, Alive(s), if f.beyond > 0 then Passing(s.conflicts) else Idle)
  {
    StageOf(k, f, level, s, if f.beyond > 0 then Passing(s.conflicts) else Idle, next,
            if f.beyond > 0 then Taking(f.between + f.beyond, next.conflicts) else Idle);
  }

  lemma TakingFork(k: Skeleton, f: Fork, level: int -> nat, deep: int, s: Scanner, p: int)
    requires Setting(k, f, level, deep) && f == ForkAt(k, p) && Down(k, s, p, p) && Forks(k, p)
    ensures InStep(k, f, level, Alive(s), Taking(0, s.conflicts))
  {
    var next := TakeFork(k, s, p);
    StepFork(k, f, level, deep, s, next);
  }

  lemma TakingDown(k: Skeleton, f: Fork, level: int -> nat, s: Scanner)
    requires Down(k, s, f.p, s.curr) && f.p < s.curr && !Forks(k, s.curr)
    requires level(LastSplit(k.spine, s.curr)) + 1 == level(s.curr)
    ensures InStep(k, f, level, Alive(s), Taking(level(s.curr), s.conflicts))
  {
    TakeDown(k, s, f.p, s.curr);
    FreshStaysSteady(s, k);
    StepDown(k, f, level, s, AfterFresh(s, k));
  }

  lemma AtFork(k: Skeleton, p: int, s: Scanner)
    requires p == LastFork(k, 64) >= 0 && Down(k, s, p, p)
    ensures InStep(k, ForkAt(k, p), LevelOf(k, p), Alive(s), Taking(0, s.conflicts))
  {
    SettingOf(k, p);
    TakingFork(k, ForkAt(k, p), LevelOf(k, p), LastSplit(k.spine, 64), s, p);
  }

  lemma AboveFork(k: Skeleton, p: int, s: Scanner, level: int -> nat)
    requires p == LastFork(k, 64) >= 0 && Down(k, s, p, s.curr) && p < s.curr && level == LevelOf(k, p)
    ensures InStep(k, ForkAt(k, p), level, Alive(s), Taking(level(s.curr), s.conflicts))
  {
    LevelDown(k.spine, p, s.curr);
    TakingDown(k, ForkAt(k, p), level, s);
  }

  lemma PassingBehind(k: Skeleton, f: Fork, level: int -> nat, deep: int, s: Scanner, p: int)
    requires Setting(k, f, level, deep) && f == ForkAt(k, p) && deep == LastSplit(k.spine, 64)
    requires BehindFork(k, s, p, f.r) && s.prev >= 0 && !f.onSpine
    ensures InStep(k, f, level, Alive(s), if f.beyond > 0 then Passing(s.conflicts) else Idle)
  {
    var next := PassBehind(k, s, p, f.r);
    StepPassing(k, f, level, deep, s, next);
  }

  lemma BehindStep(k: Skeleton, p: int, s: Scanner)
    requires p == LastFork(k, 64) >= 0 && BehindFork(k, s, p, ForkAt(k, p).r) && s.prev >= 0 && !ForkAt(k, p).onSpine
    ensures InStep(k, ForkAt(k, p), LevelOf(k, p), Alive(s),
                   if ForkAt(k, p).beyond > 0 then Passing(s.conflicts) else Idle)
  {
    SettingOf(k, p);
    PassingBehind(k, ForkAt(k, p), LevelOf(k, p), LastSplit(k.spine, 64), s, p);
  }

  lemma StageStep(k: Skeleton, p: int, m: Machine, stage: Stage)
    requires p == LastFork(k, 64) >= 0 && Abstracts(k, ForkAt(k, p), LevelOf(k, p), m, stage)
    ensures InStep(k, ForkAt(k, p), LevelOf(k, p), m, stage)
  {
    match stage
    case Taking(_, _) =>
      if m.scanner.curr == p {
        LevelZero(k, p);
        AtFork(k, p, m.scanner);
      } else {
        AboveFork(k, p, m.scanner, LevelOf(k, p));
      }
    case Passing(_) => BehindStep(k, p, m.scanner);
    case Idle => BehindStep(k, p, m.scanner);
    case Spent =>
    case Doomed => FailBehind(k, m.scanner, p, ForkAt(k, p).r);
    case Failed =>
  }

  lemma {:induction false} RunsAlike(k: Skeleton, p: int, m: Machine, stage: Stage, count: nat)
    requires p == LastFork(k, 64) >= 0 && Abstracts(k, ForkAt(k, p), LevelOf(k, p), m, stage)
    ensures Reports(Run(Advance(ForkAt(k, p)), stage, count), Run(Digest(k), m, count))
    decreases count
  {
    StageStep(k, p, m, stage);
    if count > 0 {
      RunsAlike(k, p, Digest(k)(m).1, Advance(ForkAt(k, p))(stage).1, count - 1);
    }
  }

  // ---- How the countdown ends ----

  /** Hits for `n` scans, and then `end` for ever. */
  ghost predicate HitsThen(f: Fork, stage: Stage, n: nat, end: Kind) {
    forall i: nat :: Run(Advance(f), stage, i) == if i < n then Hit else end
  }

  lemma {:induction false} Stays(f: Fork, stage: Stage, kind: Kind, count: nat)
    requires Advance(f)(stage) == (kind, stage)
    ensures Run(Advance(f), stage, count) == kind
  {
    if count > 0 {
      Stays(f, stage, kind, count - 1);
    }
  }

  lemma StaysThen(f: Fork, stage: Stage, kind: Kind)
    requires Advance(f)(stage) == (kind, stage)
    ensures HitsThen(f, stage, 0, kind)
  {
    forall i: nat ensures Run(Advance(f), stage, i) == kind {
      Stays(f, stage, kind, i);
    }
  }

  lemma HitThen(f: Fork, stage: Stage, next: Stage, n: nat, end: Kind)
    requires Advance(f)(stage) == (Hit, next) && HitsThen(f, next, n, end)
    ensures HitsThen(f, stage, n + 1, end)
  {
    forall i: nat ensures Run(Advance(f), stage, i) == if i < n + 1 then Hit else end {
      if i > 0 {
        assert Run(Advance(f), stage, i) == Run(Advance(f), next, i - 1);
      }
    }
  }

  /** With no more forks than discrepancies to go back to, conflicts run out. */
  lemma {:induction false} RunsOut(f: Fork, level: nat, conflicts: nat) returns (n: nat)
    requires FateOfFork(f).Lossy? && conflicts >= 1 && f.forks >= 1
    ensures HitsThen(f, Taking(level, conflicts), n, Done)
    decreases if conflicts > level then conflicts - level else 0, level
  {
    if level > 0 && conflicts == 1 {
      StaysThen(f, Spent, Done);
      HitThen(f, Taking(level, conflicts), Spent, 0, Done);
      n := 1;
    } else if level > 0 {
      var later := RunsOut(f, level - 1, conflicts - 1);
      HitThen(f, Taking(level, conflicts), Taking(level - 1, conflicts - 1), later, Done);
      n := later + 1;
    } else {
      var filled := (if f.p == 0 then 0 else conflicts - 1) + f.forks;
      if f.onSpine {
        var later := RunsOut(f, f.between, filled);
        HitThen(f, Taking(0, conflicts), Taking(f.between, filled), later, Done);
        n := later + 1;
      } else {
        var later := RunsOut(f, f.between + f.beyond, filled + f.beyond);
        HitThen(f, Passing(filled), Taking(f.between + f.beyond, filled + f.beyond), later, Done);
        HitThen(f, Taking(0, conflicts), Passing(filled), later + 1, Done);
        n := later + 2;
      }
    }
  }

  /** What keeps the conflicts from running out. */
  predicate Lasting(f: Fork, stage: Stage) {
    match stage
    case Taking(level, conflicts) => conflicts > level
    case Passing(conflicts) => conflicts > f.between
    case Idle => true
    case Spent => false
    case Doomed => false
    case Failed => false
  }

  lemma {:induction false} GoesOn(f: Fork, stage: Stage, count: nat)
    requires FateOfFork(f).Endless? && Lasting(f, stage) && f.forks >= 1
    requires stage.Passing? ==> f.beyond > 0 && !f.onSpine
    ensures Run(Advance(f), stage, count) == Hit
    decreases count
  {
    var next := Advance(f)(stage).1;
    assert Advance(f)(stage).0 == Hit && Lasting(f, next) && (next.Passing? ==> f.beyond > 0 && !f.onSpine);
    if count > 0 {
      GoesOn(f, next, count - 1);
    }
  }

  lemma {:induction false} ComesToCrash(f: Fork, level: nat, conflicts: nat)
    requires FateOfFork(f).Crashing? && conflicts > level
    ensures HitsThen(f, Taking(level, conflicts), level + 1, Crash)
    decreases level
  {
    if level == 0 {
      StaysThen(f, Failed, Crash);
      forall i: nat ensures Run(Advance(f), Doomed, i) == Crash {
        assert i > 0 ==> Run(Advance(f), Doomed, i) == Run(Advance(f), Failed, i - 1);
      }
      HitThen(f, Taking(0, conflicts), Doomed, 0, Crash);
    } else {
      ComesToCrash(f, level - 1, conflicts - 1);
      HitThen(f, Taking(level, conflicts), Taking(level - 1, conflicts - 1), level, Crash);
    }
  }

  // ---- The fates ----

  /** Hits for `n` scans, and then `end` for ever. */
  ghost predicate ReportsThen(k: Skeleton, m: Machine, n: nat, end: Kind) {
    forall i: nat :: Reports(if i < n then Hit else end, Run(Digest(k), m, i))
  }

  /** The first scan of a skeleton with a fork brings the scanner to its deepest discrepancy. */
  lemma FirstStage(k: Skeleton, p: int) returns (m: Machine, above: nat, conflicts: nat)
    requires p == LastFork(k, 64) >= 0
    ensures Digest(k)(Alive(FRESH)) == (Smallest, m)
    ensures Abstracts(k, ForkAt(k, p), LevelOf(k, p), m, Taking(above, conflicts)) && conflicts > above
  {
    FirstLevel(k.spine, p);
    var next := FirstDown(k, FRESH);
    m, above, conflicts := Alive(next), LevelOf(k, p)(next.curr), next.conflicts;
    FirstTaking(k, ForkAt(k, p), LevelOf(k, p), next);
  }

  lemma FirstTaking(k: Skeleton, f: Fork, level: int -> nat, next: Scanner)
    requires Steady(next, k) && !next.finished && next.prev >= 0 && next.conflicts >= 1
    requires 0 <= f.p <= next.curr < 64 && k.spine(f.p) && k.spine(next.curr)
    ensures Abstracts(k, f, level, Alive(next), Taking(level(next.curr), next.conflicts))
  {
  }

  lemma FirstLevel(splits: int -> bool, p: int)
    requires 0 <= p < 64 && splits(p)
    ensures LastSplit(splits, 64) >= p
    ensures Count(splits, p + 1, LastSplit(splits, 64) + 1) < Count(splits, 0, 64)
  {
    CountSum(splits, 0, p, p + 1);
    CountSum(splits, 0, p + 1, 64);
    CountSum(splits, p + 1, LastSplit(splits, 64) + 1, 64);
    assert Count(splits, p, p + 1) == Count(splits, p, p) + 1;
  }

  lemma AfterFirstScan(k: Skeleton, p: int, m: Machine, stage: Stage, n: nat, end: Kind)
    requires p == LastFork(k, 64) >= 0 && Abstracts(k, ForkAt(k, p), LevelOf(k, p), m, stage)
    requires Digest(k)(Alive(FRESH)) == (Smallest, m)
    requires HitsThen(ForkAt(k, p), stage, n, end)
    ensures ReportsThen(k, Alive(FRESH), n + 1, end)
  {
    forall i: nat ensures Reports(if i < n + 1 then Hit else end, Run(Digest(k), Alive(FRESH), i)) {
      if i > 0 {
        RunsAlike(k, p, m, stage, i - 1);
        assert Run(Digest(k), Alive(FRESH), i) == Run(Digest(k), m, i - 1);
      }
    }
  }

  ghost predicate HasFate(k: Skeleton, n: nat) {
    match FateOf(k)
    case Complete => ReportsThen(k, Alive(FRESH), n, Done)
    case Lossy => ReportsThen(k, Alive(FRESH), n, Done)
    case Crashing => ReportsThen(k, Alive(FRESH), n, Crash)
    case Endless => ReportsThen(k, Alive(FRESH), n, Hit)
  }

  /** How the countdown ends when it starts with more conflicts than discrepancies to go down. */
  lemma StageFate(f: Fork, level: nat, conflicts: nat) returns (n: nat)
    requires f.forks >= 1 && conflicts > level
    ensures match FateOfFork(f)
            case Complete => true
            case Lossy => HitsThen(f, Taking(level, conflicts), n, Done)
            case Crashing => HitsThen(f, Taking(level, conflicts), n, Crash)
            case Endless => HitsThen(f, Taking(level, conflicts), n, Hit)
  {
    match FateOfFork(f)
    case Lossy => n := RunsOut(f, level, conflicts);
    case Crashing =>
      ComesToCrash(f, level, conflicts);
      n := level + 1;
    case Endless =>
      n := 0;
      forall i: nat ensures Run(Advance(f), Taking(level, conflicts), i) == Hit {
        GoesOn(f, Taking(level, conflicts), i);
      }
  }

  lemma ForkFate(k: Skeleton, p: int) returns (n: nat)
    requires p == LastFork(k, 64) >= 0
    ensures HasFate(k, n)
  {
    SettingOf(k, p);
    var m, above, conflicts := FirstStage(k, p);
    var later := StageFate(ForkAt(k, p), above, conflicts);
    var fate := FateOfFork(ForkAt(k, p));
    var end := if fate.Lossy? then Done else if fate.Crashing? then Crash else Hit;
    AfterFirstScan(k, p, m, Taking(above, conflicts), later, end);
    n := later + 1;
  }

  /** How repeated scans end, for every skeleton. */
  lemma Fates(k: Skeleton) returns (n: nat)
    ensures HasFate(k, n)
  {
    if LastFork(k, 64) < 0 {
      n := CombEnds(k);
    } else {
      n := ForkFate(k, LastFork(k, 64));
    }
  }

  lemma NoForkIsComb(k: Skeleton)
    ensures LastFork(k, 64) < 0 <==> Comb(k)
  {
    var p := LastFork(k, 64);
    if p >= 0 {
      assert k.spine(p) && k.branch(p)(LastSplit(k.branch(p), 64));
    }
    if LastFork(k, 64) < 0 {
      forall q, i | 0 <= q < i < 64 && k.spine(q) ensures !k.branch(q)(i) {
        assert !Forks(k, q);
      }
    }
  }

  lemma CombEnds(k: Skeleton) returns (n: nat)
    requires LastFork(k, 64) < 0
    ensures ReportsThen(k, Alive(FRESH), n, Done)
  {
    NoForkIsComb(k);
    var list := [Smallest] + Picks(k.spine, 64);
    PicksAreHits(k.spine, 64);
    n := |list|;
    forall i: nat ensures Reports(if i < n then Hit else Done, Run(Digest(k), Alive(FRESH), i)) {
      CombRun(k, i);
    }
  }

  lemma {:induction false} PicksAreHits(spine: int -> bool, n: nat)
    ensures forall i :: 0 <= i < |Picks(spine, n)| ==> Picks(spine, n)[i].Behind?
  {
    var p := LastSplit(spine, n);
    if p >= 0 {
      PicksAreHits(spine, p);
    }
  }

  // ---- Small skeletons ----

  lemma CountOne(splits: int -> bool, lo: int, hi: int, at: int)
    requires lo <= at < hi && forall i :: lo <= i < hi ==> (splits(i) <==> i == at)
    ensures Count(splits, lo, hi) == 1
  {
    CountSum(splits, lo, at, hi);
    CountSum(splits, at, at + 1, hi);
    CountNone(splits, lo, at);
    CountNone(splits, at + 1, hi);
    assert Count(splits, at, at + 1) == Count(splits, at, at) + 1;
  }

  lemma LastIs(splits: int -> bool, n: nat, at: int)
    requires 0 <= at < n && splits(at) && forall i :: at < i < n ==> !splits(i)
    ensures LastSplit(splits, n) == at
  {
  }

  lemma LastForkIs(k: Skeleton, p: int)
    requires Forks(k, p) && forall q :: p < q < 64 ==> !Forks(k, q)
    ensures LastFork(k, 64) == p
  {
  }

  lemma OnlyFork(k: Skeleton, p: nat, r: nat)
    requires ForkedBranch(k, p, r) && Forks(k, p)
    ensures LastFork(k, 64) == p
  {
    forall q | p < q < 64 ensures !Forks(k, q) {
      assert k.spine(q) <==> q == p;
    }
    LastForkIs(k, p);
  }

  /** With one discrepancy and one more behind it scanning never ends, or fails an assertion if the first is at 0. */
  lemma ForkedFate(k: Skeleton, p: nat, r: nat)
    requires ForkedBranch(k, p, r)
    ensures FateOf(k) == if p == 0 then Crashing else Endless
  {
    LastIs(k.branch(p), 64, r);
    assert Forks(k, p) && k.spine(r) == false;
    OnlyFork(k, p, r);
    CountOne(k.branch(p), p + 1, 64, r);
    CountNone(k.spine, p + 1, r + 1);
  }

  /** Two discrepancies, the second also behind the first. */
  ghost predicate TwoApart(k: Skeleton, p: nat, r: nat) {
    && 0 < p < r < 64
    && (forall i :: 0 <= i < 64 ==> (k.spine(i) <==> i == p || i == r))
    && (forall i :: p < i < 64 ==> (k.branch(p)(i) <==> i == r))
    && (forall i :: r < i < 64 ==> !k.branch(r)(i))
  }

  lemma TwoApartFate(k: Skeleton, p: nat, r: nat)
    requires TwoApart(k, p, r)
    ensures FateOf(k) == Lossy
  {
    LastIs(k.branch(p), 64, r);
    assert Forks(k, p);
    TwoApartFork(k, p, r);
    CountOne(k.branch(p), p + 1, 64, r);
    CountOne(k.spine, p + 1, r + 1, r);
  }

  lemma TwoApartFork(k: Skeleton, p: nat, r: nat)
    requires TwoApart(k, p, r) && Forks(k, p)
    ensures LastFork(k, 64) == p
  {
    forall q | p < q < 64 ensures !Forks(k, q) {
      assert k.spine(q) <==> q == p || q == r;
      assert k.branch(r)(LastSplit(k.branch(r), 64)) || LastSplit(k.branch(r), 64) < 0;
    }
    LastForkIs(k, p);
  }
}
