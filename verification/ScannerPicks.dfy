/** Which branches repeated scans ever take, for any skeleton: exactly those from the deepest fork on. */
module ScannerPicks {
  import opened RomSearch
  import opened ScannerSkeleton
  import opened ScannerFate

  /** Some scan takes the branch at `q`. */
  ghost predicate Picked(k: Skeleton, q: int) {
    exists count: nat :: Run(Digest(k), Alive(FRESH), count) == Behind(q)
  }

  /** A branch that is taken is not before position `p`. */
  predicate NotBefore(pick: Pick, p: int) {
    pick.Behind? ==> pick.p >= p
  }

  lemma FirstPick(k: Skeleton)
    ensures Run(Digest(k), Alive(FRESH), 0) == Smallest
  {
    assert !Trips(FRESH, k);
  }

  // ---- None before the deepest fork ----

  lemma StagePick(k: Skeleton, p: int, m: Machine, stage: Stage)
    requires p == LastFork(k, 64) >= 0 && Abstracts(k, ForkAt(k, p), LevelOf(k, p), m, stage)
    ensures NotBefore(Digest(k)(m).0, p)
  {
  }

  lemma {:induction false} NoneBeforeFork(k: Skeleton, p: int, m: Machine, stage: Stage, count: nat)
    requires p == LastFork(k, 64) >= 0 && Abstracts(k, ForkAt(k, p), LevelOf(k, p), m, stage)
    ensures NotBefore(Run(Digest(k), m, count), p)
    decreases count
  {
    StagePick(k, p, m, stage);
    if count > 0 {
      StageStep(k, p, m, stage);
      NoneBeforeFork(k, p, Digest(k)(m).1, Advance(ForkAt(k, p))(stage).1, count - 1);
    }
  }

  lemma NonePicked(k: Skeleton, count: nat)
    ensures NotBefore(Run(Digest(k), Alive(FRESH), count), LastFork(k, 64))
  {
    var p := LastFork(k, 64);
    if p >= 0 {
      var m, above, conflicts := FirstStage(k, p);
      if count > 0 {
        NoneBeforeFork(k, p, m, Taking(above, conflicts), count - 1);
      }
    } else {
      PicksAreOnTheSpine(k, Alive(FRESH), count);
    }
  }

  // ---- All from the deepest fork on ----

  lemma TakesCurrent(k: Skeleton, p: int, s: Scanner)
    requires p == LastFork(k, 64) >= 0 && Down(k, s, p, s.curr)
    ensures Digest(k)(Alive(s)).0 == Behind(s.curr)
  {
    if s.curr == p {
      var next := TakeFork(k, s, p);
    } else {
      TakeDown(k, s, p, s.curr);
    }
  }

  lemma GoesDown(k: Skeleton, p: int, s: Scanner) returns (next: Scanner)
    requires p == LastFork(k, 64) >= 0 && Down(k, s, p, s.curr) && p < s.curr
    requires s.conflicts > LevelOf(k, p)(s.curr)
    ensures Digest(k)(Alive(s)).1 == Alive(next)
    ensures next.curr == LastSplit(k.spine, s.curr) >= p && Down(k, next, p, next.curr)
    ensures next.conflicts > LevelOf(k, p)(next.curr)
  {
    TakeDown(k, s, p, s.curr);
    next := AfterFresh(s, k);
    DigestOf(k, s, next);
    LevelDown(k.spine, p, s.curr);
  }

  /** On the way down from its current discrepancy the scanner takes every branch down to the fork. */
  lemma {:induction false} AllDownToFork(k: Skeleton, p: int, s: Scanner, q: int) returns (count: nat)
    requires p == LastFork(k, 64) >= 0 && Down(k, s, p, s.curr) && s.conflicts > LevelOf(k, p)(s.curr)
    requires p <= q <= s.curr && k.spine(q)
    ensures Run(Digest(k), Alive(s), count) == Behind(q)
    decreases s.curr
  {
    if q == s.curr {
      TakesCurrent(k, p, s);
      count := 0;
    } else {
      var next := GoesDown(k, p, s);
      count := AllDownToFork(k, p, next, q);
      count := count + 1;
    }
  }

  lemma FirstWay(k: Skeleton, p: int) returns (s: Scanner)
    requires p == LastFork(k, 64) >= 0
    ensures Digest(k)(Alive(FRESH)).1 == Alive(s)
    ensures Down(k, s, p, s.curr) && s.conflicts > LevelOf(k, p)(s.curr) && s.curr == LastSplit(k.spine, 64)
  {
    FirstLevel(k.spine, p);
    s := FirstDown(k, FRESH);
  }

  lemma FromFork(k: Skeleton, p: int, q: int)
    requires p == LastFork(k, 64) >= 0 && p <= q < 64 && k.spine(q)
    ensures Picked(k, q)
  {
    var s := FirstWay(k, p);
    var count := AllDownToFork(k, p, s, q);
    assert Run(Digest(k), Alive(FRESH), count + 1) == Behind(q);
  }

  lemma {:induction false} InPicks(spine: int -> bool, n: nat, q: nat) returns (i: nat)
    requires q < n && spine(q)
    ensures i < |Picks(spine, n)| && Picks(spine, n)[i] == Behind(q)
  {
    var p := LastSplit(spine, n);
    if q == p {
      i := 0;
    } else {
      i := InPicks(spine, p, q);
      i := i + 1;
    }
  }

  lemma OnComb(k: Skeleton, q: int)
    requires LastFork(k, 64) < 0 && 0 <= q < 64 && k.spine(q)
    ensures Picked(k, q)
  {
    NoForkIsComb(k);
    var i := InPicks(k.spine, 64, q);
    CombRun(k, i + 1);
    assert Run(Digest(k), Alive(FRESH), i + 1) == Behind(q);
  }

  /** Scanning takes the branch at a discrepancy of the smallest code if and only if no deeper branch forks. */
  lemma PickedExactly(k: Skeleton, q: int)
    ensures Picked(k, q) <==> 0 <= q < 64 && k.spine(q) && LastFork(k, 64) <= q
  {
    if Picked(k, q) {
      var count: nat :| Run(Digest(k), Alive(FRESH), count) == Behind(q);
      PicksAreOnTheSpine(k, Alive(FRESH), count);
      NonePicked(k, count);
    }
    if 0 <= q < 64 && k.spine(q) && LastFork(k, 64) <= q {
      if LastFork(k, 64) >= 0 {
        FromFork(k, LastFork(k, 64), q);
      } else {
        OnComb(k, q);
      }
    }
  }
}
