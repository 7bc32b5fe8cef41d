/** From bits to discrepancies: what a pass with a fresh buffer finds on a fixed set of devices. */
module RomPasses {
  import opened RomSearch
  import opened ScannerSkeleton

  function Zeros(n: nat): seq<bool> {
    seq(n, _ => false)
  }

  /** The first `n` bits of a code, the rest blank. */
  function Partial(w: seq<bool>): Code
    requires |w| <= 64
  {
    w + Zeros(64 - |w|)
  }

  /** Both kinds of device are present behind `w`. */
  predicate Forked(devices: set<Code>, w: seq<bool>)
    requires |w| < 64
  {
    Match(devices, w + [false]) != {} && Match(devices, w + [true]) != {}
  }

  /** The smallest code behind `w`: 0 wherever there is a choice. */
  function Low(devices: set<Code>, w: seq<bool>): (c: Code)
    requires |w| <= 64 && Match(devices, w) != {}
    ensures c in devices && w <= c
    decreases 64 - |w|
  {
    MatchSplits(devices, w);
    if |w| == 64 then w
    else if Match(devices, w + [false]) != {} then Low(devices, w + [false])
    else Low(devices, w + [true])
  }

  lemma MatchSplits(devices: set<Code>, w: seq<bool>)
    requires |w| <= 64
    ensures |w| == 64 && Match(devices, w) != {} ==> w in devices
    ensures |w| < 64 ==> Match(devices, w) == Match(devices, w + [false]) + Match(devices, w + [true])
  {
    if |w| == 64 && Match(devices, w) != {} {
      var d :| d in Match(devices, w);
      assert d == d[..64] == w;
    }
    if |w| < 64 {
      KeepIsMatch(devices, w, false);
      KeepIsMatch(devices, w, true);
    }
  }

  /** The discrepancies along a code: positions where the devices sharing its beginning disagree. */
  predicate Split(devices: set<Code>, c: Code, n: int) {
    0 <= n < 64 && Forked(devices, c[..n])
  }

  /** The smallest code of all. */
  function First(devices: set<Code>): (c: Code)
    requires devices != {}
    ensures c in devices
  {
    MatchAll(devices);
    Low(devices, [])
  }

  lemma MatchAll(devices: set<Code>)
    ensures Match(devices, []) == devices
  {
  }

  /** The smallest code that leaves the first one at position `p`. */
  function Branch(devices: set<Code>, p: int): (c: Code)
    requires devices != {} && Split(devices, First(devices), p)
    ensures c in devices && First(devices)[..p] + [true] <= c
  {
    Low(devices, First(devices)[..p] + [true])
  }

  /** The discrepancies along a code, as the scanner's bookkeeping needs them. */
  function SplitsAlong(devices: set<Code>, c: Code): int -> bool {
    n => Split(devices, c, n)
  }

  function BranchSplits(devices: set<Code>, p: int): int -> bool
    requires devices != {}
  {
    if Split(devices, First(devices), p) then SplitsAlong(devices, Branch(devices, p)) else _ => false
  }

  /** What passes with fresh buffers can see of the devices. */
  function SkeletonOf(devices: set<Code>): Skeleton
    requires devices != {}
  {
    Skeleton(SplitsAlong(devices, First(devices)), p => BranchSplits(devices, p))
  }

  // ---- One pass with a fresh buffer ----

  /** A pass that has written `w` into a fresh buffer, told by prefixes instead of participating devices. */
  function Walk(s: Scanner, devices: set<Code>, w: seq<bool>): Outcome
    requires |w| <= 64 && s.prev < 64
    decreases 64 - |w|
  {
    if |w| == 64 then Found(s, w)
    else if Forked(devices, w) then
      match HandleDiscrepancy(s, Partial(w), |w|)
      case Halted => Aborted
      case Take(bit, s') => Walk(s', devices, w + [bit])
    else Walk(s, devices, w + [Match(devices, w + [false]) == {}])
  }

  /** What the two reads of a step tell, and what the written bit leaves. */
  lemma StepTells(devices: set<Code>, w: seq<bool>)
    requires |w| < 64 && Match(devices, w) != {}
    ensures AllOnes(Match(devices, w), |w|) <==> Match(devices, w + [false]) == {}
    ensures AllZeros(Match(devices, w), |w|) <==> Match(devices, w + [true]) == {}
    ensures Match(devices, w + [false]) != {} || Match(devices, w + [true]) != {}
    ensures forall bit :: Keep(Match(devices, w), |w|, bit) == Match(devices, w + [bit])
    ensures forall bit :: Partial(w)[|w| := bit] == Partial(w + [bit])
  {
    var n, active := |w|, Match(devices, w);
    KeepIsMatch(devices, w, false);
    KeepIsMatch(devices, w, true);
    MatchSplits(devices, w);
    assert AllOnes(active, n) <==> Keep(active, n, false) == {};
    assert AllZeros(active, n) <==> Keep(active, n, true) == {};
    forall bit ensures Keep(active, n, bit) == Match(devices, w + [bit]) {
      assert bit == false || bit == true;
    }
  }

  lemma ForkStep(s: Scanner, devices: set<Code>, w: seq<bool>, bit: bool, t: Scanner)
    requires |w| < 64 && s.prev < 64 && t.prev < 64 && Match(devices, w) != {} && Forked(devices, w)
    requires HandleDiscrepancy(s, Partial(w), |w|) == Take(bit, t)
    ensures Match(devices, w + [bit]) != {}
    ensures Pass(s, Match(devices, w), Partial(w), |w|)
        == Pass(t, Match(devices, w + [bit]), Partial(w + [bit]), |w| + 1)
    ensures Walk(s, devices, w) == Walk(t, devices, w + [bit])
  {
    StepTells(devices, w);
  }

  lemma StraightStep(s: Scanner, devices: set<Code>, w: seq<bool>, bit: bool)
    requires |w| < 64 && s.prev < 64 && Match(devices, w) != {} && !Forked(devices, w)
    requires bit <==> Match(devices, w + [false]) == {}
    ensures Match(devices, w + [bit]) != {}
    ensures Pass(s, Match(devices, w), Partial(w), |w|)
        == Pass(s, Match(devices, w + [bit]), Partial(w + [bit]), |w| + 1)
    ensures Walk(s, devices, w) == Walk(s, devices, w + [bit])
  {
    StepTells(devices, w);
  }

  lemma HaltStep(s: Scanner, devices: set<Code>, w: seq<bool>)
    requires |w| < 64 && s.prev < 64 && Match(devices, w) != {} && Forked(devices, w)
    requires HandleDiscrepancy(s, Partial(w), |w|).Halted?
    ensures Pass(s, Match(devices, w), Partial(w), |w|) == Walk(s, devices, w)
  {
    StepTells(devices, w);
  }

  lemma {:induction false} PassIsWalk(s: Scanner, devices: set<Code>, w: seq<bool>)
    requires |w| <= 64 && s.prev < 64 && Match(devices, w) != {}
    ensures Pass(s, Match(devices, w), Partial(w), |w|) == Walk(s, devices, w)
    decreases 64 - |w|
  {
    if |w| == 64 {
      assert Partial(w) == w;
    } else if Forked(devices, w) {
      var direction := HandleDiscrepancy(s, Partial(w), |w|);
      if direction.Take? {
        ForkStep(s, devices, w, direction.bit, direction.scanner);
        PassIsWalk(direction.scanner, devices, w + [direction.bit]);
      } else {
        HaltStep(s, devices, w);
      }
    } else {
      var bit := Match(devices, w + [false]) == {};
      StraightStep(s, devices, w, bit);
      PassIsWalk(s, devices, w + [bit]);
    }
  }

  /** Along the smallest code behind `w` every choice is a 0. */
  lemma LowChoices(devices: set<Code>, w: seq<bool>, n: nat)
    requires |w| <= n < 64 && Match(devices, w) != {}
    ensures var c := Low(devices, w);
            && Match(devices, c[..n]) != {}
            && c[..n + 1] == c[..n] + [c[n]]
            && (c[n] <==> Match(devices, c[..n] + [false]) == {})
            && Low(devices, c[..n]) == c
    decreases 64 - |w|
  {
    var c := Low(devices, w);
    assert c in Match(devices, c[..n]);
    if n == |w| {
      assert c[..n] == w;
      MatchSplits(devices, w);
      assert c[..n + 1] == c[..n] + [c[n]];
    } else {
      MatchSplits(devices, w);
      LowChoices(devices, if Match(devices, w + [false]) != {} then w + [false] else w + [true], n);
    }
  }

  /** Every choice along the code is a 0 from position `from` on. */
  ghost predicate Leftmost(devices: set<Code>, c: Code, from: nat) {
    c in devices && forall n | from <= n < 64 && Split(devices, c, n) :: !c[n]
  }

  lemma LowIsLeftmost(devices: set<Code>, w: seq<bool>)
    requires |w| <= 64 && Match(devices, w) != {}
    ensures Leftmost(devices, Low(devices, w), |w|)
  {
    forall n | |w| <= n < 64 && Split(devices, Low(devices, w), n) ensures !Low(devices, w)[n] {
      LowChoices(devices, w, n);
    }
  }

  /** Where there is no choice the walk goes with the code. */
  lemma NoChoice(s: Scanner, devices: set<Code>, c: Code, n: nat)
    requires n < 64 && s.prev < 64 && c in devices && !Split(devices, c, n)
    ensures Walk(s, devices, c[..n]) == Walk(s, devices, c[..n + 1])
  {
    assert c[..n + 1] == c[..n] + [c[n]];
    assert c in Match(devices, c[..n] + [c[n]]);
    assert (Match(devices, c[..n] + [false]) == {}) == c[n];
  }

  /** Where there is a choice and the scanner goes with the code. */
  lemma Choice(s: Scanner, devices: set<Code>, c: Code, n: nat, t: Scanner)
    requires n < 64 && s.prev < 64 && t.prev < 64 && Split(devices, c, n)
    requires HandleDiscrepancy(s, Partial(c[..n]), n) == Take(c[n], t)
    ensures Walk(s, devices, c[..n]) == Walk(t, devices, c[..n + 1])
  {
    assert c[..n + 1] == c[..n] + [c[n]];
  }

  lemma Unwritten(c: Code, n: nat, at: int)
    requires n < 64 && 0 <= at < 64 && (at < n ==> !c[at])
    ensures !Partial(c[..n])[at]
  {
  }

  /** Nothing in the fresh buffer reads as 1 at the position to be read back next. */
  ghost predicate ReadsZero(s: Scanner, devices: set<Code>, c: Code, n: nat) {
    && 0 <= s.prev < 64
    && (s.prev < n ==> !c[s.prev])
    && (n <= s.prev ==> exists i :: n <= i <= s.prev && Split(devices, c, i))
  }

  /** Below the current discrepancy the scanner follows zeros: the bit it reads back is never a written one. */
  lemma {:induction false} Follow(s: Scanner, devices: set<Code>, c: Code, n: nat)
    requires Leftmost(devices, c, 0) && n <= s.curr < 64 && ReadsZero(s, devices, c, n)
    ensures var t := Following(s, SplitsAlong(devices, c), n);
            t.prev < 64 && Walk(s, devices, c[..n]) == Walk(t, devices, c[..s.curr])
    decreases s.curr - n
  {
    if n < s.curr {
      if Split(devices, c, n) {
        FollowOne(s, devices, c, n);
        assert ReadsZero(s.(prev := n), devices, c, n + 1);
        Follow(s.(prev := n), devices, c, n + 1);
      } else {
        NoChoice(s, devices, c, n);
        assert ReadsZero(s, devices, c, n + 1);
        Follow(s, devices, c, n + 1);
      }
    }
  }

  /** Without a discrepancy on the way nothing is read back. */
  lemma {:induction false} Skip(s: Scanner, devices: set<Code>, c: Code, n: nat, m: nat)
    requires c in devices && n <= m <= 64 && s.prev < 64
    requires forall i :: n <= i < m ==> !Split(devices, c, i)
    ensures Walk(s, devices, c[..n]) == Walk(s, devices, c[..m])
    decreases m - n
  {
    if n < m {
      NoChoice(s, devices, c, n);
      Skip(s, devices, c, n + 1, m);
    }
  }

  lemma FollowOne(s: Scanner, devices: set<Code>, c: Code, n: nat)
    requires Leftmost(devices, c, 0) && n < s.curr < 64 && 0 <= s.prev < 64
    requires Split(devices, c, n) && (s.prev < n ==> !c[s.prev])
    ensures Walk(s, devices, c[..n]) == Walk(s.(prev := n), devices, c[..n + 1])
  {
    Unwritten(c, n, s.prev);
    Choice(s, devices, c, n, s.(prev := n));
  }

  lemma AfterNewStep(s: Scanner, t: Scanner, splits: int -> bool, n: nat)
    requires n < 64 && t == if splits(n) then NewDiscrepancy(s, n) else s
    ensures AfterNew(s, splits, n) == AfterNew(t, splits, n + 1)
  {
  }

  /** Above the current discrepancy every discrepancy is new and answered with 0. */
  lemma {:induction false} Descend(s: Scanner, devices: set<Code>, c: Code, n: nat)
    requires Leftmost(devices, c, n) && s.curr < n <= 64 && s.prev < 64
    ensures Walk(s, devices, c[..n]) == Found(AfterNew(s, SplitsAlong(devices, c), n), c)
    decreases 64 - n
  {
    if n == 64 {
      assert c[..n] == c;
    } else if Split(devices, c, n) {
      Choice(s, devices, c, n, NewDiscrepancy(s, n));
      Descend(NewDiscrepancy(s, n), devices, c, n + 1);
      AfterNewStep(s, NewDiscrepancy(s, n), SplitsAlong(devices, c), n);
    } else {
      NoChoice(s, devices, c, n);
      Descend(s, devices, c, n + 1);
      AfterNewStep(s, s, SplitsAlong(devices, c), n);
    }
  }

  lemma PassBy(t: Scanner, devices: set<Code>, p: nat)
    requires devices != {} && p < 64 && !Split(devices, First(devices), p) && t.curr == p && t.prev < 64
    ensures Walk(t, devices, First(devices)[..p])
         == Found(AfterNew(t, SplitsAlong(devices, First(devices)), p + 1), First(devices))
  {
    var c := First(devices);
    MatchAll(devices);
    LowIsLeftmost(devices, []);
    NoChoice(t, devices, c, p);
    Descend(t, devices, c, p + 1);
  }

  lemma Stop(t: Scanner, devices: set<Code>, p: nat)
    requires devices != {} && Split(devices, First(devices), p) && t.curr == p > 0 && t.conflicts == 0 && t.prev < 64
    ensures Walk(t, devices, First(devices)[..p]) == Aborted
  {
  }

  lemma TakeBranch(t: Scanner, devices: set<Code>, p: nat)
    requires devices != {} && Split(devices, First(devices), p)
    requires t.curr == p && t.prev <= p && (p == 0 || t.conflicts > 0)
    ensures Walk(t, devices, First(devices)[..p])
         == Found(AfterNew(Handled(t), SplitsAlong(devices, Branch(devices, p)), p + 1), Branch(devices, p))
  {
    var c, branch := First(devices), Branch(devices, p);
    LowIsLeftmost(devices, c[..p] + [true]);
    assert branch[..p + 1] == c[..p] + [true];
    assert branch[..p] == branch[..p + 1][..p] == c[..p];
    Choice(t, devices, branch, p, Handled(t));
    Descend(Handled(t), devices, branch, p + 1);
  }

  lemma {:induction false} FollowTrips(s: Scanner, devices: set<Code>, c: Code, n: nat)
    requires c in devices && n <= s.curr < 64 && s.prev < 0
    requires LastSplit(SplitsAlong(devices, c), s.curr) >= n
    ensures Walk(s, devices, c[..n]) == Aborted
    decreases s.curr - n
  {
    assert LastSplit(SplitsAlong(devices, c), s.curr) == n ==> Split(devices, c, n);
    if !Split(devices, c, n) {
      NoChoice(s, devices, c, n);
      FollowTrips(s, devices, c, n + 1);
    }
  }

  /** The way to the current discrepancy. */
  lemma ToCurrent(s: Scanner, devices: set<Code>, c: Code)
    requires Leftmost(devices, c, 0) && 0 <= s.curr < 64 && -1 <= s.prev <= s.curr
    requires s.prev >= 0 ==> LastSplit(SplitsAlong(devices, c), s.prev + 1) >= 0
    ensures var t := Following(s, SplitsAlong(devices, c), 0);
            if s.prev < 0 && LastSplit(SplitsAlong(devices, c), s.curr) >= 0 then Walk(s, devices, c[..0]) == Aborted
            else t.prev <= s.curr && Walk(s, devices, c[..0]) == Walk(t, devices, c[..s.curr])
  {
    var f := SplitsAlong(devices, c);
    FollowingLast(s, f, 0);
    if s.prev >= 0 {
      assert Split(devices, c, LastSplit(f, s.prev + 1));
      Follow(s, devices, c, 0);
    } else if LastSplit(f, s.curr) >= 0 {
      FollowTrips(s, devices, c, 0);
    } else {
      assert forall i :: 0 <= i < s.curr ==> f(i) == Split(devices, c, i);
      Skip(s, devices, c, 0, s.curr);
    }
  }

  /** What a pass with a fresh buffer finds: the smallest code behind the current discrepancy if the smallest code
      has a discrepancy there, and the smallest code again if not; and exactly when it trips an assertion. */
  lemma FreshPass(s: Scanner, devices: set<Code>)
    requires devices != {} && Steady(s, SkeletonOf(devices))
    ensures var outcome := Pass(s, devices, Partial([]), 0);
            if Trips(s, SkeletonOf(devices)) then outcome == Aborted
            else outcome == Found(AfterFresh(s, SkeletonOf(devices)),
                                  if Split(devices, First(devices), s.curr) then Branch(devices, s.curr)
                                  else First(devices))
  {
    var c := First(devices);
    MatchAll(devices);
    PassIsWalk(s, devices, []);
    if s.curr < 0 {
      LowIsLeftmost(devices, []);
      assert c[..0] == [];
      Descend(s, devices, c, 0);
    } else {
      LowIsLeftmost(devices, []);
      ToCurrent(s, devices, c);
      assert c[..0] == [];
      var t := Following(s, SplitsAlong(devices, c), 0);
      FollowingLast(s, SplitsAlong(devices, c), 0);
      if s.prev >= 0 || LastSplit(SplitsAlong(devices, c), s.curr) < 0 {
        AtCurrent(s, t, devices);
      }
    }
  }

  /** The skeleton at the current discrepancy. */
  lemma SkeletonAt(devices: set<Code>, p: int)
    requires devices != {}
    ensures SkeletonOf(devices).spine == SplitsAlong(devices, First(devices))
    ensures SkeletonOf(devices).spine(p) == Split(devices, First(devices), p)
    ensures Split(devices, First(devices), p) ==>
        SkeletonOf(devices).branch(p) == SplitsAlong(devices, Branch(devices, p))
  {
  }

  lemma AtCurrent(s: Scanner, t: Scanner, devices: set<Code>)
    requires devices != {} && Steady(s, SkeletonOf(devices)) && s.curr >= 0
    requires s.prev >= 0 || LastSplit(SplitsAlong(devices, First(devices)), s.curr) < 0
    requires t == Following(s, SplitsAlong(devices, First(devices)), 0)
    requires t.curr == s.curr && t.conflicts == s.conflicts && t.prev <= s.curr
    ensures var outcome := Walk(t, devices, First(devices)[..s.curr]);
            if Trips(s, SkeletonOf(devices)) then outcome == Aborted
            else outcome == Found(AfterFresh(s, SkeletonOf(devices)),
                                  if Split(devices, First(devices), s.curr) then Branch(devices, s.curr)
                                  else First(devices))
  {
    var k := SkeletonOf(devices);
    SkeletonAt(devices, s.curr);
    FreshCases(s, k, t);
    if !Split(devices, First(devices), s.curr) {
      PassBy(t, devices, s.curr);
    } else if s.curr > 0 && s.conflicts == 0 {
      Stop(t, devices, s.curr);
    } else {
      TakeBranch(t, devices, s.curr);
    }
  }
}
