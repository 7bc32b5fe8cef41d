/** Time comparison with wrap-around, and what it does to the rate of repeated operations. */
module RateLimiter {

  /** The branches of the comparison, given the end of the interval. */
  predicate AfterDest(start: int, now: int, dest: int) {
    if now < start then
      if dest > start then true
      else if dest <= now then true
      else false
    else if dest > now then false
    else if dest < start then false
    else true
  }

  /** For unsigned integers, whose sums wrap around at `modulus`. */
  predicate After(modulus: int, start: int, now: int, interval: int)
    requires modulus > 0
  {
    AfterDest(start, now, (start + interval) % modulus)
  }

  /** The comparison tells whether the interval is over, counted modulo the range, for every start and every time,
      exactly when the interval is not zero or time has not wrapped around. */
  lemma AfterIsModular(modulus: int, start: int, now: int, interval: int)
    requires 0 <= start < modulus && 0 <= now < modulus && 0 <= interval < modulus
    ensures After(modulus, start, now, interval) == ((now - start) % modulus >= interval)
       <==> interval > 0 || now >= start
  {
    Remainder(now - start, modulus);
    Remainder(start + interval, modulus);
  }

  lemma Remainder(n: int, modulus: int)
    requires -modulus < n < 2 * modulus && modulus > 0
    ensures n % modulus == if n < 0 then n + modulus else if n >= modulus then n - modulus else n
  {
    if n < 0 {
      assert n == -1 * modulus + (n + modulus);
    } else if n >= modulus {
      assert n == 1 * modulus + (n - modulus);
    }
  }

  /** int64_t time; the sum does not overflow. */
  predicate Passed(start: int, now: int, interval: int) {
    AfterDest(start, now, start + interval)
  }

  /** Whether an operation is allowed. A start of 0 means that there was none yet. */
  predicate Allowed(start: int, now: int, interval: int) {
    start == 0 || Passed(start, now, interval)
  }

  class RateLimiter {
    const interval: int
    var start: int

    constructor (interval: int)
      requires interval > 0
      ensures this.interval == interval && start == 0
    {
      this.interval := interval;
      start := 0;
    }

    method Allow(now: int) returns (allowed: bool)
      modifies this
      ensures allowed == Allowed(old(start), now, interval)
      ensures start == if allowed then now else old(start)
    {
      if start != 0 {
        if !Passed(start, now, interval) {
          return false;
        }
      }
      start := now;
      return true;
    }

    /** Polls at these times, and collects those at which the operation was performed. */
    method Poll(times: seq<int>) returns (performed: seq<int>)
      modifies this
      ensures performed == Performed(interval, old(start), times)
    {
      performed := [];
      ghost var first := start;
      for n := 0 to |times|
        invariant performed == Performed(interval, first, times[..n])
        invariant start == Latest(first, performed)
      {
        var allowed := Allow(times[n]);
        assert times[..n + 1][..n] == times[..n];
        if allowed {
          performed := performed + [times[n]];
        }
      }
      assert times[..|times|] == times;
    }
  }

  function Latest(start: int, performed: seq<int>): int {
    if performed == [] then start else performed[|performed| - 1]
  }

  /** The times at which an operation is performed that is polled at these times. */
  function Performed(interval: int, start: int, times: seq<int>): seq<int> {
    if times == [] then []
    else
      var n := |times| - 1;
      var earlier := Performed(interval, start, times[..n]);
      if Allowed(Latest(start, earlier), times[n], interval) then earlier + [times[n]] else earlier
  }

  /** Readings of a clock that is positive and does not go back. */
  ghost predicate Clock(times: seq<int>) {
    && (forall i :: 0 <= i < |times| ==> times[i] > 0)
    && forall i, j :: 0 <= i < j < |times| ==> times[i] <= times[j]
  }

  predicate SpacedBy(times: seq<int>, interval: int) {
    forall i :: 0 <= i < |times| - 1 ==> times[i + 1] - times[i] >= interval
  }

  predicate WithinGap(times: seq<int>, gap: int) {
    forall i :: 0 <= i < |times| - 1 ==> times[i + 1] - times[i] <= gap
  }

  lemma {:induction false} PerformedOnClock(interval: int, times: seq<int>)
    requires interval > 0 && Clock(times)
    ensures var performed := Performed(interval, 0, times);
            && SpacedBy(performed, interval)
            && (forall t :: t in performed ==> t in times && t > 0)
            && (times != [] ==>
                  && performed != [] && performed[0] == times[0]
                  && Latest(0, performed) <= times[|times| - 1] < Latest(0, performed) + interval)
  {
    if times != [] {
      PerformedOnClock(interval, times[..|times| - 1]);
    }
  }

  /** Consecutive operations are at least the interval apart, and the first poll performs one. */
  lemma {:induction false} AtLeastInterval(interval: int, times: seq<int>)
    requires interval > 0 && Clock(times)
    ensures SpacedBy(Performed(interval, 0, times), interval)
    ensures times != [] ==> Performed(interval, 0, times) != [] && Performed(interval, 0, times)[0] == times[0]
  {
    PerformedOnClock(interval, times);
  }

  lemma {:induction false} Spread(times: seq<int>, interval: int, i: nat, j: nat)
    requires SpacedBy(times, interval) && i <= j < |times|
    ensures times[j] - times[i] >= (j - i) * interval
  {
    if i < j {
      Spread(times, interval, i, j - 1);
      assert times[j - 1 + 1] - times[j - 1] >= interval;
      assert (j - i) * interval == (j - 1 - i) * interval + interval;
    }
  }

  /** A window of time of a given length holds at most one operation more than whole intervals. */
  lemma WindowHolds(interval: int, times: seq<int>, i: nat, j: nat, length: int)
    requires interval > 0 && Clock(times)
    requires i <= j < |Performed(interval, 0, times)|
    requires Performed(interval, 0, times)[j] - Performed(interval, 0, times)[i] <= length
    ensures j - i + 1 <= length / interval + 1
  {
    PerformedOnClock(interval, times);
    Spread(Performed(interval, 0, times), interval, i, j);
    Quotient(j - i, interval, length);
  }

  lemma Quotient(n: int, interval: int, length: int)
    requires interval > 0 && n * interval <= length
    ensures n <= length / interval
  {
    var whole := length / interval + 1;
    assert length == (length / interval) * interval + length % interval;
    assert (whole - n) * interval == whole * interval - n * interval;
    Positive(whole - n, interval);
  }

  lemma Positive(n: int, interval: int)
    requires interval > 0 && n * interval > 0
    ensures n > 0
  {
  }

  /** If polls are at most a gap apart, consecutive operations are less than the interval and the gap apart, and at any
      poll the last operation is less than the interval ago. */
  lemma {:induction false} LessThanIntervalAndGap(interval: int, times: seq<int>, gap: int)
    requires interval > 0 && Clock(times) && WithinGap(times, gap)
    ensures var performed := Performed(interval, 0, times);
            && (forall i :: 0 <= i < |performed| - 1 ==> performed[i + 1] - performed[i] < interval + gap)
            && (times != [] ==> performed != [] && times[|times| - 1] - performed[|performed| - 1] < interval)
  {
    PerformedOnClock(interval, times);
    if times != [] {
      var n := |times| - 1;
      LessThanIntervalAndGap(interval, times[..n], gap);
      PerformedOnClock(interval, times[..n]);
      assert n > 0 ==> times[n - 1 + 1] - times[n - 1] <= gap && times[..n][n - 1] == times[n - 1];
    }
  }
}
