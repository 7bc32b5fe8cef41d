/** Periodic tasks that share one task of the operating system. */
module PeriodicTaskScheduler {
  import opened RateLimiter
  import opened Status

  const MILLISECOND := 1000

  const INT64_MAX: int := 0x7FFF_FFFF_FFFF_FFFF

  class Node {
    const id: string
    const limiter: RateLimiter

    constructor (id: string, interval: int)
      requires interval > 0
      ensures this.id == id && fresh(limiter) && limiter.interval == interval && limiter.start == 0
    {
      this.id := id;
      limiter := new RateLimiter(interval);
    }

    /** Runs the task, which would return `code`, if it is time to. */
    method Run(now: int, code: StatusCode) returns (ran: bool, status: StatusCode)
      modifies limiter
      ensures ran == Allowed(old(limiter.start), now, limiter.interval)
      ensures limiter.start == if ran then now else old(limiter.start)
      ensures status == if ran then code else OK
    {
      ran := limiter.Allow(now);
      status := if ran then code else OK;
    }
  }

  class PeriodicTaskScheduler {
    const maxCount: nat
    var nodes: seq<Node>
    var taskMinInterval: int

    ghost predicate Valid()
      reads this
    {
      && |nodes| <= maxCount
      && forall i, j :: 0 <= i < j < |nodes| ==> nodes[i].id != nodes[j].id && nodes[i].limiter != nodes[j].limiter
    }

    constructor (maxCount: nat)
      requires maxCount > 0
      ensures this.maxCount == maxCount && Valid() && nodes == [] && taskMinInterval == INT64_MAX
    {
      this.maxCount := maxCount;
      nodes, taskMinInterval := [], INT64_MAX;
    }

    method Add(id: string, interval: int) returns (status: StatusCode)
      requires Valid() && interval >= MILLISECOND
      modifies this
      ensures Valid()
      ensures status == if |old(nodes)| == maxCount then Error
                        else if exists i :: 0 <= i < |old(nodes)| && old(nodes)[i].id == id then InvalidArg
                        else OK
      ensures status != OK ==> nodes == old(nodes) && taskMinInterval == old(taskMinInterval)
      ensures status == OK ==>
                && |nodes| == |old(nodes)| + 1 && nodes[..|old(nodes)|] == old(nodes)
                && nodes[|nodes| - 1].id == id && nodes[|nodes| - 1].limiter.interval == interval
                && fresh(nodes[|nodes| - 1].limiter) && nodes[|nodes| - 1].limiter.start == 0
                && taskMinInterval == if interval < old(taskMinInterval) then interval else old(taskMinInterval)
    {
      if |nodes| == maxCount {
        return Error;
      }
      for i := 0 to |nodes|
        invariant forall j :: 0 <= j < i ==> nodes[j].id != id
      {
        if nodes[i].id == id {
          return InvalidArg;
        }
      }
      taskMinInterval := if interval < taskMinInterval then interval else taskMinInterval;
      var node := new Node(id, interval);
      nodes := nodes + [node];
      return OK;
    }

    /** One round: every node reads the clock and is given the chance to run its task, whatever the others return. */
    method RunNodes(readings: seq<int>, codes: seq<StatusCode>) returns (ran: seq<bool>)
      requires Valid() && |readings| == |codes| == |nodes|
      modifies set node | node in nodes :: node.limiter
      ensures |ran| == |nodes|
      ensures forall i :: 0 <= i < |nodes| ==>
                && ran[i] == Allowed(old(nodes[i].limiter.start), readings[i], nodes[i].limiter.interval)
                && nodes[i].limiter.start == if ran[i] then readings[i] else old(nodes[i].limiter.start)
    {
      ran := [];
      for i := 0 to |nodes|
        invariant |ran| == i
        invariant forall j :: 0 <= j < i ==>
                    && ran[j] == Allowed(old(nodes[j].limiter.start), readings[j], nodes[j].limiter.interval)
                    && nodes[j].limiter.start == if ran[j] then readings[j] else old(nodes[j].limiter.start)
        invariant forall j :: i <= j < |nodes| ==> nodes[j].limiter.start == old(nodes[j].limiter.start)
      {
        assert nodes[i] in nodes;
        var one, _ := nodes[i].Run(readings[i], codes[i]);
        ran := ran + [one];
      }
    }

    /** Any number of rounds; collects for each node the times at which its task ran. */
    method Rounds(readings: seq<seq<int>>, codes: seq<seq<StatusCode>>) returns (times: seq<seq<int>>)
      requires Valid() && |readings| == |codes|
      requires forall r :: 0 <= r < |readings| ==> |readings[r]| == |codes[r]| == |nodes|
      modifies set node | node in nodes :: node.limiter
      ensures |times| == |nodes|
      ensures forall i :: 0 <= i < |nodes| ==>
                times[i] == Performed(nodes[i].limiter.interval, old(nodes[i].limiter.start), Column(readings, i))
    {
      times := seq(|nodes|, _ => []);
      for r := 0 to |readings|
        invariant |times| == |nodes|
        invariant forall i :: 0 <= i < |nodes| ==>
                    RanAt(nodes[i].limiter.interval, old(nodes[i].limiter.start),
                        nodes[i].limiter.start, readings[..r], i, times[i])
      {
        var before, now := times, readings[r];
        label Round:
        var ran := RunNodes(now, codes[r]);
        times := seq(|before|, i requires 0 <= i < |before| => if ran[i] then before[i] + [now[i]] else before[i]);
        forall i | 0 <= i < |nodes|
          ensures RanAt(nodes[i].limiter.interval, old(nodes[i].limiter.start),
              nodes[i].limiter.start, readings[..r + 1], i, times[i])
        {
          RanStep(nodes[i].limiter.interval, old(nodes[i].limiter.start),
              old@Round(nodes[i].limiter.start), readings, r, i, before[i]);
        }
      }
      assert readings[..|readings|] == readings;
    }
  }

  /** The readings of one node. */
  function Column(readings: seq<seq<int>>, i: nat): seq<int>
    requires forall r :: 0 <= r < |readings| ==> i < |readings[r]|
  {
    seq(|readings|, r requires 0 <= r < |readings| => readings[r][i])
  }

  lemma ColumnStep(readings: seq<seq<int>>, r: nat, i: nat)
    requires r < |readings| && forall q :: 0 <= q < |readings| ==> i < |readings[q]|
    ensures Column(readings[..r + 1], i) == Column(readings[..r], i) + [readings[r][i]]
  {
  }

  /** A node whose limiter was at `start` has run at these times, and its limiter is at `now`. */
  ghost predicate RanAt(interval: int, start: int, now: int, readings: seq<seq<int>>, i: nat, times: seq<int>)
    requires forall r :: 0 <= r < |readings| ==> i < |readings[r]|
  {
    && times == Performed(interval, start, Column(readings, i))
    && now == Latest(start, times)
  }

  /** One more round of a node. */
  lemma RanStep(interval: int, start: int, now: int, readings: seq<seq<int>>, r: nat, i: nat, times: seq<int>)
    requires r < |readings| && forall q :: 0 <= q < |readings| ==> i < |readings[q]|
    requires RanAt(interval, start, now, readings[..r], i, times)
    ensures var reading := readings[r][i];
            if Allowed(now, reading, interval) then
              RanAt(interval, start, reading, readings[..r + 1], i, times + [reading])
            else
              RanAt(interval, start, now, readings[..r + 1], i, times)
  {
    ColumnStep(readings, r, i);
  }
}
