/** Splitting a string at a delimiter, as the program does it, and the runs between the delimiters. */
module StringOps {

  /** The position of the first `c` in `s`, or the length of `s`. */
  function Index(s: string, c: char): (n: nat)
    ensures n <= |s|
    ensures n < |s| ==> s[n] == c
    ensures forall i :: 0 <= i < n ==> s[i] != c
  {
    if s == [] || s[0] == c then 0 else 1 + Index(s[1..], c)
  }

  /** The longest parts of `s` without the delimiter that are not empty, in order. */
  function Runs(s: string, delimiter: char): seq<string> {
    var n := Index(s, delimiter);
    if s == [] then []
    else if n == |s| then [s]
    else if n == 0 then Runs(s[1..], delimiter)
    else [s[..n]] + Runs(s[n + 1..], delimiter)
  }

  /** The only run of a string is lost when it reaches to the end, unless it is a last single character. */
  predicate Lost(s: string, delimiter: char) {
    var runs := Runs(s, delimiter);
    |runs| == 1 && s != [] && s[|s| - 1] != delimiter && (|runs[0]| >= 2 || |s| < 2)
  }

  /** The runs from a position on. */
  lemma RunsFrom(s: string, delimiter: char, start: nat, n: nat)
    requires start < |s| && n == Index(s[start..], delimiter)
    ensures Runs(s[start..], delimiter)
         == if n == |s| - start then [s[start..]]
            else (if s[start] == delimiter then [] else [s[start..start + n]]) + Runs(s[start + n + 1..], delimiter)
  {
    var rest := s[start..];
    if n < |rest| {
      assert rest[..n] == s[start..start + n] && rest[n + 1..] == s[start + n + 1..];
      assert rest[1..] == s[start + 1..];
    }
  }

  lemma Associate(a: seq<string>, b: seq<string>, c: seq<string>)
    ensures a + (b + c) == (a + b) + c
    ensures b == [] ==> a + b == a
  {
  }

  lemma LastSymbol(s: string, delimiter: char)
    requires |s| == 1
    ensures Runs(s, delimiter) == if s[0] == delimiter then [] else [s]
  {
  }

  /** One step of the cursor: what is left of the runs, and what is found on the way. */
  lemma Advance(s: string, delimiter: char, start: nat, n: nat, values: seq<string>, all: seq<string>)
    returns (found: seq<string>)
    requires start < |s| && n == Index(s[start..], delimiter) < |s| - start
    requires all == values + Runs(s[start..], delimiter)
    ensures found == if s[start] == delimiter then values else values + [s[start..start + n]]
    ensures s[start + n] == delimiter && all == found + Runs(s[start + n + 1..], delimiter)
  {
    RunsFrom(s, delimiter, start, n);
    found := if s[start] == delimiter then values else values + [s[start..start + n]];
    Associate(values, if s[start] == delimiter then [] else [s[start..start + n]], Runs(s[start + n + 1..], delimiter));
  }

  /** The runs at the last character. */
  lemma AtLast(s: string, delimiter: char, values: seq<string>, all: seq<string>)
    requires s != [] && all == values + Runs(s[|s| - 1..], delimiter)
    ensures all == if s[|s| - 1] == delimiter then values else values + [[s[|s| - 1]]]
  {
    LastSymbol(s[|s| - 1..], delimiter);
    assert s[|s| - 1..] == [s[|s| - 1]];
    Associate(values, [], []);
  }

  /** What the loop makes of the runs of a string of two characters or more. */
  predicate Settled(s: string, delimiter: char, all: seq<string>, found: seq<string>)
    requires s != []
  {
    found == if |all| == 1 && s[|s| - 1] != delimiter && |all[0]| >= 2 then [] else all
  }

  /** One round of the loop, which goes on from `next` unless it is done. */
  method FindRun(delimiter: char, s: string, start: nat, values: seq<string>, ghost all: seq<string>)
    returns (done: bool, found: seq<string>, next: nat)
    requires |s| >= 2 && start < |s| && all == values + Runs(s[start..], delimiter)
    ensures done ==> Settled(s, delimiter, all, found)
    ensures !done ==> start < next < |s| && all == found + Runs(s[next..], delimiter)
  {
    found, next := values, start;
    if start == |s| - 1 {
      AtLast(s, delimiter, values, all);
      if s[start] != delimiter {
        found := found + [[s[start]]];
      }
      return true, found, next;
    }
    var n := Index(s[start..], delimiter);
    if n == |s| - start {
      RunsFrom(s, delimiter, start, n);
      assert s[|s| - 1] == s[start..][|s| - 1 - start];
      if found != [] {
        found := found + [s[start..]];
      }
      return true, found, next;
    }
    ghost var later := Advance(s, delimiter, start, n, values, all);
    if s[start] != delimiter {
      found := found + [s[start..start + n]];
    }
    if start + n == |s| - 1 {
      Associate(found, [], []);
      return true, found, next;
    }
    return false, found, start + n + 1;
  }

  /** The cursor `start` moves from one delimiter to the next. The view is a whole string, so a search for the
      delimiter does not go past its end. The runs are found in order, exactly unless the only one is lost. */
  method Split(delimiter: char, s: string) returns (values: seq<string>)
    ensures values == Runs(s, delimiter) <==> !Lost(s, delimiter)
    ensures Lost(s, delimiter) ==> values == []
  {
    if |s| < 2 {
      if |s| == 1 {
        LastSymbol(s, delimiter);
      }
      return [];
    }
    ghost var all := Runs(s, delimiter);
    values := [];
    var start := 0;
    assert s[0..] == s;
    while true
      invariant start < |s| && all == values + Runs(s[start..], delimiter)
      decreases |s| - start
    {
      var done, next;
      done, values, next := FindRun(delimiter, s, start, values, all);
      if done {
        return;
      }
      start := next;
    }
  }

  /** Delimiters up to position `n` and one token from there on, which has two characters or more or is the string. */
  predicate LoneToken(s: string, delimiter: char, n: nat) {
    && n <= |s| && Token(s[n..], delimiter)
    && (forall i :: 0 <= i < n ==> s[i] == delimiter)
    && (|s| - n >= 2 || |s| == 1)
  }

  /** When the only run is lost, told by the characters of the string. */
  lemma LostExactly(s: string, delimiter: char)
    ensures Lost(s, delimiter) <==> exists n: nat :: LoneToken(s, delimiter, n)
  {
    if n: nat :| LoneToken(s, delimiter, n) {
      LeadingDelimiters(s, delimiter, n);
      assert s[|s| - 1] == s[n..][|s| - 1 - n];
    }
    if Lost(s, delimiter) {
      var n := OnlyRun(s, delimiter);
      assert LoneToken(s, delimiter, n);
    }
  }

  /** Leading delimiters do not matter. */
  lemma {:induction false} LeadingDelimiters(s: string, delimiter: char, n: nat)
    requires n < |s| && forall i :: 0 <= i < n ==> s[i] == delimiter
    requires Token(s[n..], delimiter)
    ensures Runs(s, delimiter) == [s[n..]]
    decreases n
  {
    if n == 0 {
      assert s[0..] == s;
      FirstRun(s, [], delimiter);
    } else {
      LeadingDelimiters(s[1..], delimiter, n - 1);
      assert s[1..][n - 1..] == s[n..];
      IndexOfFirst(s, delimiter, 0);
    }
  }

  /** Where the only run starts that reaches to the end. */
  lemma {:induction false} OnlyRun(s: string, delimiter: char) returns (n: nat)
    requires s != [] && |Runs(s, delimiter)| == 1 && s[|s| - 1] != delimiter
    ensures n < |s| && Token(s[n..], delimiter) && Runs(s, delimiter) == [s[n..]]
    ensures forall i :: 0 <= i < n ==> s[i] == delimiter
    decreases |s|
  {
    var end := Index(s, delimiter);
    if end == |s| {
      n := 0;
      assert s[0..] == s;
    } else if end == 0 {
      var rest := OnlyRun(s[1..], delimiter);
      n := rest + 1;
      assert s[n..] == s[1..][n - 1..];
      assert forall i :: 1 <= i < n ==> s[i] == s[1..][i - 1];
    } else {
      HasRun(s[end + 1..], delimiter);
    }
  }

  lemma {:induction false} HasRun(s: string, delimiter: char)
    requires s != [] && s[|s| - 1] != delimiter
    ensures Runs(s, delimiter) != []
    decreases |s|
  {
    if Index(s, delimiter) == 0 {
      HasRun(s[1..], delimiter);
    }
  }

  // ---- Runs and joined strings ----

  function Join(tokens: seq<string>, delimiter: char): string {
    if tokens == [] then []
    else if |tokens| == 1 then tokens[0]
    else tokens[0] + [delimiter] + Join(tokens[1..], delimiter)
  }

  predicate Token(token: string, delimiter: char) {
    token != [] && delimiter !in token
  }

  lemma {:induction false} IndexOfFirst(s: string, c: char, n: nat)
    requires n <= |s| && c !in s[..n] && (n < |s| ==> s[n] == c)
    ensures Index(s, c) == n
  {
    assert forall i :: 0 <= i < n ==> s[i] == s[..n][i];
  }

  lemma FirstRun(token: string, rest: string, delimiter: char)
    requires Token(token, delimiter)
    ensures Runs(token + [delimiter] + rest, delimiter) == [token] + Runs(rest, delimiter)
    ensures Runs(token, delimiter) == [token]
  {
    var s := token + [delimiter] + rest;
    assert s[..|token|] == token && s[|token| + 1..] == rest;
    IndexOfFirst(s, delimiter, |token|);
    assert token[..|token|] == token;
    IndexOfFirst(token, delimiter, |token|);
  }

  /** The runs of joined tokens are the tokens. */
  lemma {:induction false} RunsOfJoin(tokens: seq<string>, delimiter: char)
    requires forall i :: 0 <= i < |tokens| ==> Token(tokens[i], delimiter)
    ensures Runs(Join(tokens, delimiter), delimiter) == tokens
  {
    if |tokens| == 1 {
      FirstRun(tokens[0], [], delimiter);
    } else if |tokens| >= 2 {
      RunsOfJoin(tokens[1..], delimiter);
      FirstRun(tokens[0], Join(tokens[1..], delimiter), delimiter);
    }
  }

  function Total(tokens: seq<string>): nat {
    if tokens == [] then 0 else |tokens[0]| + Total(tokens[1..])
  }

  /** Tokens that can be found in a string, which is no longer than needed only if it is the tokens joined. */
  predicate Fits(tokens: seq<string>, s: string, delimiter: char) {
    && (forall i :: 0 <= i < |tokens| ==> Token(tokens[i], delimiter))
    && |s| >= Total(tokens) + (if tokens == [] then 0 else |tokens| - 1)
    && (tokens != [] && |s| == Total(tokens) + |tokens| - 1 ==> s == Join(tokens, delimiter))
  }

  lemma FitsPrepend(token: string, tokens: seq<string>, rest: string, delimiter: char)
    requires Token(token, delimiter) && Fits(tokens, rest, delimiter)
    ensures Fits([token] + tokens, token + [delimiter] + rest, delimiter)
  {
    var all := [token] + tokens;
    assert all[0] == token && all[1..] == tokens;
    assert Total(all) == |token| + Total(tokens);
  }

  /** A string is at least as long as its runs joined; if it is not longer it is its runs joined. */
  lemma {:induction false} RunsFit(s: string, delimiter: char)
    ensures Fits(Runs(s, delimiter), s, delimiter)
    decreases |s|
  {
    var n := Index(s, delimiter);
    if s != [] && n == |s| {
      assert [s][1..] == [];
    } else if s != [] && n == 0 {
      RunsFit(s[1..], delimiter);
    } else if s != [] {
      RunsFit(s[n + 1..], delimiter);
      assert s == s[..n] + [delimiter] + s[n + 1..];
      FitsPrepend(s[..n], Runs(s[n + 1..], delimiter), s[n + 1..], delimiter);
    }
  }

  // ---- Runs and delimiters between them ----

  function Delimiters(delimiter: char, count: nat): string {
    seq(count, _ => delimiter)
  }

  /** Tokens with delimiters before the first, between them and after the last: `gaps[i]` before the `i`-th one. */
  function Spaced(tokens: seq<string>, gaps: seq<nat>, delimiter: char): string
    requires |gaps| == |tokens| + 1
  {
    if tokens == [] then Delimiters(delimiter, gaps[0])
    else Delimiters(delimiter, gaps[0]) + tokens[0] + Spaced(tokens[1..], gaps[1..], delimiter)
  }

  /** Tokens, and at least one delimiter between any two of them. */
  predicate Spacing(tokens: seq<string>, gaps: seq<nat>, delimiter: char) {
    && |gaps| == |tokens| + 1
    && (forall i :: 0 <= i < |tokens| ==> Token(tokens[i], delimiter))
    && forall i :: 0 < i < |tokens| ==> gaps[i] > 0
  }

  lemma {:induction false} SkipDelimiters(s: string, delimiter: char, count: nat)
    ensures Runs(Delimiters(delimiter, count) + s, delimiter) == Runs(s, delimiter)
  {
    var all := Delimiters(delimiter, count) + s;
    if count == 0 {
      assert all == s;
    } else {
      assert all[1..] == Delimiters(delimiter, count - 1) + s;
      IndexOfFirst(all, delimiter, 0);
      SkipDelimiters(s, delimiter, count - 1);
    }
  }

  lemma TokenFirst(token: string, rest: string, delimiter: char)
    requires Token(token, delimiter) && (rest != [] ==> rest[0] == delimiter)
    ensures Runs(token + rest, delimiter) == [token] + Runs(rest, delimiter)
  {
    if rest == [] {
      assert token + rest == token;
      FirstRun(token, [], delimiter);
    } else {
      assert token + rest == token + [delimiter] + rest[1..];
      FirstRun(token, rest[1..], delimiter);
      IndexOfFirst(rest, delimiter, 0);
    }
  }

  /** Whatever delimiters there are around them and between them, the runs are the tokens. */
  lemma {:induction false} RunsOfSpaced(tokens: seq<string>, gaps: seq<nat>, delimiter: char)
    requires Spacing(tokens, gaps, delimiter)
    ensures Runs(Spaced(tokens, gaps, delimiter), delimiter) == tokens
  {
    var first := Delimiters(delimiter, gaps[0]);
    if tokens == [] {
      assert first == first + [];
      SkipDelimiters([], delimiter, gaps[0]);
    } else {
      var rest := Spaced(tokens[1..], gaps[1..], delimiter);
      RunsOfSpaced(tokens[1..], gaps[1..], delimiter);
      assert first + tokens[0] + rest == first + (tokens[0] + rest);
      SkipDelimiters(tokens[0] + rest, delimiter, gaps[0]);
      if |tokens| > 1 {
        assert gaps[1] > 0;
      }
      TokenFirst(tokens[0], rest, delimiter);
    }
  }

  /** The string is its runs with these gaps. */
  predicate Fills(s: string, gaps: seq<nat>, delimiter: char) {
    Spacing(Runs(s, delimiter), gaps, delimiter) && s == Spaced(Runs(s, delimiter), gaps, delimiter)
  }

  lemma FillsWhole(s: string, delimiter: char)
    requires Token(s, delimiter)
    ensures Fills(s, [0, 0], delimiter)
  {
    FirstRun(s, [], delimiter);
    SpacedPrepend(s, [], [0], delimiter);
    assert s + Spaced([], [0], delimiter) == s;
    assert [0] + [0] == [0, 0];
  }

  lemma FillsAfterDelimiter(s: string, rest: seq<nat>, gaps: seq<nat>, delimiter: char)
    requires s != [] && s[0] == delimiter && Fills(s[1..], rest, delimiter) && gaps == [rest[0] + 1] + rest[1..]
    ensures Fills(s, gaps, delimiter)
  {
    IndexOfFirst(s, delimiter, 0);
    OneMoreDelimiter(Runs(s[1..], delimiter), rest, gaps, delimiter);
  }

  lemma AfterToken(token: string, tail: string, runs: seq<string>, rest: seq<nat>, gaps: seq<nat>, delimiter: char)
    requires Token(token, delimiter) && Spacing(runs, rest, delimiter) && tail == Spaced(runs, rest, delimiter)
    requires gaps == [rest[0] + 1] + rest[1..]
    ensures Spacing([token] + runs, [0] + gaps, delimiter)
    ensures token + ([delimiter] + tail) == Spaced([token] + runs, [0] + gaps, delimiter)
  {
    OneMoreDelimiter(runs, rest, gaps, delimiter);
    SpacedPrepend(token, runs, gaps, delimiter);
    SpacingPrepend(token, runs, gaps, delimiter);
  }

  lemma FirstToken(s: string, n: nat, delimiter: char) returns (token: string, tail: string)
    requires n < |s| && n == Index(s, delimiter) > 0
    ensures Token(token, delimiter) && s == token + ([delimiter] + tail) && |tail| < |s|
    ensures Runs(s, delimiter) == [token] + Runs(tail, delimiter)
  {
    token, tail := s[..n], s[n + 1..];
  }

  /** Every string is its runs with delimiters around and between them. */
  lemma {:induction false} SpacedRuns(s: string, delimiter: char) returns (gaps: seq<nat>)
    ensures Fills(s, gaps, delimiter)
    decreases |s|
  {
    var n := Index(s, delimiter);
    if s == [] {
      gaps := [0];
    } else if n == |s| {
      gaps := [0, 0];
      FillsWhole(s, delimiter);
    } else if n == 0 {
      var rest := SpacedRuns(s[1..], delimiter);
      gaps := [rest[0] + 1] + rest[1..];
      FillsAfterDelimiter(s, rest, gaps, delimiter);
    } else {
      var token, tail := FirstToken(s, n, delimiter);
      var rest := SpacedRuns(tail, delimiter);
      var more := [rest[0] + 1] + rest[1..];
      AfterToken(token, tail, Runs(tail, delimiter), rest, more, delimiter);
      gaps := [0] + more;
    }
  }

  lemma SpacedPrepend(token: string, tokens: seq<string>, gaps: seq<nat>, delimiter: char)
    requires |gaps| == |tokens| + 1
    ensures Spaced([token] + tokens, [0] + gaps, delimiter) == token + Spaced(tokens, gaps, delimiter)
  {
    assert ([token] + tokens)[1..] == tokens && ([0] + gaps)[1..] == gaps;
    assert Delimiters(delimiter, 0) + token == token;
  }

  lemma SpacingPrepend(token: string, tokens: seq<string>, gaps: seq<nat>, delimiter: char)
    requires Token(token, delimiter) && Spacing(tokens, gaps, delimiter) && gaps[0] > 0
    ensures Spacing([token] + tokens, [0] + gaps, delimiter)
  {
  }

  lemma OneMoreDelimiter(tokens: seq<string>, gaps: seq<nat>, more: seq<nat>, delimiter: char)
    requires |gaps| == |tokens| + 1 && more == [gaps[0] + 1] + gaps[1..]
    ensures Spaced(tokens, more, delimiter) == [delimiter] + Spaced(tokens, gaps, delimiter)
  {
    var first := Delimiters(delimiter, gaps[0]);
    assert more[0] == gaps[0] + 1 && more[1..] == gaps[1..];
    OneMore(delimiter, gaps[0]);
    if tokens != [] {
      Regroup([delimiter], first, tokens[0], Spaced(tokens[1..], gaps[1..], delimiter));
    }
  }

  lemma OneMore(delimiter: char, count: nat)
    ensures Delimiters(delimiter, count + 1) == [delimiter] + Delimiters(delimiter, count)
  {
  }

  lemma Regroup(a: string, b: string, c: string, d: string)
    ensures a + b + c + d == a + (b + c + d)
  {
  }

  /** The runs of a string are the only tokens that make the string with delimiters around and between them. */
  lemma RunsExactly(s: string, delimiter: char, tokens: seq<string>)
    ensures Runs(s, delimiter) == tokens
       <==> exists gaps :: Spacing(tokens, gaps, delimiter) && s == Spaced(tokens, gaps, delimiter)
  {
    var found := SpacedRuns(s, delimiter);
    if gaps :| Spacing(tokens, gaps, delimiter) && s == Spaced(tokens, gaps, delimiter) {
      RunsOfSpaced(tokens, gaps, delimiter);
    }
  }
}
