/** One pass of the 1-Wire ROM search (Search ROM [F0h]) against a fixed set of devices.

    The bus is a wired AND over the devices still taking part: reading twice gives the AND of
    their bits and the AND of the complements, and writing a bit drops the devices that disagree. */
module RomSearch {
  /** A 64-bit ROM code in bus order. */
  type Code = c: seq<bool> | |c| == 64 witness seq(64, _ => false)

  /** What the scanner remembers between passes. */
  datatype Scanner = Scanner(finished: bool, prev: int, curr: int, conflicts: nat)

  const FRESH := Scanner(false, -1, -1, 0)

  /** `Halted` is a failed configASSERT. */
  datatype Direction = Halted | Take(bit: bool, scanner: Scanner)

  /** The bit to follow where both kinds of device are present; `buf` is the code under construction. */
  function HandleDiscrepancy(s: Scanner, buf: seq<bool>, position: nat): Direction
    requires |buf| == 64 && s.prev < 64
  {
    if s.curr == position then
      if position == 0 then Take(true, s.(prev := 0, curr := -1, conflicts := 0))
      else if s.conflicts == 0 then Halted
      else Take(true, s.(curr := s.prev, conflicts := s.conflicts - 1))
    else if position > s.curr then
      Take(false, s.(prev := if s.prev < 0 then position else s.curr, curr := position, conflicts := s.conflicts + 1))
    else if s.prev < 0 then Halted
    else Take(buf[s.prev], s.(prev := position))
  }

  /** The AND of the bits of the participating devices. */
  predicate AllOnes(active: set<Code>, n: nat)
    requires n < 64
  {
    forall d | d in active :: d[n]
  }

  /** The AND of the complements. */
  predicate AllZeros(active: set<Code>, n: nat)
    requires n < 64
  {
    forall d | d in active :: !d[n]
  }

  /** The devices that stay on the bus after `bit` is written. */
  function Keep(active: set<Code>, n: nat, bit: bool): set<Code>
    requires n < 64
  {
    set d | d in active && d[n] == bit
  }

  datatype Outcome = Aborted | Silent(scanner: Scanner, buf: Code) | Found(scanner: Scanner, code: Code)

  /** The bit loop from position `n` on. */
  function Pass(s: Scanner, active: set<Code>, buf: Code, n: nat): Outcome
    requires n <= 64 && s.prev < 64
    decreases 64 - n
  {
    if n == 64 then Found(s, buf)
    else if AllOnes(active, n) && AllZeros(active, n) then Silent(s, buf)
    else if !AllOnes(active, n) && !AllZeros(active, n) then
      match HandleDiscrepancy(s, buf, n)
      case Halted => Aborted
      case Take(bit, s') => Pass(s', Keep(active, n, bit), buf[n := bit], n + 1)
    else
      Pass(s, Keep(active, n, AllOnes(active, n)), buf[n := AllOnes(active, n)], n + 1)
  }

  /** The devices whose codes start with `w`. */
  function Match(devices: set<Code>, w: seq<bool>): set<Code> {
    set d | d in devices && w <= d
  }

  lemma KeepIsMatch(devices: set<Code>, w: seq<bool>, bit: bool)
    requires |w| < 64
    ensures Keep(Match(devices, w), |w|, bit) == Match(devices, w + [bit])
  {
    forall d: Code | d in devices ensures w <= d && d[|w|] == bit <==> w + [bit] <= d {
      assert w + [bit] <= d <==> d[..|w| + 1] == w + [bit];
      assert w <= d <==> d[..|w|] == w;
      assert d[..|w| + 1] == d[..|w|] + [d[|w|]];
    }
  }

  lemma StepKeeps(devices: set<Code>, buf: Code, n: nat, bit: bool, kept: Code)
    requires n < 64 && kept in Match(devices, buf[..n]) && kept[n] == bit
    ensures buf[n := bit][..n + 1] == buf[..n] + [bit]
    ensures Keep(Match(devices, buf[..n]), n, bit) == Match(devices, buf[n := bit][..n + 1]) != {}
  {
    assert buf[n := bit][..n + 1] == buf[..n] + [bit];
    KeepIsMatch(devices, buf[..n], bit);
    assert kept in Keep(Match(devices, buf[..n]), n, bit);
  }

  datatype Progress = At(scanner: Scanner, active: set<Code>, buf: Code) | Over

  /** How far the bit loop that is at position `n` has come when it reaches position `m`, if it does. */
  function Reach(s: Scanner, active: set<Code>, buf: Code, n: nat, m: nat): Progress
    requires n <= m <= 64 && s.prev < 64
    decreases m - n
  {
    if n == m then At(s, active, buf)
    else if AllOnes(active, n) && AllZeros(active, n) then Over
    else if !AllOnes(active, n) && !AllZeros(active, n) then
      match HandleDiscrepancy(s, buf, n)
      case Halted => Over
      case Take(bit, s') => Reach(s', Keep(active, n, bit), buf[n := bit], n + 1, m)
    else
      Reach(s, Keep(active, n, AllOnes(active, n)), buf[n := AllOnes(active, n)], n + 1, m)
  }

  /** The loop with this outcome has come to position `m` with the devices that match all that is written by then, or
      has failed before. */
  predicate KeepsMatching(devices: set<Code>, written: seq<bool>, m: nat, outcome: Outcome, progress: Progress)
    requires |written| <= m <= 64
  {
    match progress
    case At(t, active, buf) =>
      && active == Match(devices, buf[..m]) != {} && written <= buf
      && t.prev < 64 && outcome == Pass(t, active, buf, m)
    case Over => outcome.Aborted?
  }

  lemma Shorter(devices: set<Code>, buf: Code, n: nat, bit: bool, m: nat, outcome: Outcome, progress: Progress)
    requires n < m <= 64 && KeepsMatching(devices, buf[n := bit][..n + 1], m, outcome, progress)
    ensures KeepsMatching(devices, buf[..n], m, outcome, progress)
  {
    if progress.At? {
      assert progress.buf[..n] == progress.buf[..n + 1][..n] == buf[n := bit][..n + 1][..n] == buf[..n];
    }
  }

  /** The loop goes on with one bit, which some participating device has. */
  lemma OneBit(s: Scanner, active: set<Code>, buf: Code, n: nat, m: nat) returns (bit: bool, t: Scanner, d: Code)
    requires n < m <= 64 && s.prev < 64 && active != {}
    requires AllOnes(active, n) || AllZeros(active, n) || HandleDiscrepancy(s, buf, n).Take?
    ensures t.prev < 64 && d in active && d[n] == bit
    ensures Pass(s, active, buf, n) == Pass(t, Keep(active, n, bit), buf[n := bit], n + 1)
    ensures Reach(s, active, buf, n, m) == Reach(t, Keep(active, n, bit), buf[n := bit], n + 1, m)
  {
    if !AllOnes(active, n) && !AllZeros(active, n) {
      var direction := HandleDiscrepancy(s, buf, n);
      bit, t := direction.bit, direction.scanner;
      d :| d in active && d[n] == bit;
    } else {
      bit, t := AllOnes(active, n), s;
      d :| d in active;
    }
  }

  /** At every position that a pass reaches, from any scanner state, the participating devices are exactly those that
      match the bits written so far, and there is one; a position is missed only when an assertion fails before it. */
  lemma {:induction false} PassKeepsMatching(s: Scanner, devices: set<Code>, buf: Code, n: nat, m: nat)
    requires n <= m <= 64 && s.prev < 64 && Match(devices, buf[..n]) != {}
    ensures var active, outcome := Match(devices, buf[..n]), Pass(s, Match(devices, buf[..n]), buf, n);
            KeepsMatching(devices, buf[..n], m, outcome, Reach(s, active, buf, n, m))
    decreases m - n
  {
    var active := Match(devices, buf[..n]);
    if n < m {
      var d :| d in active;
      if AllOnes(active, n) || AllZeros(active, n) || HandleDiscrepancy(s, buf, n).Take? {
        var bit, t, kept := OneBit(s, active, buf, n, m);
        StepKeeps(devices, buf, n, bit, kept);
        PassKeepsMatching(t, devices, buf[n := bit], n + 1, m);
        Shorter(devices, buf, n, bit, m, Pass(s, active, buf, n), Reach(s, active, buf, n, m));
      }
    }
  }

  /** In any pass, from any scanner state, there is always a device left: a pass never reads silence, and what it finds
      is on the bus. */
  lemma PassFindsADevice(s: Scanner, devices: set<Code>, buf: Code, n: nat)
    requires n <= 64 && s.prev < 64 && Match(devices, buf[..n]) != {}
    ensures var outcome := Pass(s, Match(devices, buf[..n]), buf, n);
            && !outcome.Silent?
            && (outcome.Found? ==> outcome.code in devices && buf[..n] <= outcome.code && outcome.scanner.prev < 64)
  {
    PassKeepsMatching(s, devices, buf, n, 64);
    var progress := Reach(s, Match(devices, buf[..n]), buf, n, 64);
    if progress.At? {
      assert progress.buf[..64] == progress.buf;
      var d :| d in progress.active;
      assert d == d[..64] == progress.buf;
    }
  }

  /** The devices agree up to position `n` and disagree there. */
  ghost predicate FirstForkAt(devices: set<Code>, n: nat)
    requires n < 64
  {
    && (forall i, d, e :: 0 <= i < n && d in devices && e in devices ==> d[i] == e[i])
    && exists d, e :: d in devices && e in devices && !d[n] && e[n]
  }

  /** Before the first fork the loop writes what all devices have and leaves the scanner as it is. */
  lemma {:induction false} ComesToFork(s: Scanner, devices: set<Code>, buf: Code, n: nat, m: nat) returns (at: Code)
    requires n <= m < 64 && s.prev < 64 && devices != {} && FirstForkAt(devices, m)
    requires Match(devices, buf[..n]) == devices
    ensures Pass(s, devices, buf, n) == Pass(s, devices, at, m)
    ensures Match(devices, at[..m]) == devices && at[m..] == buf[m..]
    decreases m - n
  {
    if n == m {
      at := buf;
    } else {
      var d :| d in devices;
      assert forall e :: e in devices ==> e[n] == d[n];
      StepKeeps(devices, buf, n, d[n], d);
      assert Keep(devices, n, d[n]) == devices;
      assert AllOnes(devices, n) == d[n] && AllZeros(devices, n) == !d[n];
      at := ComesToFork(s, devices, buf[n := d[n]], n + 1, m);
    }
  }

  lemma TakesSide(s: Scanner, devices: set<Code>, at: Code, n: nat, bit: bool)
    requires n < 64 && FirstForkAt(devices, n) && n < s.curr && n <= s.prev < 64
    requires Match(devices, at[..n]) == devices && at[s.prev] == bit
    ensures Pass(s, devices, at, n) == Pass(s.(prev := n), Keep(devices, n, bit), at[n := bit], n + 1)
    ensures Keep(devices, n, bit) == Match(devices, at[n := bit][..n + 1]) != {}
  {
    var d, e :| d in devices && e in devices && !d[n] && e[n];
    StepKeeps(devices, at, n, bit, if bit then e else d);
  }

  /** Below its current discrepancy a scan takes the side that the caller's buffer has at the previous one: at the first
      fork of the devices, if that lies further on in the buffer, the code found has that bit. */
  lemma ReadsBack(s: Scanner, devices: set<Code>, buf: Code, n: nat)
    requires n < 64 && FirstForkAt(devices, n) && n < s.curr && n <= s.prev < 64
    requires Pass(s, devices, buf, 0).Found?
    ensures Pass(s, devices, buf, 0).code[n] == buf[s.prev]
  {
    assert buf[..0] == [] && Match(devices, []) == devices;
    var bit := buf[s.prev];
    var at := ComesToFork(s, devices, buf, 0, n);
    assert at[s.prev] == at[n..][s.prev - n] == buf[n..][s.prev - n] == bit;
    TakesSide(s, devices, at, n, bit);
    PassFindsADevice(s.(prev := n), devices, at[n := bit], n + 1);
    HasBit(Pass(s, devices, buf, 0).code, at, n, bit);
  }

  lemma HasBit(code: Code, at: Code, n: nat, bit: bool)
    requires n < 64 && at[n := bit][..n + 1] <= code
    ensures code[n] == bit
  {
    assert code[n] == code[..n + 1][n] == at[n := bit][..n + 1][n];
  }
}
