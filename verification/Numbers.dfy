/** Arithmetic of fixed width and of whole units. */
module Numbers {

  /** The range of uint64_t. */
  const MODULUS: int := 0x1_0000_0000_0000_0000

  function Wrap(n: int): (r: nat) {
    n % MODULUS
  }

  /** A wrapped number is in range and differs from the number by a multiple of the range. */
  lemma WrapIsModular(n: int)
    ensures 0 <= Wrap(n) < 0x1_0000_0000_0000_0000
    ensures (n - Wrap(n)) % 0x1_0000_0000_0000_0000 == 0
  {
    assert n == n / MODULUS * MODULUS + Wrap(n);
    MultipleOf(n / MODULUS);
  }

  lemma MultipleOf(k: int)
    ensures k * MODULUS % MODULUS == 0
  {
  }

  lemma WrapSum(a: nat, b: nat)
    ensures Wrap(Wrap(a) + b) == Wrap(a + b)
  {
  }

  lemma SmallWrap(n: nat)
    requires n < MODULUS
    ensures Wrap(n) == n
  {
  }

  lemma {:induction false} Scale(n: nat, unit: int)
    requires unit > 0
    ensures n <= n * unit
  {
    if n > 0 {
      Scale(n - 1, unit);
      assert n * unit == (n - 1) * unit + unit;
    }
  }

  /** So many units fit into the time, and no more. */
  predicate AreWholeUnits(units: int, time: int, unit: int) {
    units * unit <= time < (units + 1) * unit
  }

  /** A quotient counts whole units. */
  lemma WholeUnits(time: nat, unit: int)
    requires unit > 0
    ensures 0 <= time / unit <= time
    ensures time / unit * unit <= time < (time / unit + 1) * unit
  {
    var units := time / unit;
    assert time == units * unit + time % unit;
    assert units >= 0;
    assert (units + 1) * unit == units * unit + unit;
    Scale(units, unit);
  }

  /** A period adds its whole units and loses less than one. */
  lemma OnePeriod(unit: int, saved: int, passed: int, earlier: int, periods: nat)
    requires unit > 0 && passed >= 0 && periods >= 1
    requires saved * unit <= earlier <= saved * unit + (periods - 1) * (unit - 1)
    ensures (saved + passed / unit) * unit <= earlier + passed
    ensures earlier + passed <= (saved + passed / unit) * unit + periods * (unit - 1)
  {
    var units := passed / unit;
    assert passed == units * unit + passed % unit;
    assert (saved + units) * unit == saved * unit + units * unit;
    assert periods * (unit - 1) == (periods - 1) * (unit - 1) + (unit - 1);
  }
}
