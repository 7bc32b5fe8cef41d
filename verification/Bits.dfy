/** Bytes as the program sees them, and the bit order of the 1-Wire bus:
    least significant bit of the first byte first. */
module Bits {

  /** A uint8_t, bit by bit, least significant bit first. */
  type Byte = bits: seq<bool> | |bits| == 8 witness seq(8, _ => false)

  const ZERO: Byte := [false, false, false, false, false, false, false, false]

  function Xor(x: Byte, y: Byte): Byte { seq(8, i requires 0 <= i < 8 => x[i] != y[i]) }

  function Or(x: Byte, y: Byte): Byte { seq(8, i requires 0 <= i < 8 => x[i] || y[i]) }

  function And(x: Byte, y: Byte): Byte { seq(8, i requires 0 <= i < 8 => x[i] && y[i]) }

  function Not(x: Byte): Byte { seq(8, i requires 0 <= i < 8 => !x[i]) }

  /** Shift towards the least significant bit by one. */
  function ShiftRight(x: Byte): Byte { x[1..] + [false] }

  /** Shift towards the most significant bit by one, truncated to a byte. */
  function ShiftLeft(x: Byte): Byte { [false] + x[..7] }

  /** The number that bits stand for. */
  function Value(bits: seq<bool>): nat {
    if bits == [] then 0 else Digit(bits[0]) + 2 * Value(bits[1..])
  }

  function Digit(bit: bool): nat {
    if bit then 1 else 0
  }

  lemma ByteValue(x: Byte)
    ensures Value(x) == Digit(x[0]) + 2 * Digit(x[1]) + 4 * Digit(x[2]) + 8 * Digit(x[3])
                      + 16 * Digit(x[4]) + 32 * Digit(x[5]) + 64 * Digit(x[6]) + 128 * Digit(x[7])
  {
    LowDigits(x, 0);
    LowDigits(x, 4);
    assert x[0..] == x && x[8..] == [];
  }

  lemma LowDigits(x: Byte, n: nat)
    requires n + 4 <= 8
    ensures Value(x[n..])
         == Digit(x[n]) + 2 * Digit(x[n + 1]) + 4 * Digit(x[n + 2]) + 8 * Digit(x[n + 3]) + 16 * Value(x[n + 4..])
  {
    ValueStep(x, n);
    ValueStep(x, n + 1);
    ValueStep(x, n + 2);
    ValueStep(x, n + 3);
  }

  lemma ValueStep(x: Byte, n: nat)
    requires n < 8
    ensures Value(x[n..]) == Digit(x[n]) + 2 * Value(x[n + 1..])
  {
    assert x[n..][1..] == x[n + 1..];
  }

  /** A mask with only bit `pos` set. */
  function Mask(pos: nat): Byte
    requires pos < 8
  {
    seq(8, i => i == pos)
  }

  /** A mask with every bit but `pos` set. */
  function Umask(pos: nat): Byte
    requires pos < 8
  {
    Not(Mask(pos))
  }

  /** Testing a bit through its mask. */
  predicate Nth(x: Byte, pos: nat)
    requires pos < 8
  {
    And(Mask(pos), x) != ZERO
  }

  lemma NthIsBit(x: Byte, pos: nat)
    requires pos < 8
    ensures Nth(x, pos) <==> x[pos]
  {
    if x[pos] {
      assert And(Mask(pos), x)[pos];
    } else {
      assert And(Mask(pos), x) == ZERO;
    }
  }

  /** Setting a bit with `|= mask` or clearing it with `&= umask` writes that bit and no other. */
  lemma MaskedWrite(x: Byte, pos: nat)
    requires pos < 8
    ensures Or(x, Mask(pos)) == x[pos := true]
    ensures And(x, Umask(pos)) == x[pos := false]
  {
  }

  /** Writes one bit of a byte through its mask. */
  method StoreBit(byte: Byte, n: nat, bit: bool) returns (stored: Byte)
    requires n < 8
    ensures stored == byte[n := bit]
  {
    MaskedWrite(byte, n);
    if bit {
      stored := Or(byte, Mask(n));
    } else {
      stored := And(byte, Umask(n));
    }
  }

  /** All bits of a buffer in bus order. */
  function BitsOf(bytes: seq<Byte>): (bits: seq<bool>)
    ensures |bits| == 8 * |bytes|
  {
    seq(8 * |bytes|, n requires 0 <= n < 8 * |bytes| => bytes[n / 8][n % 8])
  }

  function Power(n: nat): (p: nat)
    ensures p > 0
  {
    if n == 0 then 1 else 2 * Power(n - 1)
  }

  /** The bit at position `j` counts for the `j`-th power of two. */
  lemma {:induction false} ValueAt(bits: seq<bool>, j: nat)
    requires j < |bits|
    ensures Value(bits) == Value(bits[..j]) + Power(j) * (Digit(bits[j]) + 2 * Value(bits[j + 1..]))
    ensures Value(bits[..j]) < Power(j)
  {
    if j > 0 {
      ValueAt(bits[1..], j - 1);
      assert bits[..j][1..] == bits[1..][..j - 1] && bits[1..][j..] == bits[j + 1..];
      Doubles(Power(j - 1), Digit(bits[j]) + 2 * Value(bits[j + 1..]));
    }
  }

  lemma Doubles(p: nat, n: nat)
    ensures 2 * p * n == 2 * (p * n)
  {
  }

  /** The bus order: the least significant bit of the first byte first. */
  lemma BitsOfIsBusOrder(bytes: seq<Byte>, i: nat, j: nat)
    requires i < |bytes| && j < 8
    ensures Value(bytes[i][..j]) < Power(j)
    ensures Value(bytes[i])
         == Value(bytes[i][..j]) + Power(j) * (Digit(BitsOf(bytes)[8 * i + j]) + 2 * Value(bytes[i][j + 1..]))
  {
    BitOf(bytes, i, j);
    ValueAt(bytes[i], j);
  }

  lemma BitOf(bytes: seq<Byte>, i: nat, j: nat)
    requires i < |bytes| && j < 8
    ensures BitsOf(bytes)[8 * i + j] == bytes[i][j]
  {
    assert (8 * i + j) / 8 == i && (8 * i + j) % 8 == j;
  }

  lemma BitsOfInjective(a: seq<Byte>, b: seq<Byte>)
    requires BitsOf(a) == BitsOf(b)
    ensures a == b
  {
    assert |BitsOf(a)| == |BitsOf(b)|;
    forall k | 0 <= k < |a| ensures a[k] == b[k] {
      forall i | 0 <= i < 8 ensures a[k][i] == b[k][i] {
        assert BitsOf(a)[8 * k + i] == BitsOf(b)[8 * k + i];
      }
    }
  }

  /** Writing one bit of a buffer writes that bit of the bit string and no other. */
  lemma WriteBit(bytes: seq<Byte>, n: nat, bit: bool)
    requires n < 8 * |bytes|
    ensures BitsOf(bytes[n / 8 := bytes[n / 8][n % 8 := bit]]) == BitsOf(bytes)[n := bit]
  {
  }
}
