/** CRC-8 as the 1-Wire code computes it, and what it detects. */
module Crc {
  import opened Bits
  import opened Folds

  datatype BitOrder = LSB | MSB

  /** 0x8C. */
  const DALLAS_POLYNOMIAL: Byte := [false, false, true, true, false, false, false, true]

  /** One shift of the register. */
  function Shift(order: BitOrder, polynomial: Byte, crc: Byte): Byte {
    match order
    case LSB => if crc[0] then Xor(ShiftRight(crc), polynomial) else ShiftRight(crc)
    case MSB => if crc[7] then Xor(ShiftLeft(crc), polynomial) else ShiftLeft(crc)
  }

  /** One shift for each bit of a byte, whatever the bit is. */
  function Clock(order: BitOrder, polynomial: Byte): (Byte, bool) -> Byte {
    (crc, _) => Shift(order, polynomial, crc)
  }

  /** Absorbs one byte: XOR it in, then eight shifts. */
  function Absorb(order: BitOrder, polynomial: Byte): (Byte, Byte) -> Byte {
    (crc, byte) => Fold(Clock(order, polynomial), Xor(crc, byte), byte)
  }

  /** The register after a message. */
  function Register(order: BitOrder, polynomial: Byte, initial: Byte, message: seq<Byte>): Byte {
    Fold(Absorb(order, polynomial), initial, message)
  }

  /** The two nested loops of the program. */
  method Crc8(buf: seq<Byte>, initial: Byte, polynomial: Byte, order: BitOrder) returns (crc: Byte)
    ensures crc == Register(order, polynomial, initial, buf)
  {
    crc := initial;
    for n := 0 to |buf|
      invariant crc == Register(order, polynomial, initial, buf[..n])
    {
      ghost var before := crc;
      crc := Xor(crc, buf[n]);
      for bit := 0 to 8
        invariant crc == Fold(Clock(order, polynomial), Xor(before, buf[n]), buf[n][..bit])
      {
        ghost var unshifted := crc;
        var bitSet := if order == LSB then crc[0] else crc[7];
        if bitSet {
          crc := if order == LSB then Xor(ShiftRight(crc), polynomial) else Xor(ShiftLeft(crc), polynomial);
        } else {
          crc := if order == LSB then ShiftRight(crc) else ShiftLeft(crc);
        }
        FoldStep(Clock(order, polynomial), Xor(before, buf[n]), buf[n], bit);
      }
      assert buf[n][..8] == buf[n];
      FoldStep(Absorb(order, polynomial), initial, buf, n);
    }
    assert buf[..|buf|] == buf;
  }

  // ---- The register is a bijection of itself ----

  /** The polynomial keeps the bit that a shift moves out. */
  predicate KeepsTopBit(order: BitOrder, polynomial: Byte) {
    match order
    case LSB => polynomial[7]
    case MSB => polynomial[0]
  }

  lemma XorInjective(x: Byte, y: Byte, m: Byte)
    requires Xor(x, m) == Xor(y, m)
    ensures x == y
  {
    forall i | 0 <= i < 8 ensures x[i] == y[i] {
      assert Xor(x, m)[i] == Xor(y, m)[i];
    }
  }

  lemma ShiftInjective(order: BitOrder, polynomial: Byte, x: Byte, y: Byte)
    requires KeepsTopBit(order, polynomial)
    requires Shift(order, polynomial, x) == Shift(order, polynomial, y)
    ensures x == y
  {
    var out, top := if order == LSB then 0 else 7, if order == LSB then 7 else 0;
    assert Shift(order, polynomial, x)[top] == x[out] && Shift(order, polynomial, y)[top] == y[out];
    var x' := if order == LSB then ShiftRight(x) else ShiftLeft(x);
    var y' := if order == LSB then ShiftRight(y) else ShiftLeft(y);
    if x[out] == y[out] && x[out] {
      XorInjective(x', y', polynomial);
    }
    forall i | 0 <= i < 8 && i != out ensures x[i] == y[i] {
      var j := if order == LSB then i - 1 else i + 1;
      assert x'[j] == x[i] && y'[j] == y[i];
    }
  }

  /** For a given register every byte leads elsewhere. */
  lemma AbsorbInjective(order: BitOrder, polynomial: Byte, crc: Byte, x: Byte, y: Byte)
    requires KeepsTopBit(order, polynomial)
    requires Absorb(order, polynomial)(crc, x) == Absorb(order, polynomial)(crc, y)
    ensures x == y
  {
    var f := Clock(order, polynomial);
    forall s, t, bit | f(s, bit) == f(t, bit) ensures s == t {
      ShiftInjective(order, polynomial, s, t);
    }
    FoldIgnores(f, Xor(crc, x), x, y);
    FoldInjective(f, Xor(crc, x), Xor(crc, y), y);
    assert Xor(x, crc) == Xor(crc, x) && Xor(y, crc) == Xor(crc, y);
    XorInjective(x, y, crc);
  }

  // ---- The same register, one bit at a time ----

  /** A byte's bits in the order the register consumes them. */
  function Stream(order: BitOrder, byte: Byte): Byte {
    if order == LSB then byte else seq(8, i requires 0 <= i < 8 => byte[7 - i])
  }

  /** A message's bits in the order the register consumes them. */
  function Streams(order: BitOrder, message: seq<Byte>): (bits: seq<bool>)
    ensures |bits| == 8 * |message|
  {
    seq(8 * |message|, i requires 0 <= i < 8 * |message| => Stream(order, message[i / 8])[i % 8])
  }

  /** One bit where the register takes it in. */
  function Incoming(order: BitOrder, bit: bool): Byte {
    if order == LSB then ZERO[0 := bit] else ZERO[7 := bit]
  }

  function AbsorbBit(order: BitOrder, polynomial: Byte): (Byte, bool) -> Byte {
    (crc, bit) => Shift(order, polynomial, Xor(crc, Incoming(order, bit)))
  }

  /** What is left of a byte when its first bit is consumed. */
  function Rest(order: BitOrder, byte: Byte): Byte {
    match order
    case LSB => ShiftRight(byte)
    case MSB => ShiftLeft(byte)
  }

  /** What is left of a byte when its first `k` bits are consumed. */
  function RestAfter(order: BitOrder, byte: Byte, k: nat): Byte {
    if k == 0 then byte else Rest(order, RestAfter(order, byte, k - 1))
  }

  lemma StreamOfRest(order: BitOrder, byte: Byte)
    ensures Stream(order, Rest(order, byte)) == Stream(order, byte)[1..] + [false]
  {
  }

  lemma {:induction false} StreamOfRestAfter(order: BitOrder, byte: Byte, k: nat, i: nat)
    requires i < 8
    ensures Stream(order, RestAfter(order, byte, k))[i] == (k + i < 8 && Stream(order, byte)[k + i])
  {
    if k > 0 {
      var rest := RestAfter(order, byte, k - 1);
      StreamOfRest(order, rest);
      assert Stream(order, Rest(order, rest))[i] == (i < 7 && Stream(order, rest)[i + 1]);
      if i < 7 {
        StreamOfRestAfter(order, byte, k - 1, i + 1);
      }
    }
  }

  /** Shifting with the rest of a byte mixed in is shifting with its first bit, the rest following. */
  lemma Feed(order: BitOrder, polynomial: Byte, crc: Byte, rest: Byte)
    ensures Shift(order, polynomial, Xor(crc, rest))
         == Xor(AbsorbBit(order, polynomial)(crc, Stream(order, rest)[0]), Rest(order, rest))
  {
    var one := Incoming(order, Stream(order, rest)[0]);
    match order
    case LSB =>
      assert Xor(crc, rest)[0] == Xor(crc, one)[0];
      assert ShiftRight(Xor(crc, rest)) == Xor(ShiftRight(Xor(crc, one)), ShiftRight(rest));
      XorSwap(ShiftRight(Xor(crc, one)), ShiftRight(rest), polynomial);
    case MSB =>
      assert Xor(crc, rest)[7] == Xor(crc, one)[7];
      assert ShiftLeft(Xor(crc, rest)) == Xor(ShiftLeft(Xor(crc, one)), ShiftLeft(rest));
      XorSwap(ShiftLeft(Xor(crc, one)), ShiftLeft(rest), polynomial);
  }

  lemma XorSwap(x: Byte, y: Byte, p: Byte)
    ensures Xor(Xor(x, y), p) == Xor(Xor(x, p), y)
  {
  }

  /** The next clock, seen both ways. */
  lemma FeedBit(order: BitOrder, polynomial: Byte, crc: Byte, byte: Byte, k: nat, serial: Byte)
    requires k < 8
    requires serial == Fold(AbsorbBit(order, polynomial), crc, Stream(order, byte)[..k])
    requires Fold(Clock(order, polynomial), Xor(crc, byte), byte[..k]) == Xor(serial, RestAfter(order, byte, k))
    ensures Fold(Clock(order, polynomial), Xor(crc, byte), byte[..k + 1])
         == Xor(AbsorbBit(order, polynomial)(serial, Stream(order, byte)[k]), RestAfter(order, byte, k + 1))
  {
    FoldStep(Clock(order, polynomial), Xor(crc, byte), byte, k);
    Feed(order, polynomial, serial, RestAfter(order, byte, k));
    StreamOfRestAfter(order, byte, k, 0);
  }

  lemma {:induction false} FeedBits(order: BitOrder, polynomial: Byte, crc: Byte, byte: Byte, k: nat)
    requires k <= 8
    ensures Fold(Clock(order, polynomial), Xor(crc, byte), byte[..k])
         == Xor(Fold(AbsorbBit(order, polynomial), crc, Stream(order, byte)[..k]), RestAfter(order, byte, k))
  {
    if k > 0 {
      FeedBits(order, polynomial, crc, byte, k - 1);
      var serial := Fold(AbsorbBit(order, polynomial), crc, Stream(order, byte)[..k - 1]);
      FeedBit(order, polynomial, crc, byte, k - 1, serial);
      FoldStep(AbsorbBit(order, polynomial), crc, Stream(order, byte), k - 1);
    }
  }

  /** Absorbing a byte is absorbing its eight bits. */
  lemma AbsorbByBits(order: BitOrder, polynomial: Byte, crc: Byte, byte: Byte)
    ensures Absorb(order, polynomial)(crc, byte) == Fold(AbsorbBit(order, polynomial), crc, Stream(order, byte))
  {
    FeedBits(order, polynomial, crc, byte, |byte|);
    assert byte[..|byte|] == byte && Stream(order, byte)[..|byte|] == Stream(order, byte);
    NothingLeft(order, byte, Fold(AbsorbBit(order, polynomial), crc, Stream(order, byte)));
  }

  lemma NothingLeft(order: BitOrder, byte: Byte, serial: Byte)
    ensures Xor(serial, RestAfter(order, byte, |byte|)) == serial
  {
    var rest := RestAfter(order, byte, |byte|);
    forall i | 0 <= i < 8 ensures !rest[i] {
      StreamOfRestAfter(order, byte, |byte|, if order == LSB then i else 7 - i);
    }
  }

  lemma StreamsStep(order: BitOrder, message: seq<Byte>)
    requires message != []
    ensures Streams(order, message)
         == Streams(order, message[..|message| - 1]) + Stream(order, message[|message| - 1])
  {
    var n := |message| - 1;
    forall i | 0 <= i < 8 * |message|
      ensures Streams(order, message)[i] == (Streams(order, message[..n]) + Stream(order, message[n]))[i]
    {
      if i < 8 * n {
        assert i / 8 < n;
      } else {
        assert i / 8 == n && i % 8 == i - 8 * n;
      }
    }
  }

  /** The byte-wise loops compute the bit-serial shift register over the stream of bits. */
  lemma {:induction false} RegisterByBits(order: BitOrder, polynomial: Byte, initial: Byte, message: seq<Byte>)
    ensures Register(order, polynomial, initial, message)
         == Fold(AbsorbBit(order, polynomial), initial, Streams(order, message))
  {
    if message != [] {
      var n := |message| - 1;
      RegisterByBits(order, polynomial, initial, message[..n]);
      AbsorbByBits(order, polynomial, Register(order, polynomial, initial, message[..n]), message[n]);
      StreamsStep(order, message);
      FoldConcat(AbsorbBit(order, polynomial), initial, Streams(order, message[..n]), Stream(order, message[n]));
    }
  }

  // ---- The register is the remainder of a division ----

  // Polynomials over the field of two elements are bit strings, the coefficient of the highest power first.

  function Zeros(n: nat): seq<bool> {
    seq(n, _ => false)
  }

  function Plus(a: seq<bool>, b: seq<bool>): seq<bool>
    requires |a| == |b|
  {
    seq(|a|, i requires 0 <= i < |a| => a[i] != b[i])
  }

  /** The product, one coefficient of the first factor after the other. */
  function Times(q: seq<bool>, p: seq<bool>): (product: seq<bool>)
    requires p != []
    ensures |product| == |q| + |p| - 1
  {
    if q == [] then Zeros(|p| - 1)
    else
      var n := |q| - 1;
      Plus(Times(q[..n], p) + [false], Zeros(n) + if q[n] then p else Zeros(|p|))
  }

  /** The generator: the eighth power and what the polynomial has of lower ones. */
  function Generator(order: BitOrder, polynomial: Byte): seq<bool> {
    [true] + Stream(order, polynomial)
  }

  /** The message times the eighth power, with the initial register added to its first bits. */
  function Dividend(order: BitOrder, initial: Byte, bits: seq<bool>): seq<bool> {
    Plus(bits + Zeros(8), Stream(order, initial) + Zeros(|bits|))
  }

  /** The dividend is the quotient times the generator, and the remainder, which has a lower degree than that. */
  predicate Divides(dividend: seq<bool>, generator: seq<bool>, quotient: seq<bool>, remainder: Byte) {
    && |generator| == 9 && |dividend| == |quotient| + 8
    && dividend == Plus(Times(quotient, generator), Zeros(|quotient|) + remainder)
  }

  /** One clock of the register, highest power first: it takes the generator off if the bit that is shifted out and the
      bit of the message differ. */
  lemma ClockDivides(order: BitOrder, polynomial: Byte, crc: Byte, bit: bool)
    ensures Stream(order, AbsorbBit(order, polynomial)(crc, bit))
         == Clocked(Stream(order, crc), Stream(order, polynomial), bit)
  {
    var x := Xor(crc, Incoming(order, bit));
    TopBit(order, crc, bit, x);
    ShiftClocks(order, polynomial, x);
  }

  function Clocked(r: Byte, p: Byte, bit: bool): Byte {
    Plus(r[1..] + [false], if r[0] != bit then p else Zeros(8))
  }

  lemma TopBit(order: BitOrder, crc: Byte, bit: bool, x: Byte)
    requires x == Xor(crc, Incoming(order, bit))
    ensures Stream(order, x)[0] == (Stream(order, crc)[0] != bit) && Stream(order, x)[1..] == Stream(order, crc)[1..]
  {
  }

  lemma ShiftClocks(order: BitOrder, polynomial: Byte, x: Byte)
    ensures Stream(order, Shift(order, polynomial, x)) == Clocked(Stream(order, x), Stream(order, polynomial), false)
  {
  }

  /** One step of the long division. */
  lemma DivisionStep(before: seq<bool>, product: seq<bool>, r: Byte, n: nat, bit: bool, p: Byte, r': Byte,
                     dividend: seq<bool>, product': seq<bool>)
    requires |before| == |product| == |dividend| - 1 == |product'| - 1 == n + 8
    requires before == Plus(product, Zeros(n) + r)
    requires r' == Clocked(r, p, bit)
    requires product' == Plus(product + [false], Zeros(n) + if r[0] != bit then [true] + p else Zeros(9))
    requires dividend == Plus(before + [false], Zeros(n) + [bit] + Zeros(8))
    ensures dividend == Plus(product', Zeros(n + 1) + r')
  {
    var sum := Plus(product', Zeros(n + 1) + r');
    forall i | 0 <= i < n + 9 ensures dividend[i] == sum[i] {
      if i < n {
        assert (Zeros(n) + r)[i] == false;
      } else if i == n {
        assert (Zeros(n) + r)[i] == r[0];
      } else if i < n + 8 {
        assert (Zeros(n) + r)[i] == r[i - n] && r'[i - n - 1] == (r[i - n] != (r[0] != bit && p[i - n - 1]));
      } else {
        assert r'[7] == (r[0] != bit && p[7]);
      }
    }
  }

  lemma DividendStep(order: BitOrder, initial: Byte, bits: seq<bool>, bit: bool)
    ensures Dividend(order, initial, bits + [bit])
         == Plus(Dividend(order, initial, bits) + [false], Zeros(|bits|) + [bit] + Zeros(8))
  {
  }

  lemma TimesStep(q: seq<bool>, bit: bool, p: seq<bool>)
    requires p != []
    ensures Times(q + [bit], p) == Plus(Times(q, p) + [false], Zeros(|q|) + if bit then p else Zeros(|p|))
  {
    assert (q + [bit])[..|q|] == q;
  }

  /** The serial register is the remainder of the bits divided by the generator. */
  lemma {:induction false} SerialIsRemainder(order: BitOrder, polynomial: Byte, initial: Byte, bits: seq<bool>)
    returns (quotient: seq<bool>)
    ensures |quotient| == |bits|
    ensures Divides(Dividend(order, initial, bits), Generator(order, polynomial), quotient,
                    Stream(order, Fold(AbsorbBit(order, polynomial), initial, bits)))
  {
    if bits == [] {
      quotient := [];
      assert Dividend(order, initial, []) == Stream(order, initial);
    } else {
      var n := |bits| - 1;
      var earlier := SerialIsRemainder(order, polynomial, initial, bits[..n]);
      var crc := Fold(AbsorbBit(order, polynomial), initial, bits[..n]);
      var r, p := Stream(order, crc), Stream(order, polynomial);
      quotient := earlier + [r[0] != bits[n]];
      ClockDivides(order, polynomial, crc, bits[n]);
      TimesStep(earlier, r[0] != bits[n], Generator(order, polynomial));
      DividendStep(order, initial, bits[..n], bits[n]);
      assert bits[..n] + [bits[n]] == bits;
      DivisionStep(Dividend(order, initial, bits[..n]), Times(earlier, Generator(order, polynomial)), r, n, bits[n], p,
                   Stream(order, AbsorbBit(order, polynomial)(crc, bits[n])), Dividend(order, initial, bits),
                   Times(quotient, Generator(order, polynomial)));
    }
  }

  /** The CRC of any message is the remainder of the message, as a polynomial, divided by the generator, in both bit
      orders and for any polynomial and initial value. */
  lemma RegisterIsRemainder(order: BitOrder, polynomial: Byte, initial: Byte, message: seq<Byte>)
    returns (quotient: seq<bool>)
    ensures Divides(Dividend(order, initial, Streams(order, message)), Generator(order, polynomial), quotient,
                    Stream(order, Register(order, polynomial, initial, message)))
  {
    quotient := SerialIsRemainder(order, polynomial, initial, Streams(order, message));
    RegisterByBits(order, polynomial, initial, message);
  }

  // ---- Error bursts ----

  lemma AbsorbBitInjective(order: BitOrder, polynomial: Byte, x: Byte, y: Byte, bit: bool)
    requires KeepsTopBit(order, polynomial)
    requires AbsorbBit(order, polynomial)(x, bit) == AbsorbBit(order, polynomial)(y, bit)
    ensures x == y
  {
    ShiftInjective(order, polynomial, Xor(x, Incoming(order, bit)), Xor(y, Incoming(order, bit)));
    XorInjective(x, y, Incoming(order, bit));
  }

  /** Eight bits determine the register after them. */
  lemma ByteInjective(order: BitOrder, polynomial: Byte, crc: Byte, v: Byte, w: Byte)
    requires KeepsTopBit(order, polynomial)
    requires Fold(AbsorbBit(order, polynomial), crc, v) == Fold(AbsorbBit(order, polynomial), crc, w)
    ensures v == w
  {
    var x, y := Stream(order, v), Stream(order, w);
    assert Stream(order, x) == v && Stream(order, y) == w;
    AbsorbByBits(order, polynomial, crc, x);
    AbsorbByBits(order, polynomial, crc, y);
    AbsorbInjective(order, polynomial, crc, x, y);
  }

  /** Up to eight consecutive bits, wherever they start, determine the register after them. */
  lemma WindowInjective(order: BitOrder, polynomial: Byte, crc: Byte, v: seq<bool>, w: seq<bool>)
    requires KeepsTopBit(order, polynomial) && |v| == |w| <= 8
    requires Fold(AbsorbBit(order, polynomial), crc, v) == Fold(AbsorbBit(order, polynomial), crc, w)
    ensures v == w
  {
    var f, pad := AbsorbBit(order, polynomial), seq(8 - |v|, _ => false);
    FoldConcat(f, crc, v, pad);
    FoldConcat(f, crc, w, pad);
    ByteInjective(order, polynomial, crc, v + pad, w + pad);
    assert v == (v + pad)[..|v|] && w == (w + pad)[..|w|];
  }

  /** Two messages that differ at most in the eight consecutive bits from bit `from`. */
  ghost predicate BurstApart(order: BitOrder, a: seq<Byte>, b: seq<Byte>, from: nat) {
    && |a| == |b|
    && forall i :: 0 <= i < 8 * |a| && !(from <= i < from + 8) ==> Streams(order, a)[i] == Streams(order, b)[i]
  }

  /** Every burst of at most eight consecutive wrong bits changes the register, wherever it falls. */
  lemma BurstDetected(order: BitOrder, polynomial: Byte, initial: Byte, a: seq<Byte>, b: seq<Byte>, from: nat)
    requires KeepsTopBit(order, polynomial)
    requires BurstApart(order, a, b, from) && a != b
    ensures Register(order, polynomial, initial, a) != Register(order, polynomial, initial, b)
  {
    if Register(order, polynomial, initial, a) == Register(order, polynomial, initial, b) {
      RegisterByBits(order, polynomial, initial, a);
      RegisterByBits(order, polynomial, initial, b);
      StreamBurst(order, polynomial, initial, Streams(order, a), Streams(order, b), from);
      StreamsInjective(order, a, b);
    }
  }

  lemma StreamBurst(order: BitOrder, polynomial: Byte, initial: Byte, v: seq<bool>, w: seq<bool>, from: nat)
    requires KeepsTopBit(order, polynomial) && |v| == |w|
    requires forall i :: 0 <= i < |v| && !(from <= i < from + 8) ==> v[i] == w[i]
    requires Fold(AbsorbBit(order, polynomial), initial, v) == Fold(AbsorbBit(order, polynomial), initial, w)
    ensures v == w
  {
    var f := AbsorbBit(order, polynomial);
    forall r, s, bit | f(r, bit) == f(s, bit) ensures r == s {
      AbsorbBitInjective(order, polynomial, r, s, bit);
    }
    var lo := if from <= |v| then from else |v|;
    var hi := if lo + 8 <= |v| then lo + 8 else |v|;
    forall s | Fold(f, s, v[lo..hi]) == Fold(f, s, w[lo..hi]) ensures v[lo..hi] == w[lo..hi] {
      WindowInjective(order, polynomial, s, v[lo..hi], w[lo..hi]);
    }
    FoldWindow(f, initial, v, w, lo, hi);
  }

  lemma StreamsInjective(order: BitOrder, a: seq<Byte>, b: seq<Byte>)
    requires Streams(order, a) == Streams(order, b)
    ensures a == b
  {
    assert |Streams(order, a)| == |Streams(order, b)|;
    forall k | 0 <= k < |a| ensures a[k] == b[k] {
      forall i | 0 <= i < 8 ensures a[k][i] == b[k][i] {
        StreamsAt(order, a, k, i);
        StreamsAt(order, b, k, i);
      }
    }
  }

  /** Where a bit of a byte is in the stream. */
  lemma StreamsAt(order: BitOrder, message: seq<Byte>, k: nat, i: nat)
    requires k < |message| && i < 8
    ensures Streams(order, message)[8 * k + if order == LSB then i else 7 - i] == message[k][i]
  {
    var j := if order == LSB then i else 7 - i;
    assert (8 * k + j) / 8 == k && (8 * k + j) % 8 == j;
  }

  // ---- The condition on the polynomial is needed ----

  /** The error pattern that a polynomial without the kept bit cannot see. */
  function Blind(order: BitOrder, polynomial: Byte): Byte {
    if order == LSB then ShiftLeft(polynomial)[0 := true] else ShiftRight(polynomial)[7 := true]
  }

  lemma BlindCollides(order: BitOrder, polynomial: Byte, x: Byte)
    requires !KeepsTopBit(order, polynomial)
    ensures Shift(order, polynomial, Xor(x, Blind(order, polynomial))) == Shift(order, polynomial, x)
  {
    var y := Xor(x, Blind(order, polynomial));
    match order
    case LSB =>
      assert y[0] == !x[0];
      assert ShiftRight(y) == Xor(ShiftRight(x), polynomial);
      assert Xor(ShiftRight(y), polynomial) == ShiftRight(x);
    case MSB =>
      assert y[7] == !x[7];
      assert ShiftLeft(y) == Xor(ShiftLeft(x), polynomial);
      assert Xor(ShiftLeft(y), polynomial) == ShiftLeft(x);
  }

  /** Without the kept bit one wrong byte goes unnoticed, whatever the byte was. */
  lemma TopBitNeeded(order: BitOrder, polynomial: Byte, initial: Byte, byte: Byte)
    requires !KeepsTopBit(order, polynomial)
    ensures Xor(byte, Blind(order, polynomial)) != byte
    ensures Register(order, polynomial, initial, [Xor(byte, Blind(order, polynomial))])
        == Register(order, polynomial, initial, [byte])
  {
    var blind := Blind(order, polynomial);
    var wrong := Xor(byte, blind);
    assert wrong[0] != byte[0] || wrong[7] != byte[7];
    assert Xor(initial, wrong) == Xor(Xor(initial, byte), blind);
    BlindCollides(order, polynomial, Xor(initial, byte));
    var f := Clock(order, polynomial);
    FoldSameAfterFirst(f, Xor(initial, wrong), Xor(initial, byte), byte);
    FoldIgnores(f, Xor(initial, wrong), byte, wrong);
    FoldStep(Absorb(order, polynomial), initial, [byte], 0);
    FoldStep(Absorb(order, polynomial), initial, [wrong], 0);
    assert [byte][..1] == [byte] && [wrong][..1] == [wrong];
  }

  // ---- ROM codes and scratchpads ----

  /** The last byte is the Dallas CRC of the others. */
  predicate Valid(message: seq<Byte>)
    requires message != []
  {
    Register(LSB, DALLAS_POLYNOMIAL, ZERO, message[..|message| - 1]) == message[|message| - 1]
  }

  lemma {:induction false} ClockZero(order: BitOrder, polynomial: Byte, bits: seq<bool>)
    ensures Fold(Clock(order, polynomial), ZERO, bits) == ZERO
  {
    if bits != [] {
      ClockZero(order, polynomial, bits[..|bits| - 1]);
    }
  }

  /** A message followed by a check byte leaves the register at zero exactly when the check byte is its CRC. */
  lemma ZeroResidue(order: BitOrder, polynomial: Byte, initial: Byte, message: seq<Byte>, check: Byte)
    requires KeepsTopBit(order, polynomial)
    ensures Register(order, polynomial, initial, message + [check]) == ZERO
       <==> Register(order, polynomial, initial, message) == check
  {
    var f, crc := Absorb(order, polynomial), Register(order, polynomial, initial, message);
    assert (message + [check])[..|message|] == message;
    assert f(crc, crc) == ZERO by {
      assert Xor(crc, crc) == ZERO;
      ClockZero(order, polynomial, crc);
    }
    if f(crc, check) == ZERO {
      AbsorbInjective(order, polynomial, crc, crc, check);
    }
  }

  /** A valid ROM code or scratchpad hit by a burst of at most eight wrong bits, CRC byte included, is rejected. */
  lemma BurstInvalidates(message: seq<Byte>, received: seq<Byte>, from: nat)
    requires message != [] && Valid(message)
    requires BurstApart(LSB, message, received, from) && received != message
    ensures !Valid(received)
  {
    var n := |message| - 1;
    assert message == message[..n] + [message[n]] && received == received[..n] + [received[n]];
    ZeroResidue(LSB, DALLAS_POLYNOMIAL, ZERO, message[..n], message[n]);
    ZeroResidue(LSB, DALLAS_POLYNOMIAL, ZERO, received[..n], received[n]);
    BurstDetected(LSB, DALLAS_POLYNOMIAL, ZERO, message, received, from);
  }
}
