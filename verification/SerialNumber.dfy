/** Printing and parsing of sensor serial numbers, and parsing of a sensor configuration. */
module SerialNumber {
  import opened Bits
  import opened StringOps
  import opened Status
  import Ds18b20Sensor

  /** The length of "AA:BB:CC:DD:EE:FF". */
  const LENGTH := 17

  // ---- Printing ----

  function HexDigit(n: nat): char
    requires n < 16
  {
    if n < 10 then '0' + n as char else 'A' + (n - 10) as char
  }

  lemma ValueOfNibble(bits: seq<bool>)
    requires |bits| == 4
    ensures Value(bits) == Digit(bits[0]) + 2 * Digit(bits[1]) + 4 * Digit(bits[2]) + 8 * Digit(bits[3]) < 16
  {
    var one, two, three := bits[1..], bits[2..], bits[3..];
    assert one[1..] == two && two[1..] == three && three[1..] == [];
    assert Value(three) == Digit(bits[3]);
    assert Value(two) == Digit(bits[2]) + 2 * Value(three);
    assert Value(one) == Digit(bits[1]) + 2 * Value(two);
  }

  function Nibble(bits: seq<bool>): (n: nat)
    requires |bits| == 4
    ensures n < 16
  {
    ValueOfNibble(bits);
    Value(bits)
  }

  /** Two upper-case hexadecimal digits. */
  function PrintByte(byte: Byte): string {
    [HexDigit(Nibble(byte[4..])), HexDigit(Nibble(byte[..4]))]
  }

  function Tokens(serial: seq<Byte>): seq<string> {
    seq(|serial|, i requires 0 <= i < |serial| => PrintByte(serial[i]))
  }

  function Print(serial: seq<Byte>): string {
    Join(Tokens(serial), ':')
  }

  // ---- Parsing ----

  /** Lower case for ASCII letters. */
  function ToLower(c: char): char {
    if 'A' <= c <= 'Z' then c + 32 as char else c
  }

  function ToUpper(c: char): char {
    if 'a' <= c <= 'z' then c - 32 as char else c
  }

  predicate IsHex(c: char) {
    '0' <= c <= '9' || 'a' <= c <= 'f' || 'A' <= c <= 'F'
  }

  /** What a character counts for, whether it is a digit or not. */
  function DigitValue(c: char): int {
    if '0' <= c <= '9' then c as int - '0' as int else ToLower(c) as int - 'a' as int + 10
  }

  /** The lowest four bits of a two's complement number. */
  function LowBits(n: int): (bits: seq<bool>)
    ensures |bits| == 4
  {
    [n % 2 == 1, n / 2 % 2 == 1, n / 4 % 2 == 1, n / 8 % 2 == 1]
  }

  /** The cast to uint8_t. */
  function Truncate(n: int): Byte {
    LowBits(n) + LowBits(n / 16)
  }

  function ParseHex(hi: char, lo: char): Byte {
    Or(Truncate(16 * DigitValue(hi)), Truncate(DigitValue(lo)))
  }

  /** A serial number that is spelled as six tokens of two characters each. */
  predicate Spelled(tokens: seq<string>, str: string) {
    |tokens| == 6 && str == Join(tokens, ':') && forall i :: 0 <= i < 6 ==> |tokens[i]| == 2 && Token(tokens[i], ':')
  }

  function Bytes(tokens: seq<string>): seq<Byte>
    requires forall i :: 0 <= i < |tokens| ==> |tokens[i]| == 2
  {
    seq(|tokens|, i requires 0 <= i < |tokens| => ParseHex(tokens[i][0], tokens[i][1]))
  }

  /** How many tokens there are before the first that does not have two characters. */
  function LeadingPairs(tokens: seq<string>): (n: nat)
    ensures n <= |tokens| && forall i :: 0 <= i < n ==> |tokens[i]| == 2
    ensures n < |tokens| ==> |tokens[n]| != 2
  {
    if tokens == [] || |tokens[0]| != 2 then 0 else 1 + LeadingPairs(tokens[1..])
  }

  /** How many bytes a parse writes before it succeeds or fails. */
  function WrittenBytes(str: string): (n: nat)
    ensures n <= 6
  {
    if |str| != LENGTH || |Runs(str, ':')| != 6 then 0 else LeadingPairs(Runs(str, ':'))
  }

  /** There are six tokens in a string of the right length, and up to this one all are pairs. */
  predicate IsWritten(str: string, i: nat) {
    |str| == 17 && |Runs(str, ':')| == 6 && i < 6 && forall j :: 0 <= j <= i ==> |Runs(str, ':')[j]| == 2
  }

  /** Writes the bytes in place, as far as the tokens before them are pairs. */
  method ParseTokens(serial: array<Byte>, tokens: seq<string>) returns (ok: bool)
    requires serial.Length == 6 && |tokens| == 6
    modifies serial
    ensures ok <==> LeadingPairs(tokens) == 6
    ensures forall i :: 0 <= i < 6 ==>
              serial[i] == if i < LeadingPairs(tokens) then ParseHex(tokens[i][0], tokens[i][1]) else old(serial[i])
  {
    ghost var pairs := LeadingPairs(tokens);
    for n := 0 to 6
      invariant n <= pairs
      invariant forall i :: 0 <= i < n ==> serial[i] == ParseHex(tokens[i][0], tokens[i][1])
      invariant forall i :: n <= i < 6 ==> serial[i] == old(serial[i])
    {
      if |tokens[n]| != 2 {
        return false;
      }
      serial[n] := ParseHex(tokens[n][0], tokens[n][1]);
    }
    return true;
  }

  /** A string that is not a serial number leaves behind what was parsed before that showed. */
  method ParseSerialNumber(serial: array<Byte>, str: string) returns (ok: bool)
    requires serial.Length == 6
    modifies serial
    ensures ok <==> exists tokens :: Spelled(tokens, str)
    ensures ok ==> Spelled(Runs(str, ':'), str) && serial[..] == Bytes(Runs(str, ':'))
    ensures forall i :: 0 <= i < 6 ==>
              serial[i] == if IsWritten(str, i) then ParseHex(Runs(str, ':')[i][0], Runs(str, ':')[i][1])
                           else old(serial[i])
  {
    OnlySpelled(str);
    WrittenAre(str);
    if |str| != LENGTH {
      return false;
    }
    var values := Split(':', str);
    if |values| != 6 {
      return false;
    }
    ok := ParseTokens(serial, values);
  }

  lemma WrittenAre(str: string)
    ensures forall i :: 0 <= i < 6 ==> (i < WrittenBytes(str) <==> IsWritten(str, i))
  {
  }

  /** Only six runs of two characters in seventeen spell a serial number. */
  lemma OnlySpelled(str: string)
    ensures (exists tokens :: Spelled(tokens, str)) <==> WrittenBytes(str) == 6
    ensures WrittenBytes(str) == 6 ==> Spelled(Runs(str, ':'), str)
    ensures |Runs(str, ':')| == 6 ==> !Lost(str, ':')
  {
    if tokens :| Spelled(tokens, str) {
      SpelledIsFound(tokens, str);
    }
    if WrittenBytes(str) == 6 {
      SixRunsSpell(str);
    }
  }

  lemma {:induction false} JoinLength(tokens: seq<string>, delimiter: char)
    requires tokens != []
    ensures |Join(tokens, delimiter)| == Total(tokens) + |tokens| - 1
  {
    if |tokens| == 1 {
      assert tokens[1..] == [];
    } else {
      JoinLength(tokens[1..], delimiter);
    }
  }

  lemma {:induction false} TotalOfPairs(tokens: seq<string>)
    requires forall i :: 0 <= i < |tokens| ==> |tokens[i]| == 2
    ensures Total(tokens) == 2 * |tokens|
  {
    if tokens != [] {
      TotalOfPairs(tokens[1..]);
    }
  }

  lemma SpelledIsFound(tokens: seq<string>, str: string)
    requires Spelled(tokens, str)
    ensures |str| == LENGTH && Runs(str, ':') == tokens
  {
    JoinLength(tokens, ':');
    TotalOfPairs(tokens);
    RunsOfJoin(tokens, ':');
  }

  lemma SixRunsSpell(str: string)
    requires |str| == LENGTH && |Runs(str, ':')| == 6
    requires forall i :: 0 <= i < 6 ==> |Runs(str, ':')[i]| == 2
    ensures Spelled(Runs(str, ':'), str)
  {
    RunsFit(str, ':');
    TotalOfPairs(Runs(str, ':'));
  }

  // ---- What the digits stand for ----

  /** The character is the hexadecimal digit for the number. */
  predicate Stands(c: char, n: nat) {
    n < 16 && (c == "0123456789abcdef"[n] || c == "0123456789ABCDEF"[n])
  }

  lemma StandsFor(c: char, n: nat)
    requires Stands(c, n)
    ensures DigitValue(c) == n
  {
    assert n in {0, 1, 2, 3, 4, 5, 6, 7, 8, 9, 10, 11, 12, 13, 14, 15};
  }

  /** Two hexadecimal digits are parsed into the byte that they stand for, the first being the high one. */
  lemma ParseHexValue(hi: char, lo: char, h: nat, l: nat)
    requires Stands(hi, h) && Stands(lo, l)
    ensures Value(ParseHex(hi, lo)) == 16 * h + l
  {
    StandsFor(hi, h);
    StandsFor(lo, l);
    HexMakesByte(h, l);
    HalvesValue(LowBits(l) + LowBits(h));
    ValueOfLowBits(h);
    ValueOfLowBits(l);
  }

  /** What the program takes a character for, hexadecimal digit or not. */
  function Taken(c: char): int {
    if '0' <= c <= '9' then c as int - 48 else if 'A' <= c <= 'Z' then c as int - 55 else c as int - 87
  }

  /** The bit of a two's complement number. */
  predicate BitAt(n: int, j: nat) {
    n / Power(j) % 2 == 1
  }

  /** For any two characters: the bits of what the second is taken for, and from the fourth on also those of the
      first. */
  lemma ParseHexBits(hi: char, lo: char, j: nat)
    requires j < 8
    ensures ParseHex(hi, lo)[j] == (BitAt(Taken(lo), j) || (j >= 4 && BitAt(Taken(hi), j - 4)))
  {
    assert DigitValue(hi) == Taken(hi) && DigitValue(lo) == Taken(lo);
    TruncateBits(Taken(lo), j);
    TruncateShifted(Taken(hi), j);
  }

  lemma PowersAre()
    ensures Power(0) == 1 && Power(1) == 2 && Power(2) == 4 && Power(3) == 8
    ensures Power(4) == 16 && Power(5) == 32 && Power(6) == 64 && Power(7) == 128
  {
    assert Power(2) == 2 * Power(1) && Power(3) == 2 * Power(2) && Power(4) == 2 * Power(3);
    assert Power(5) == 2 * Power(4) && Power(6) == 2 * Power(5) && Power(7) == 2 * Power(6);
  }

  lemma TruncateBits(n: int, j: nat)
    requires j < 8
    ensures Truncate(n)[j] == BitAt(n, j)
  {
    PowersAre();
    if j < 4 {
      LowBitAt(n, j);
    } else {
      LowBitAt(n / 16, j - 4);
      assert n / 16 / 2 == n / 32 && n / 16 / 4 == n / 64 && n / 16 / 8 == n / 128;
    }
  }

  lemma LowBitAt(n: int, j: nat)
    requires j < 4
    ensures LowBits(n)[j] == BitAt(n, j)
  {
    PowersAre();
    assert j in {0, 1, 2, 3};
  }

  lemma TruncateShifted(n: int, j: nat)
    requires j < 8
    ensures Truncate(16 * n)[j] == (j >= 4 && BitAt(n, j - 4))
  {
    if j < 4 {
      assert 16 * n / 2 == 8 * n && 16 * n / 4 == 4 * n && 16 * n / 8 == 2 * n;
    } else {
      assert 16 * n / 16 == n;
      LowBitAt(n, j - 4);
    }
  }

  lemma HalvesValue(byte: Byte)
    ensures Value(byte) == Value(byte[..4]) + 16 * Value(byte[4..])
  {
    ByteValue(byte);
    ValueOfNibble(byte[..4]);
    ValueOfNibble(byte[4..]);
  }

  lemma DigitStands(n: nat)
    requires n < 16
    ensures HexDigit(n) == "0123456789ABCDEF"[n]
  {
    assert n in {0, 1, 2, 3, 4, 5, 6, 7, 8, 9, 10, 11, 12, 13, 14, 15};
  }

  lemma Halves(n: nat, hi: nat, lo: nat)
    requires hi < 16 && lo < 16 && n == lo + 16 * hi
    ensures n < 256 && n / 16 == hi && n % 16 == lo
  {
  }

  /** A byte is printed as the two upper-case digits that stand for it. */
  lemma PrintByteValue(byte: Byte)
    ensures var text, n := PrintByte(byte), Value(byte);
            n < 256 && text == ["0123456789ABCDEF"[n / 16], "0123456789ABCDEF"[n % 16]]
  {
    HalvesValue(byte);
    var hi, lo := Nibble(byte[4..]), Nibble(byte[..4]);
    DigitStands(hi);
    DigitStands(lo);
    Halves(Value(byte), hi, lo);
  }

  // ---- Round trips ----

  lemma DigitOfHex(n: nat)
    requires n < 16
    ensures IsHex(HexDigit(n)) && HexDigit(n) != ':' && DigitValue(HexDigit(n)) == n
  {
  }

  lemma HexOfDigit(c: char)
    requires IsHex(c)
    ensures 0 <= DigitValue(c) < 16 && HexDigit(DigitValue(c)) == ToUpper(c)
  {
  }

  lemma Quotients(a: nat, b: nat, c: nat, d: nat)
    requires a < 2 && b < 2 && c < 2 && d < 2
    ensures var n := a + 2 * b + 4 * c + 8 * d;
            n % 2 == a && n / 2 % 2 == b && n / 4 % 2 == c && n / 8 % 2 == d
  {
    var n := a + 2 * b + 4 * c + 8 * d;
    assert n / 2 == b + 2 * c + 4 * d;
    assert n / 4 == c + 2 * d;
    assert n / 8 == d;
  }

  lemma LowBitsOfValue(bits: seq<bool>)
    requires |bits| == 4
    ensures LowBits(Value(bits)) == bits
  {
    ValueOfNibble(bits);
    Quotients(Digit(bits[0]), Digit(bits[1]), Digit(bits[2]), Digit(bits[3]));
  }

  lemma ValueOfLowBits(n: nat)
    requires n < 16
    ensures Value(LowBits(n)) == n
  {
    ValueOfNibble(LowBits(n));
  }

  /** Two digits make the byte of which they are the halves. */
  lemma HexMakesByte(hi: nat, lo: nat)
    requires hi < 16 && lo < 16
    ensures Or(Truncate(16 * hi), Truncate(lo)) == LowBits(lo) + LowBits(hi)
  {
    assert 16 * hi / 16 == hi && lo / 16 == 0;
    assert LowBits(16 * hi) == [false, false, false, false];
    assert LowBits(0) == [false, false, false, false];
    OrHalves(LowBits(lo), LowBits(hi));
  }

  lemma OrHalves(lo: seq<bool>, hi: seq<bool>)
    requires |lo| == |hi| == 4
    ensures Or([false, false, false, false] + hi, lo + [false, false, false, false]) == lo + hi
  {
  }

  lemma ParsePrinted(byte: Byte)
    ensures var text := PrintByte(byte);
            |text| == 2 && Token(text, ':') && IsHex(text[0]) && IsHex(text[1]) && ParseHex(text[0], text[1]) == byte
  {
    var hi, lo := Nibble(byte[4..]), Nibble(byte[..4]);
    DigitOfHex(hi);
    DigitOfHex(lo);
    HexMakesByte(hi, lo);
    LowBitsOfValue(byte[4..]);
    LowBitsOfValue(byte[..4]);
    assert byte == byte[..4] + byte[4..];
  }

  /** Parsing the printed form of any six bytes gives the same bytes. */
  lemma PrintThenParse(serial: seq<Byte>)
    requires |serial| == 6
    ensures Spelled(Tokens(serial), Print(serial))
    ensures Runs(Print(serial), ':') == Tokens(serial) && Bytes(Tokens(serial)) == serial
  {
    forall i | 0 <= i < 6
      ensures |Tokens(serial)[i]| == 2 && Token(Tokens(serial)[i], ':')
           && ParseHex(Tokens(serial)[i][0], Tokens(serial)[i][1]) == serial[i]
    {
      ParsePrinted(serial[i]);
    }
    SpelledIsFound(Tokens(serial), Print(serial));
  }

  function Upper(text: string): string {
    seq(|text|, i requires 0 <= i < |text| => ToUpper(text[i]))
  }

  lemma PrintParsed(text: string)
    requires |text| == 2 && IsHex(text[0]) && IsHex(text[1])
    ensures PrintByte(ParseHex(text[0], text[1])) == Upper(text)
  {
    HexOfDigit(text[0]);
    HexOfDigit(text[1]);
    var hi, lo := DigitValue(text[0]), DigitValue(text[1]);
    HexMakesByte(hi, lo);
    var byte := ParseHex(text[0], text[1]);
    assert byte[4..] == LowBits(hi) && byte[..4] == LowBits(lo);
    ValueOfLowBits(hi);
    ValueOfLowBits(lo);
  }

  lemma {:induction false} UpperJoin(tokens: seq<string>, uppers: seq<string>)
    requires |uppers| == |tokens| && forall i :: 0 <= i < |tokens| ==> uppers[i] == Upper(tokens[i])
    ensures Join(uppers, ':') == Upper(Join(tokens, ':'))
  {
    if |tokens| >= 2 {
      UpperJoin(tokens[1..], uppers[1..]);
    }
  }

  /** Printing what was parsed from hexadecimal digits gives the upper-case form of the text. */
  lemma ParseThenPrint(tokens: seq<string>, str: string)
    requires Spelled(tokens, str)
    requires forall i :: 0 <= i < 6 ==> IsHex(tokens[i][0]) && IsHex(tokens[i][1])
    ensures Print(Bytes(tokens)) == Upper(str)
  {
    forall i | 0 <= i < 6 ensures Tokens(Bytes(tokens))[i] == Upper(tokens[i]) {
      PrintParsed(tokens[i]);
    }
    UpperJoin(tokens, Tokens(Bytes(tokens)));
  }

  // ---- Configurations ----

  function ParseResolution(str: string): Ds18b20Sensor.Resolution {
    if str == "12" then Ds18b20Sensor.Bit12
    else if str == "11" then Ds18b20Sensor.Bit11
    else if str == "10" then Ds18b20Sensor.Bit10
    else if str == "9" then Ds18b20Sensor.Bit9
    else Ds18b20Sensor.NoResolution
  }

  /** Parses into a configuration that held something before. A successful parse always sets a resolution. */
  method ParseConfiguration(serial: array<Byte>, initial: Ds18b20Sensor.Resolution, serialText: string,
                            resolutionText: string)
    returns (status: StatusCode, resolution: Ds18b20Sensor.Resolution)
    requires serial.Length == 6
    modifies serial
    ensures var known := resolutionText in {"9", "10", "11", "12"};
            status == if (exists tokens :: Spelled(tokens, serialText)) && known then OK else InvalidArg
    ensures status == OK ==>
              && (resolution == Ds18b20Sensor.Bit9 <==> resolutionText == "9")
              && (resolution == Ds18b20Sensor.Bit10 <==> resolutionText == "10")
              && (resolution == Ds18b20Sensor.Bit11 <==> resolutionText == "11")
              && (resolution == Ds18b20Sensor.Bit12 <==> resolutionText == "12")
              && resolution != Ds18b20Sensor.NoResolution
    ensures status == OK ==> Spelled(Runs(serialText, ':'), serialText) && serial[..] == Bytes(Runs(serialText, ':'))
  {
    resolution := initial;
    var ok := ParseSerialNumber(serial, serialText);
    if !ok {
      return InvalidArg, resolution;
    }
    resolution := ParseResolution(resolutionText);
    if resolution == Ds18b20Sensor.NoResolution {
      return InvalidArg, resolution;
    }
    status := OK;
  }
}
