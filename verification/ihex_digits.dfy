/**
 Character classification and nibble insertion of the Intel HEX reader
 (ihex_IsValidData, ihex_CharToValue, ihex_InsertDigit).
 */
module IhexDigits {
  import opened Bitwise

  const COLON: u8 := 0x3A
  const LINE_FEED: u8 := 0x0A
  const CARRIAGE_RETURN: u8 := 0x0D

  /** The hex digits in upper and lower case, indexed by their value. */
  const UPPER_DIGITS: string := "0123456789ABCDEF"
  const LOWER_DIGITS: string := "0123456789abcdef"

  /** `c` spells the hex digit of value `v`, in either case. */
  ghost predicate Spells(c: u8, v: int)
  {
    0 <= v < 16 && (c == UPPER_DIGITS[v] as int || c == LOWER_DIGITS[v] as int)
  }

  ghost predicate IsHexDigit(c: u8)
  {
    exists v :: Spells(c, v)
  }

  /** The upper-case character for a nibble value, as it appears in a record's text. */
  function HexChar(v: nat): (c: u8)
    requires v < 16
  {
    if v < 10 then '0' as int + v else 'A' as int + (v - 10)
  }

  /** HexChar spells `v`, so the decoder reads it back as `v`. */
  lemma HexCharValue(v: nat)
    requires v < 16
    ensures Spells(HexChar(v), v)
    ensures CharToValue(HexChar(v)) == v
  {
    assert HexChar(v) == UPPER_DIGITS[v] as int;
  }

  /** ihex_IsValidData: the colon or a hex digit in either case. */
  function IsValidData(c: u8): bool
  {
    c == COLON
    || ('0' as int <= c <= '9' as int)
    || ('A' as int <= c <= 'F' as int)
    || ('a' as int <= c <= 'f' as int)
  }

  /** ihex_CharToValue: the value of a hex digit, -1 for any other byte. */
  function CharToValue(c: u8): (v: int)
    ensures -1 <= v < 16
  {
    if '0' as int <= c <= '9' as int then c - '0' as int
    else if 'A' as int <= c <= 'F' as int then c - 'A' as int + 10
    else if 'a' as int <= c <= 'f' as int then c - 'a' as int + 10
    else -1
  }

  /** CharToValue rejects exactly the bytes that spell no hex digit, and gives the spelled value otherwise. */
  lemma CharToValueHexIff(c: u8)
    ensures CharToValue(c) >= 0 <==> IsHexDigit(c)
    ensures CharToValue(c) >= 0 ==> Spells(c, CharToValue(c))
  {
    if CharToValue(c) >= 0 {
      assert Spells(c, CharToValue(c));
    }
    if IsHexDigit(c) {
      var v :| Spells(c, v);
      assert CharToValue(c) >= 0 by {
        assert c == UPPER_DIGITS[v] as int || c == LOWER_DIGITS[v] as int;
      }
    }
  }

  /** IsValidData accepts exactly the record mark and the hex digits. */
  lemma IsValidDataIff(c: u8)
    ensures IsValidData(c) <==> c == COLON || IsHexDigit(c)
  {
    CharToValueHexIff(c);
  }

  /** Decoding the character of either case that spells `v` gives back `v`. */
  lemma CharToValueInverse(c: u8, v: int)
    requires Spells(c, v)
    ensures CharToValue(c) == v
  {
  }

  function Pow16(k: nat): (r: nat)
    ensures r >= 1
  {
    if k == 0 then 1 else 16 * Pow16(k - 1)
  }

  /** The `k`-th hex digit of `x`, counting from the least significant. */
  function Nibble(x: nat, k: nat): nat
  {
    (x / Pow16(k)) % 16
  }

  /**
   ihex_InsertDigit: place `nibble & 0x0F` at digit `digitPos` of a 16-bit
   value. The C code shifts a 32-bit `int`; positions 4 to 6 shift the mask
   out of the 16-bit result, which then equals `src`, and position 7 or more
   overflows the shift, so the model stops at 6.
   */
  function InsertDigit(src: u16, nibble: u8, digitPos: u8): (dst: u16)
    requires digitPos <= 6
  {
    var n := nibble % 16;
    if digitPos == 0 then src - src % 0x10 + n
    else if digitPos == 1 then src - (src / 0x10 % 0x10) * 0x10 + n * 0x10
    else if digitPos == 2 then src - (src / 0x100 % 0x10) * 0x100 + n * 0x100
    else if digitPos == 3 then src % 0x1000 + n * 0x1000
    else src
  }

  /**
   InsertDigit replaces exactly the addressed nibble of the four and keeps the
   others; a position past the 16-bit value changes nothing.
   */
  lemma InsertDigitReplacesNibble(src: u16, nibble: u8, digitPos: u8)
    requires digitPos <= 6
    ensures var dst := InsertDigit(src, nibble, digitPos);
      && (digitPos <= 3 ==> Nibble(dst, digitPos) == nibble % 16)
      && (digitPos <= 3 ==> forall k :: 0 <= k < 4 && k != digitPos ==> Nibble(dst, k) == Nibble(src, k))
      && (digitPos > 3 ==> dst == src)
  {
    if digitPos <= 3 {
      var e := Digits(src)[digitPos := nibble % 16];
      InsertDigitWeights(src, nibble, digitPos);
      DigitsNibbles(e[3], e[2], e[1], e[0]);
      var dst := InsertDigit(src, nibble, digitPos);
      forall k | 0 <= k < 4
        ensures Nibble(dst, k) == e[k]
      {
      }
    }
  }

  /** The four hex digits of a 16-bit value, least significant first. */
  function Digits(x: u16): (d: seq<nat>)
    ensures |d| == 4 && forall k :: 0 <= k < 4 ==> d[k] == Nibble(x, k) && d[k] < 16
  {
    [Nibble(x, 0), Nibble(x, 1), Nibble(x, 2), Nibble(x, 3)]
  }

  /** InsertDigit's result, weighed digit by digit: the digits of `src` with the addressed one replaced. */
  lemma InsertDigitWeights(src: u16, nibble: u8, digitPos: u8)
    requires digitPos <= 3
    ensures var e := Digits(src)[digitPos := nibble % 16];
      InsertDigit(src, nibble, digitPos) == e[3] * 4096 + e[2] * 256 + e[1] * 16 + e[0]
  {
    Pow16Values();
    Decompose(src);
  }

  lemma Pow16Values()
    ensures Pow16(0) == 1 && Pow16(1) == 16 && Pow16(2) == 256 && Pow16(3) == 4096
  {
  }

  /** A 16-bit value is the sum of its four hex digits times their weights. */
  lemma Decompose(x: u16)
    ensures x == Nibble(x, 3) * 4096 + Nibble(x, 2) * 256 + Nibble(x, 1) * 16 + Nibble(x, 0)
  {
    Pow16Values();
    var q1, q2, q3 := x / 16, x / 256, x / 4096;
    assert x == 16 * q1 + x % 16;
    assert q1 == 16 * q2 + q1 % 16 by {
      assert x == 256 * q2 + x % 256;
    }
    assert q2 == 16 * q3 + q2 % 16 by {
      assert x == 4096 * q3 + x % 4096;
    }
    assert q3 < 16;
  }

  /** Reading back the hex digits of a value built from four digits. */
  lemma DigitsNibbles(a: nat, b: nat, c: nat, d: nat)
    requires a < 16 && b < 16 && c < 16 && d < 16
    ensures var x := a * 4096 + b * 256 + c * 16 + d;
      Nibble(x, 0) == d && Nibble(x, 1) == c && Nibble(x, 2) == b && Nibble(x, 3) == a
  {
    Pow16Values();
    var x := a * 4096 + b * 256 + c * 16 + d;
    assert x / 16 == a * 256 + b * 16 + c;
    assert x / 256 == a * 16 + b;
    assert x / 4096 == a;
  }

  /** Two digits fed at positions 1 and 0 into zero give their big-endian value. */
  lemma AssembleTwo(hi: nat, lo: nat)
    requires hi < 16 && lo < 16
    ensures InsertDigit(0, hi, 1) == 16 * hi
    ensures InsertDigit(16 * hi, lo, 0) == 16 * hi + lo
  {
    AssembleLowByte(0, hi, lo);
  }

  /** The two high digits fed at positions 3 and 2 into zero give the high byte. */
  lemma AssembleHighByte(d3: nat, d2: nat)
    requires d3 < 16 && d2 < 16
    ensures InsertDigit(0, d3, 3) == 4096 * d3
    ensures InsertDigit(4096 * d3, d2, 2) == 4096 * d3 + 256 * d2
  {
  }

  /** The two low digits fed at positions 1 and 0 into a value with a clear low byte. */
  lemma AssembleLowByte(x: u16, d1: nat, d0: nat)
    requires d1 < 16 && d0 < 16 && x % 256 == 0
    ensures InsertDigit(x, d1, 1) == x + 16 * d1
    ensures InsertDigit(x + 16 * d1, d0, 0) == x + 16 * d1 + d0
  {
    var q := x / 256;
    assert x == 256 * q;
    assert x / 16 == 16 * q;
    assert (x + 16 * d1) / 16 == 16 * q + d1;
  }
}
