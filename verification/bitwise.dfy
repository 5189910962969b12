/**
 Unsigned C integer arithmetic on mathematical integers: wrap-around to a
 fixed width and the bitwise OR the decoder uses to assemble its extended
 address base.
 */
module Bitwise {

  type u8 = x: int | 0 <= x < 0x100
  type u16 = x: int | 0 <= x < 0x1_0000
  type u32 = x: int | 0 <= x < 0x1_0000_0000

  /** Conversion to an unsigned 8-, 16- or 32-bit C integer (reduction modulo 2^w). */
  function Wrap8(x: int): u8 { x % 0x100 }
  function Wrap16(x: int): u16 { x % 0x1_0000 }
  function Wrap32(x: int): u32 { x % 0x1_0000_0000 }

  /** C's `x--` on a `uint8_t`: zero wraps to 255. */
  function Dec8(x: u8): (r: u8)
    ensures r == Wrap8(x - 1)
  {
    if x == 0 then 0xFF else x - 1
  }

  /** Values already in range are not changed by the wrap. */
  lemma WrapInRange(x: int)
    ensures 0 <= x < 0x100 ==> Wrap8(x) == x
    ensures 0 <= x < 0x1_0000 ==> Wrap16(x) == x
    ensures 0 <= x < 0x1_0000_0000 ==> Wrap32(x) == x
  {
  }

  /** Reducing an intermediate sum modulo 256 does not change the final 8-bit result. */
  lemma Wrap8Add(x: int, y: int)
    ensures Wrap8(Wrap8(x) + y) == Wrap8(x + y)
  {
    var q := x / 0x100;
    assert x == q * 0x100 + Wrap8(x);
    assert Wrap8(x) + y == (x + y) - q * 0x100;
  }

  function Pow2(k: nat): (r: nat)
    ensures r >= 1
  {
    if k == 0 then 1 else 2 * Pow2(k - 1)
  }

  lemma Pow2Values()
    ensures Pow2(4) == 0x10 && Pow2(8) == 0x100 && Pow2(16) == 0x1_0000
    ensures Pow2(24) == 0x100_0000 && Pow2(32) == 0x1_0000_0000
  {
    assert Pow2(4) == 0x10;
    assert Pow2(8) == 0x100;
    assert Pow2(12) == 0x1000;
    assert Pow2(16) == 0x1_0000;
    assert Pow2(20) == 0x10_0000;
    assert Pow2(24) == 0x100_0000;
    assert Pow2(28) == 0x1000_0000;
  }

  /** Bitwise OR of two naturals, least significant bit first. */
  function Or(a: nat, b: nat): nat
    decreases a + b
  {
    if a == 0 then b
    else if b == 0 then a
    else (if a % 2 == 1 || b % 2 == 1 then 1 else 0) + 2 * Or(a / 2, b / 2)
  }

  /** The 32-bit OR of C's `uint32_t |`. */
  function Or32(a: u32, b: u32): u32
  {
    OrBound32(a, b);
    Or(a, b)
  }

  /** OR never sets a bit above the operands' width. */
  lemma {:induction false} OrBound(a: nat, b: nat, w: nat)
    requires a < Pow2(w) && b < Pow2(w)
    ensures Or(a, b) < Pow2(w)
    decreases w
  {
    if w > 0 && a != 0 && b != 0 {
      OrBound(a / 2, b / 2, w - 1);
    }
  }

  lemma OrBound32(a: u32, b: u32)
    ensures Or(a, b) < 0x1_0000_0000
  {
    Pow2Values();
    OrBound(a, b, 32);
  }

  /**
   When the set bits of `lo` all lie below bit `k` and those of `hi * 2^k` all
   at or above it, OR-ing the two is plain addition.
   */
  lemma {:induction false} OrDisjoint(hi: nat, lo: nat, k: nat)
    requires lo < Pow2(k)
    ensures Or(hi * Pow2(k), lo) == hi * Pow2(k) + lo
    decreases k
  {
    var a := hi * Pow2(k);
    if k > 0 && a != 0 && lo != 0 {
      assert a == 2 * (hi * Pow2(k - 1));
      assert a % 2 == 0 && a / 2 == hi * Pow2(k - 1);
      OrDisjoint(hi, lo / 2, k - 1);
    }
  }
}
