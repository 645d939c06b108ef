/** The `uint32_t` operations the codec uses, on unbounded integers.

    A `uint32_t` is an integer in [0, 2^32). Bitwise OR and AND are defined
    bit by bit from the least significant bit up; a left shift drops the
    bits pushed past bit 31 (arithmetic modulo 2^32), a right shift drops
    the low bits. */
module Bits {

  const Word: int := 0x1_0000_0000

  type U32 = n: int | 0 <= n < Word

  /** x * 2^k, by doubling k times. */
  function ShiftUp(x: nat, k: nat): nat
  {
    if k == 0 then x else 2 * ShiftUp(x, k - 1)
  }

  function Pow2(k: nat): (r: nat)
    ensures r >= 1
  {
    if k == 0 then 1 else 2 * Pow2(k - 1)
  }

  /** Bit i of x, the least significant bit being bit 0. */
  function Bit(x: nat, i: nat): (b: nat)
    ensures b <= 1
  {
    if i == 0 then x % 2 else Bit(x / 2, i - 1)
  }

  /** Bitwise OR. */
  function Or(a: nat, b: nat): nat
    decreases a + b
  {
    if a == 0 then b
    else if b == 0 then a
    else 2 * Or(a / 2, b / 2) + (if a % 2 == 1 || b % 2 == 1 then 1 else 0)
  }

  /** Bitwise AND. */
  function And(a: nat, b: nat): nat
    decreases a + b
  {
    if a == 0 || b == 0 then 0
    else 2 * And(a / 2, b / 2) + (if a % 2 == 1 && b % 2 == 1 then 1 else 0)
  }

  /** `x << k` on a `uint32_t`: bits moved past bit 31 are lost. */
  function Shl(x: U32, k: nat): U32
    requires k < 32
  {
    ShiftUp(x, k) % Word
  }

  /** `x >> k` on a `uint32_t`. */
  function Shr(x: U32, k: nat): int
    requires k < 32
  {
    x / Pow2(k)
  }

  lemma {:induction false} BitOfZero(i: nat)
    ensures Bit(0, i) == 0
  {
    if i > 0 {
      BitOfZero(i - 1);
    }
  }

  /** Or is bitwise: bit i of a | b is set exactly when bit i of a or of b is. */
  lemma {:induction false} OrBit(a: nat, b: nat, i: nat)
    ensures Bit(Or(a, b), i) == 1 <==> Bit(a, i) == 1 || Bit(b, i) == 1
    decreases a + b
  {
    if a == 0 || b == 0 {
      BitOfZero(i);
    } else {
      Halve(Or(a / 2, b / 2), if a % 2 == 1 || b % 2 == 1 then 1 else 0);
      if i > 0 {
        OrBit(a / 2, b / 2, i - 1);
      }
    }
  }

  /** And is bitwise: bit i of a & b is set exactly when bit i of a and of b are. */
  lemma {:induction false} AndBit(a: nat, b: nat, i: nat)
    ensures Bit(And(a, b), i) == 1 <==> Bit(a, i) == 1 && Bit(b, i) == 1
    decreases a + b
  {
    if a == 0 || b == 0 {
      BitOfZero(i);
    } else {
      Halve(And(a / 2, b / 2), if a % 2 == 1 && b % 2 == 1 then 1 else 0);
      if i > 0 {
        AndBit(a / 2, b / 2, i - 1);
      }
    }
  }

  /** The OR of two values below 2^k is below 2^k; in particular the OR of
      two `uint32_t` values is one. */
  lemma {:induction false} OrBound(a: nat, b: nat, k: nat)
    requires a < Pow2(k) && b < Pow2(k)
    ensures Or(a, b) < Pow2(k)
    decreases a + b
  {
    if a != 0 && b != 0 {
      OrBound(a / 2, b / 2, k - 1);
    }
  }

  /** The recursive step of Or also holds when an argument is zero. */
  lemma OrStep(a: nat, b: nat)
    ensures Or(a, b) == 2 * Or(a / 2, b / 2) + (if a % 2 == 1 || b % 2 == 1 then 1 else 0)
  {
  }

  /** The OR with a single bit b sets bit 0 when b is set. */
  lemma OrWithBit(a: nat, b: nat)
    requires b <= 1
    ensures Or(a, b) == a / 2 * 2 + (if a % 2 == 1 || b == 1 then 1 else 0)
  {
    OrStep(a, b);
  }

  lemma Halve(h: nat, x: nat)
    ensures (2 * h + x) / 2 == h + x / 2 && (2 * h + x) % 2 == x % 2
  {
  }

  /** OR works on high and low parts separately: below bit k, a | b is the
      OR of the low parts, from bit k up the OR of the high parts. */
  lemma {:induction false} OrSplit(a1: nat, a0: nat, b1: nat, b0: nat, k: nat)
    requires a0 < Pow2(k) && b0 < Pow2(k)
    ensures Or(ShiftUp(a1, k) + a0, ShiftUp(b1, k) + b0) == ShiftUp(Or(a1, b1), k) + Or(a0, b0)
    decreases k
  {
    if k > 0 {
      OrSplit(a1, a0 / 2, b1, b0 / 2, k - 1);
      OrLift(ShiftUp(a1, k - 1), a0, ShiftUp(b1, k - 1), b0, ShiftUp(Or(a1, b1), k - 1));
    }
  }

  /** The inductive step of OrSplit: one more low bit. */
  lemma OrLift(ha: nat, a0: nat, hb: nat, b0: nat, hc: nat)
    requires Or(ha + a0 / 2, hb + b0 / 2) == hc + Or(a0 / 2, b0 / 2)
    ensures Or(2 * ha + a0, 2 * hb + b0) == 2 * hc + Or(a0, b0)
  {
    Halve(ha, a0);
    Halve(hb, b0);
    OrStep(2 * ha + a0, 2 * hb + b0);
    OrStep(a0, b0);
  }

  /** AND with the mask 2^k - 1 keeps the k low bits and clears the rest. */
  lemma {:induction false} AndLowMask(h: nat, l: nat, k: nat)
    requires l < Pow2(k)
    ensures And(ShiftUp(h, k) + l, Pow2(k) - 1) == l
    decreases k
  {
    if k > 0 {
      var a, m := ShiftUp(h, k) + l, Pow2(k) - 1;
      assert a == 2 * ShiftUp(h, k - 1) + l;
      assert m == 2 * (Pow2(k - 1) - 1) + 1;
      Halve(ShiftUp(h, k - 1), l);
      Halve(Pow2(k - 1) - 1, 1);
      AndLowMask(h, l / 2, k - 1);
    }
  }

  /** Doubling k times multiplies by 2^k. */
  lemma {:induction false} ShiftUpMul(x: nat, k: nat)
    ensures ShiftUp(x, k) == x * Pow2(k)
  {
    if k > 0 {
      ShiftUpMul(x, k - 1);
      assert x * (2 * Pow2(k - 1)) == 2 * (x * Pow2(k - 1));
    }
  }

  lemma ShiftUp16(x: nat)
    ensures ShiftUp(x, 16) == x * 0x10000
  {
    Pow2Values();
    ShiftUpMul(x, 16);
  }

  lemma Pow2Values()
    ensures Pow2(1) == 2 && Pow2(16) == 0x10000 && Pow2(32) == Word
  {
    assert Pow2(2) == 4;
    assert Pow2(4) == 0x10;
    assert Pow2(6) == 0x40;
    assert Pow2(8) == 0x100;
    assert Pow2(10) == 0x400;
    assert Pow2(12) == 0x1000;
    assert Pow2(14) == 0x4000;
    assert Pow2(16) == 0x1_0000;
    assert Pow2(18) == 0x4_0000;
    assert Pow2(20) == 0x10_0000;
    assert Pow2(22) == 0x40_0000;
    assert Pow2(24) == 0x100_0000;
    assert Pow2(26) == 0x400_0000;
    assert Pow2(28) == 0x1000_0000;
    assert Pow2(30) == 0x4000_0000;
  }

  /** `x & 0xFFFF` keeps the low 16 bits and `x & 1` the lowest one. */
  lemma LowMasks(x: nat)
    ensures And(x, 0xFFFF) == x % 0x10000
    ensures And(x, 1) == x % 2
  {
    Mask16(x);
    Mask1(x);
  }

  lemma Mask16(x: nat)
    ensures And(x, 0xFFFF) == x % 0x10000
  {
    Pow2Values();
    ShiftUp16(x / 0x10000);
    AndLowMask(x / 0x10000, x % 0x10000, 16);
  }

  lemma Mask1(x: nat)
    ensures And(x, 1) == x % 2
  {
    Pow2Values();
    ShiftUpMul(x / 2, 1);
    AndLowMask(x / 2, x % 2, 1);
  }

  /** The four shifts the codec uses. */
  lemma Shifts(x: U32)
    ensures Shl(x, 16) == (x * 0x10000) % Word && Shl(x, 1) == (x * 2) % Word
    ensures Shr(x, 16) == x / 0x10000 && Shr(x, 1) == x / 2
  {
    Pow2Values();
    ShiftUpMul(x, 16);
    ShiftUpMul(x, 1);
  }

  /** Euclidean division is determined by its defining equation. */
  lemma DivModUnique(x: int, d: int, q: int, r: int)
    requires d > 0 && 0 <= r < d && x == d * q + r
    ensures x / d == q && x % d == r
  {
    var q', r' := x / d, x % d;
    assert d * q' + r' == d * q + r;
    if q' > q {
      MulGap(d, q', q);
    } else if q' < q {
      MulGap(d, q, q');
    }
  }

  /** Distinct multiples of d are at least d apart. */
  lemma {:induction false} MulGap(d: nat, a: int, b: int)
    requires a > b
    ensures d * a >= d * b + d
    decreases a - b
  {
    if a - 1 > b {
      MulGap(d, a - 1, b);
    }
    assert d * a == d * (a - 1) + d;
  }
}
