/** Python integer bit operations on non-negative integers (`<<`, `>>`, `&`, `|`,
    `~`), defined bit by bit, with the facts about powers of two, shifts and
    masks that the address arithmetic relies on. Everything is stated with
    shifts rather than products of powers, so each proof stays linear. */
module Bits {

  const TwoTo32: nat := 0x1_0000_0000

  /** 2 to the power n. */
  function Pow2(n: nat): (r: nat)
    ensures r >= 1
  {
    if n == 0 then 1 else 2 * Pow2(n - 1)
  }

  /** Python's `x << k` on a non-negative integer (no truncation: ints are unbounded). */
  function Shl(x: nat, k: nat): nat
  {
    if k == 0 then x else 2 * Shl(x, k - 1)
  }

  /** Python's `x >> k` on a non-negative integer. */
  function Shr(x: nat, k: nat): nat
  {
    if k == 0 then x else Shr(x / 2, k - 1)
  }

  /** The low k bits of x, that is x modulo 2^k. */
  function LowPart(x: nat, k: nat): nat
  {
    if k == 0 then 0 else 2 * LowPart(x / 2, k - 1) + x % 2
  }

  /** Python's `~x`: in two's complement the complement of x is -x-1. */
  function BitNot(x: int): int
  {
    -x - 1
  }

  /** Python's `x & 0xFFFFFFFF` for ANY integer x, negative ones included: with
      two's complement and an all-ones low mask the result is x modulo 2^32. */
  function Low32(x: int): (r: nat)
    ensures r < TwoTo32
  {
    x % 0x1_0000_0000
  }

  /** Python's `x & y` on non-negative integers, one bit at a time from the low end. */
  function BitAnd(x: nat, y: nat): (r: nat)
    ensures r <= x && r <= y
    decreases x
  {
    if x == 0 || y == 0 then 0
    else 2 * BitAnd(x / 2, y / 2) + (if x % 2 == 1 && y % 2 == 1 then 1 else 0)
  }

  /** Python's `x | y` on non-negative integers, one bit at a time from the low end. */
  function BitOr(x: nat, y: nat): (r: nat)
    ensures x <= r && y <= r && r <= x + y
    decreases x + y
  {
    if x == 0 then y
    else if y == 0 then x
    else 2 * BitOr(x / 2, y / 2) + (if x % 2 == 1 || y % 2 == 1 then 1 else 0)
  }

  /** Bit i of x (bit 0 is the least significant). */
  function Bit(x: nat, i: nat): nat
  {
    Shr(x, i) % 2
  }

  /** The number whose one-bits are exactly bits k..n-1, that is 2^n - 2^k. */
  function OnesBetween(k: nat, n: nat): (m: nat)
    requires k <= n
    ensures m + Pow2(k) == Pow2(n)
  {
    Pow2Monotone(k, n);
    Pow2(n) - Pow2(k)
  }

  /** The 32-bit number whose one-bits are exactly bits k..31, that is 2^32 - 2^k. */
  function HighMask(k: nat): (m: nat)
    requires k <= 32
    ensures m + Pow2(k) == TwoTo32
  {
    Pow2AtMost32(k);
    TwoTo32 - Pow2(k)
  }

  // ---------------------------------------------------------------------------
  // Powers of two

  /** The numeric values of the powers of two the model mentions. */
  lemma Pow2Values()
    ensures Pow2(8) == 0x100 && Pow2(16) == 0x1_0000 && Pow2(20) == 0x10_0000
    ensures Pow2(24) == 0x100_0000 && Pow2(28) == 0x1000_0000 && Pow2(32) == TwoTo32
  {
    assert Pow2(4) == 16;
    Pow2Add(4, 4);
    Pow2Add(8, 8);
    Pow2Add(16, 4);
    Pow2Add(16, 8);
    Pow2Add(24, 4);
    Pow2Add(16, 16);
  }

  /** 2^32, the size of the address space. */
  lemma Pow2Of32()
    ensures Pow2(32) == TwoTo32
  {
    Pow2Values();
  }

  /** Powers up to 2^32 fit the address space. */
  lemma Pow2AtMost32(k: nat)
    requires k <= 32
    ensures Pow2(k) <= TwoTo32
  {
    Pow2Monotone(k, 32);
    Pow2Of32();
  }

  lemma {:induction false} Pow2Add(a: nat, b: nat)
    ensures Pow2(a + b) == Pow2(a) * Pow2(b)
  {
    if a > 0 {
      Pow2Add(a - 1, b);
      assert Pow2(a + b) == 2 * Pow2(a - 1 + b);
    }
  }

  lemma {:induction false} Pow2Monotone(a: nat, b: nat)
    requires a <= b
    ensures Pow2(a) <= Pow2(b)
  {
    if a < b {
      Pow2Monotone(a, b - 1);
    }
  }

  // ---------------------------------------------------------------------------
  // Shifts

  /** Shifting distributes over sums. */
  lemma {:induction false} ShlAdd(a: nat, b: nat, c: nat, k: nat)
    requires c == a + b
    ensures Shl(c, k) == Shl(a, k) + Shl(b, k)
  {
    if k > 0 {
      ShlAdd(a, b, c, k - 1);
    }
  }

  /** Shifting a power of two adds the exponents; in particular 1 << k == 2^k. */
  lemma {:induction false} ShlPow2(a: nat, k: nat, n: nat)
    requires n == a + k
    ensures Shl(Pow2(a), k) == Pow2(n)
  {
    if k > 0 {
      ShlPow2(a, k - 1, n - 1);
    }
  }

  /** 2^a shifted by the remaining 32 - a positions is 2^32. */
  lemma ShlToFull(a: nat, k: nat)
    requires a + k == 32
    ensures Shl(Pow2(a), k) == TwoTo32
  {
    ShlPow2(a, k, 32);
    Pow2Of32();
  }

  lemma ShlOne(k: nat)
    ensures Shl(1, k) == Pow2(k)
  {
    ShlPow2(0, k, k);
  }

  lemma {:induction false} ShlZero(k: nat)
    ensures Shl(0, k) == 0
  {
    if k > 0 {
      ShlZero(k - 1);
    }
  }

  /** Shifting preserves order, and consecutive multiples of 2^k are 2^k apart. */
  lemma ShlStep(a: nat, k: nat)
    ensures Shl(a + 1, k) == Shl(a, k) + Pow2(k)
  {
    ShlAdd(a, 1, a + 1, k);
    ShlOne(k);
  }

  lemma {:induction false} ShlMonotone(a: nat, b: nat, k: nat)
    requires a <= b
    ensures Shl(a, k) <= Shl(b, k)
  {
    ShlAdd(a, b - a, b, k);
  }

  /** Any x splits into its high part shifted back and its low k bits. */
  lemma {:induction false} ShrLowSplit(x: nat, k: nat)
    ensures x == Shl(Shr(x, k), k) + LowPart(x, k)
    ensures LowPart(x, k) < Pow2(k)
  {
    if k > 0 {
      ShrLowSplit(x / 2, k - 1);
      assert Shr(x, k) == Shr(x / 2, k - 1);
    }
  }

  /** The split is unique: whenever x == (q << k) + r with r < 2^k, then
      x >> k == q and the low k bits of x are r. */
  lemma {:induction false} ShrLowUnique(x: nat, q: nat, r: nat, k: nat)
    requires x == Shl(q, k) + r && r < Pow2(k)
    ensures Shr(x, k) == q && LowPart(x, k) == r
  {
    if k > 0 {
      assert x / 2 == Shl(q, k - 1) + r / 2;
      ShrLowUnique(x / 2, q, r / 2, k - 1);
    }
  }

  /** Values below 2^k are their own low k bits. */
  lemma LowPartBelow(x: nat, k: nat)
    requires x < Pow2(k)
    ensures LowPart(x, k) == x && Shr(x, k) == 0
  {
    ShlZero(k);
    ShrLowUnique(x, 0, x, k);
  }

  /** Shifting left by k is multiplying by 2^k. */
  lemma {:induction false} ShlIsMul(x: nat, k: nat)
    ensures Shl(x, k) == x * Pow2(k)
  {
    if k > 0 {
      ShlIsMul(x, k - 1);
      assert x * Pow2(k) == 2 * (x * Pow2(k - 1));
    }
  }

  /** Shifting right by k is dividing by 2^k; the low k bits are the remainder. */
  lemma ShrIsDiv(x: nat, k: nat)
    ensures Shr(x, k) == x / Pow2(k) && LowPart(x, k) == x % Pow2(k)
  {
    ShrLowSplit(x, k);
    ShlIsMul(Shr(x, k), k);
    DivModUnique(x, Pow2(k), Shr(x, k), LowPart(x, k));
  }

  /** Quotient and remainder are determined by any decomposition x == q*d + r with 0 <= r < d. */
  lemma DivModUnique(x: int, d: int, q: int, r: int)
    requires d > 0 && 0 <= r < d && x == q * d + r
    ensures x / d == q && x % d == r
  {
    var q0, r0 := x / d, x % d;
    assert (q - q0) * d == r0 - r;
    if q > q0 {
      assert (q - q0) * d >= 1 * d by { MulLeft(q - q0, 1, d); }
    } else if q < q0 {
      assert (q0 - q) * d >= 1 * d by { MulLeft(q0 - q, 1, d); }
    }
  }

  lemma MulLeft(a: int, b: int, d: int)
    requires a >= b && d >= 0
    ensures a * d >= b * d
  {
    assert a * d - b * d == (a - b) * d;
  }

  // ---------------------------------------------------------------------------
  // AND and OR

  lemma BitAndStep(x: nat, y: nat)
    ensures BitAnd(x, y) == 2 * BitAnd(x / 2, y / 2) + (if x % 2 == 1 && y % 2 == 1 then 1 else 0)
  {
  }

  lemma BitOrStep(x: nat, y: nat)
    ensures BitOr(x, y) == 2 * BitOr(x / 2, y / 2) + (if x % 2 == 1 || y % 2 == 1 then 1 else 0)
  {
  }

  /** OR and AND together account for every bit of both operands exactly once. */
  lemma {:induction false} OrPlusAnd(x: nat, y: nat)
    ensures BitOr(x, y) + BitAnd(x, y) == x + y
    decreases x + y
  {
    if x != 0 && y != 0 {
      OrPlusAnd(x / 2, y / 2);
      BitAndStep(x, y);
      BitOrStep(x, y);
    }
  }

  /** OR of operands with no common bit is their sum. */
  lemma DisjointOrIsSum(x: nat, y: nat)
    requires BitAnd(x, y) == 0
    ensures BitOr(x, y) == x + y
  {
    OrPlusAnd(x, y);
  }

  /** Masking with n low one-bits keeps the low n bits. */
  lemma {:induction false} AndLowMask(x: nat, n: nat)
    ensures BitAnd(x, Pow2(n) - 1) == LowPart(x, n)
  {
    if n > 0 {
      var m := Pow2(n) - 1;
      assert m / 2 == Pow2(n - 1) - 1 && m % 2 == 1;
      AndLowMask(x / 2, n - 1);
      BitAndStep(x, m);
    }
  }

  /** On non-negative operands `Low32` is the bitwise AND with 0xFFFFFFFF. */
  lemma Low32IsAnd(x: nat)
    ensures Low32(x) == BitAnd(x, TwoTo32 - 1)
  {
    Pow2Values();
    AndLowMask(x, 32);
    ShrIsDiv(x, 32);
  }

  /** Masking with the one-bits k..n-1 keeps the bits of x in that window. */
  lemma {:induction false} AndHighMask(x: nat, n: nat, k: nat)
    requires k <= n
    ensures BitAnd(x, OnesBetween(k, n)) == LowPart(x, n) - LowPart(x, k)
  {
    if k == 0 {
      AndLowMask(x, n);
    } else {
      var m := OnesBetween(k, n);
      assert m / 2 == OnesBetween(k - 1, n - 1) && m % 2 == 0;
      AndHighMask(x / 2, n - 1, k - 1);
      BitAndStep(x, m);
    }
  }

  /** A number whose low k bits are clear has no bit in common with a number below 2^k. */
  lemma {:induction false} AlignedAndSmallIsZero(x: nat, y: nat, k: nat)
    requires LowPart(x, k) == 0 && y < Pow2(k)
    ensures BitAnd(x, y) == 0
  {
    if k > 0 {
      AlignedAndSmallIsZero(x / 2, y / 2, k - 1);
      BitAndStep(x, y);
    }
  }

  /** Masking a 32-bit number with bits k..31 clears its low k bits. */
  lemma AndHighMask32(x: nat, k: nat)
    requires x < TwoTo32 && k <= 32
    ensures BitAnd(x, HighMask(k)) == x - LowPart(x, k)
  {
    Pow2Of32();
    AndHighMask(x, 32, k);
    LowPartBelow(x, 32);
  }

  // ---------------------------------------------------------------------------
  // Whole bytes

  lemma Pow2Of8()
    ensures Pow2(8) == 0x100
  {
    assert Pow2(4) == 16;
    Pow2Add(4, 4);
  }

  /** Shifting left by a byte multiplies by 256 and leaves the low byte clear. */
  lemma ShlByte(v: nat)
    ensures Shl(v, 8) == v * 0x100
    ensures LowPart(Shl(v, 8), 8) == 0
  {
    ShlIsMul(v, 8);
    Pow2Of8();
    ShrLowUnique(Shl(v, 8), v, 0, 8);
  }

  /** Shifting right by one, two or three bytes divides by 2^8, 2^16 or 2^24. */
  lemma ShrBytes(x: nat)
    ensures Shr(x, 8) == x / 0x100
    ensures Shr(x, 16) == x / 0x1_0000
    ensures Shr(x, 24) == x / 0x100_0000
  {
    Pow2Of8();
    Pow2Add(8, 8);
    Pow2Add(16, 8);
    ShrIsDiv(x, 8);
    ShrIsDiv(x, 16);
    ShrIsDiv(x, 24);
  }

  /** `x & 0xFF` is the low byte of x. */
  lemma AndByte(x: nat)
    ensures BitAnd(x, 0xFF) == x % 0x100
  {
    Pow2Of8();
    AndLowMask(x, 8);
    ShrIsDiv(x, 8);
  }

  /** Shifting right by 20 or 28 bits divides by 2^20 or 2^28. */
  lemma ShrNibbles(x: nat)
    ensures Shr(x, 20) == x / 0x10_0000
    ensures Shr(x, 28) == x / 0x1000_0000
  {
    assert Pow2(4) == 16;
    Pow2Of8();
    Pow2Add(8, 8);
    Pow2Add(16, 4);
    Pow2Add(20, 8);
    ShrIsDiv(x, 20);
    ShrIsDiv(x, 28);
  }
}
