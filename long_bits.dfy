/**
 * Swift's 64-bit `Long` (`Int64`) as a bounded mathematical integer, and the
 * bit operations OrderBase.swift applies to it, each defined by its exact
 * arithmetic meaning on two's-complement values:
 *   x >> n            (arithmetic shift)   = floor(x / 2^n)
 *   x & ~(-1 << n)    (keep the low n bits) = x mod 2^n
 *   x & ~(2^n - 1)    (clear the low n bits) = x - x mod 2^n
 *   x << n            (Swift's smart shift on Int: bits shifted out are dropped)
 *   a | b             (bitwise or, computed on the 64-bit patterns)
 * Dafny's `/` and `%` with a positive divisor are floor division and a
 * non-negative remainder, which is what these identities need.
 */
module LongBits {

  const TwoTo10: int := 0x400
  const TwoTo16: int := 0x1_0000
  const TwoTo22: int := 0x40_0000
  const TwoTo32: int := 0x1_0000_0000
  const TwoTo48: int := 0x1_0000_0000_0000
  const TwoTo63: int := 0x8000_0000_0000_0000
  const TwoTo64: int := 0x1_0000_0000_0000_0000

  /** Swift `Int64` (`Long`, and `Int` on 64-bit platforms). */
  type Int64 = x: int | -0x8000_0000_0000_0000 <= x < 0x8000_0000_0000_0000

  /** Swift `Int32`. */
  type Int32 = x: int | -0x8000_0000 <= x < 0x8000_0000

  function Pow2(n: nat): (r: nat)
    ensures r >= 1
  {
    if n == 0 then 1 else 2 * Pow2(n - 1)
  }

  /** The 64-bit two's-complement pattern of x, read as an unsigned number. */
  function Unsigned(x: int): (u: nat)
    ensures u < TwoTo64
    ensures 0 <= x < TwoTo64 ==> u == x
  {
    x % TwoTo64
  }

  /** The low 64 bits of x, read as a signed Int64 (wrap-around). */
  function Truncate(x: int): (r: Int64)
    ensures (x - r) % TwoTo64 == 0
    ensures -TwoTo63 <= x < TwoTo63 ==> r == x
  {
    var u := x % TwoTo64;
    if u < TwoTo63 then u else u - TwoTo64
  }

  /** The low 32 bits of x, read as a signed Int32 (wrap-around). */
  function Wrap32(x: int): (w: Int32)
    ensures (x - w) % TwoTo32 == 0
    ensures -0x8000_0000 <= x < 0x8000_0000 ==> w == x
  {
    DivMod(x + 0x8000_0000, TwoTo32);
    if -0x8000_0000 <= x < 0x8000_0000 then
      DivModUnique(x + 0x8000_0000, TwoTo32, 0, x + 0x8000_0000);
      (x + 0x8000_0000) % TwoTo32 - 0x8000_0000
    else
      (x + 0x8000_0000) % TwoTo32 - 0x8000_0000
  }

  /**
   * Bitwise or of two naturals, one bit at a time from the lowest. It is
   * applied to naturals only; taking `int` spares every caller a sign check.
   */
  function OrNat(a: int, b: int): int
    decreases if a > 0 && b > 0 then a + b else 0
  {
    if a <= 0 then b
    else if b <= 0 then a
    else 2 * OrNat(a / 2, b / 2) + (if a % 2 == 1 || b % 2 == 1 then 1 else 0)
  }

  /** `a | b` on Int64. */
  function Or(a: Int64, b: Int64): Int64
  {
    Truncate(OrNat(Unsigned(a), Unsigned(b)))
  }

  /** `x << n` on a 64-bit Swift Int: the bits shifted past bit 63 are dropped. */
  function ShiftLeft(x: int, n: nat): Int64
  {
    Truncate(x * Pow2(n))
  }

  /** `x >> n` on Int64: the arithmetic (sign-propagating) shift. */
  function ShiftRight(x: Int64, n: nat): (r: Int64)
    ensures x >= 0 ==> 0 <= r <= x
    ensures x < 0 ==> x <= r < 0
  {
    DivBounds(x, Pow2(n));
    x / Pow2(n)
  }

  /** `x & ~(-1 << n)`, equivalently `x & (2^n - 1)`: the low n bits of x. */
  function LowBits(x: int, n: nat): (r: nat)
    ensures r < Pow2(n)
  {
    x % Pow2(n)
  }

  /** `x & ~(2^n - 1)`: x with its low n bits cleared. */
  function ClearLowBits(x: Int64, n: nat): (r: Int64)
    requires n <= 63
    ensures LowBits(r, n) == 0
    ensures ShiftRight(r, n) == ShiftRight(x, n)
  {
    ClearLowBitsFacts(x, n);
    x - x % Pow2(n)
  }

  lemma ClearLowBitsFacts(x: Int64, n: nat)
    requires n <= 63
    ensures -TwoTo63 <= x - x % Pow2(n) <= x
    ensures (x - x % Pow2(n)) % Pow2(n) == 0
    ensures (x - x % Pow2(n)) / Pow2(n) == x / Pow2(n)
  {
    var p, m := Pow2(n), Pow2(63 - n);
    DivMod(x, p);
    var q, r := x / p, x % p;
    Pow2Add(n, 63 - n);
    Pow2Values();
    assert p * m == TwoTo63;
    ClearedBelow(x, p, m, q, r);
    assert x - r == q * p;
    DivModUnique(q * p, p, q, 0);
  }

  // ---------------------------------------------------------------------
  // Powers of two used by OrderBase

  lemma {:induction false} Pow2Add(a: nat, b: nat)
    ensures Pow2(a + b) == Pow2(a) * Pow2(b)
  {
    if a > 0 {
      Pow2Add(a - 1, b);
      assert Pow2(a + b) == 2 * Pow2(a - 1 + b);
    }
  }

  lemma Pow2Values()
    ensures Pow2(2) == 4 && Pow2(10) == TwoTo10 && Pow2(16) == TwoTo16 && Pow2(22) == TwoTo22
    ensures Pow2(32) == TwoTo32 && Pow2(48) == TwoTo48 && Pow2(63) == TwoTo63 && Pow2(64) == TwoTo64
  {
    assert Pow2(2) == 4 by { assert Pow2(1) == 2; }
    Pow2Add(2, 2);
    Pow2Add(4, 4);
    Pow2Add(8, 2);
    Pow2Add(8, 8);
    Pow2Add(16, 4);
    Pow2Add(20, 2);
    Pow2Add(16, 16);
    Pow2Add(32, 16);
    Pow2Add(32, 32);
    assert Pow2(64) == 2 * Pow2(63);
  }

  // ---------------------------------------------------------------------
  // Division facts, each with the smallest context the solver needs

  lemma MulAtLeast(a: int, d: int)
    requires a >= 1 && d > 0
    ensures a * d >= d
  {}

  lemma DivMod(x: int, d: int)
    requires d > 0
    ensures x == (x / d) * d + x % d && 0 <= x % d < d
    ensures x >= 0 ==> x / d >= 0
  {
  }

  lemma DivModUnique(x: int, d: int, q: int, r: int)
    requires 0 < d && 0 <= r < d && x == q * d + r
    ensures x / d == q && x % d == r
  {
    var q', r' := x / d, x % d;
    if q' > q { MulAtLeast(q' - q, d); }
    else if q' < q { MulAtLeast(q - q', d); }
  }

  lemma DivBounds(x: int, d: int)
    requires d >= 1
    ensures x >= 0 ==> 0 <= x / d <= x
    ensures x < 0 ==> x <= x / d < 0
  {
    DivMod(x, d);
    var q, r := x / d, x % d;
    if x >= 0 {
      DivAtMost(x, d, q, r);
    } else {
      DivNegative(x, d, q, r);
    }
  }

  lemma DivAtMost(x: int, d: int, q: int, r: int)
    requires d >= 1 && x >= 0 && q >= 0 && 0 <= r && x == q * d + r
    ensures q <= x
  {
    if q > 0 { MulAtLeast(d, q); }
  }

  lemma DivNegative(x: int, d: int, q: int, r: int)
    requires d >= 1 && x < 0 && 0 <= r < d && x == q * d + r
    ensures x <= q < 0
  {
    if q >= 0 {
      MulMono(0, q, d);
    } else if d > 1 {
      MulAtLeast(-q, d - 1);
      assert q * d == q + q * (d - 1);
    }
  }

  lemma MulMono(a: int, b: int, p: int)
    requires a <= b && p >= 0
    ensures a * p <= b * p
  {
    assert b * p - a * p == (b - a) * p;
  }

  lemma MulSub(m: int, p: int)
    ensures (-m - 1) * p == -(m * p) - p
  {}

  /** Clearing the low bits of a value at least -(p * m) stays at least -(p * m). */
  lemma ClearedBelow(x: int, p: int, m: int, q: int, r: int)
    requires p >= 1 && m >= 1 && p * m == TwoTo63
    requires x >= -TwoTo63 && x == q * p + r && 0 <= r < p
    ensures q * p >= -TwoTo63
  {
    if q < -m {
      MulMono(q, -m - 1, p);
      MulSub(m, p);
      assert false;
    } else {
      MulMono(-m, q, p);
      assert -m * p == -TwoTo63;
    }
  }

  lemma Regroup(y: int, p: int, h: int, b: int, hq: int, hr: int)
    requires y == 2 * h + b && h == hq * p + hr
    ensures y == hq * (2 * p) + (2 * hr + b)
  {}

  lemma Twice(x: int, p: int, xp: int)
    requires xp == x * p
    ensures x * (2 * p) == 2 * xp
  {}

  lemma TwiceSum(a: int, p: int, r: int, b: int)
    requires b == a * p + r
    ensures 2 * b == a * (2 * p) + 2 * r
  {}

  // ---------------------------------------------------------------------
  // The bitwise or splits at any power of two

  lemma OrNatEvenOdd(xp: nat, y: nat)
    requires xp > 0 && y > 0
    ensures OrNat(2 * xp, y) == 2 * OrNat(xp, y / 2) + y % 2
  {
    assert (2 * xp) / 2 == xp;
    assert (2 * xp) % 2 == 0;
  }

  /**
   * Or-ing a value whose low k bits are zero: the low k bits come from y
   * alone, and the bits above are the or of x with y's high part.
   */
  lemma {:induction false} OrNatSplit(x: nat, y: nat, k: nat)
    ensures OrNat(x * Pow2(k), y) == OrNat(x, y / Pow2(k)) * Pow2(k) + y % Pow2(k)
  {
    var pk := Pow2(k);
    if k == 0 {
      OrNatSplitUnit(x, y, pk);
    } else if x == 0 {
      OrNatSplitLeftZero(y, pk);
    } else if y == 0 {
      OrNatSplitRightZero(x, pk);
    } else {
      OrNatSplit(x, y / 2, k - 1);
      OrNatSplitStep(x, y, Pow2(k - 1), pk);
    }
  }

  lemma OrNatSplitUnit(x: nat, y: nat, p: nat)
    requires p == 1
    ensures OrNat(x * p, y) == OrNat(x, y / p) * p + y % p
  {
  }

  lemma OrNatSplitLeftZero(y: nat, p: nat)
    requires p >= 1
    ensures OrNat(0 * p, y) == OrNat(0, y / p) * p + y % p
  {
    DivMod(y, p);
  }

  lemma OrNatSplitRightZero(x: nat, p: nat)
    requires p >= 1
    ensures OrNat(x * p, 0) == OrNat(x, 0 / p) * p + 0 % p
  {
    assert OrNat(x, 0) == x;
    if x > 0 {
      MulAtLeast(x, p);
    }
  }

  /** The induction step, from p = 2^(k-1) to pk = 2^k, for nonzero operands. */
  lemma OrNatSplitStep(x: nat, y: nat, p: nat, pk: nat)
    requires x > 0 && y > 0 && p >= 1 && pk == 2 * p
    requires OrNat(x * p, y / 2) == OrNat(x, (y / 2) / p) * p + (y / 2) % p
    ensures OrNat(x * pk, y) == OrNat(x, y / pk) * pk + y % pk
  {
    var xp := x * p;
    MulAtLeast(x, p);
    Twice(x, p, xp);
    OrNatEvenOdd(xp, y);
    var h, b := y / 2, y % 2;
    DivMod(h, p);
    var hq, hr := h / p, h % p;
    var m, l := OrNat(x, hq), OrNat(x * pk, y);
    StepArith(y, p, pk, h, b, hq, hr, m, OrNat(xp, h), l);
    assert OrNat(x, y / pk) == m;
    assert l == m * pk + y % pk;
  }

  /** The arithmetic of the induction step, with every quotient and product named. */
  lemma StepArith(y: int, p: int, pk: int, h: int, b: int, hq: int, hr: int, m: int, i: int, l: int)
    requires p >= 1 && pk == 2 * p
    requires y == 2 * h + b && 0 <= b < 2
    requires h == hq * p + hr && 0 <= hr < p
    requires i == m * p + hr && l == 2 * i + b
    ensures y / pk == hq && y % pk == 2 * hr + b
    ensures l == m * pk + (2 * hr + b)
  {
    Regroup(y, p, h, b, hq, hr);
    DivModUnique(y, 2 * p, hq, 2 * hr + b);
    TwiceSum(m, p, hr, i);
  }

  /** A multiple of 2^n stays one after reduction modulo 2^64 (n <= 64). */
  lemma UnsignedKeepsMultiple(a: int, n: nat)
    requires n <= 64
    requires a % Pow2(n) == 0
    ensures Unsigned(a) % Pow2(n) == 0
  {
    var p := Pow2(n);
    Pow2Add(n, 64 - n);
    Pow2Values();
    var m := Pow2(64 - n);
    DivMod(a, p);
    DivMod(a, TwoTo64);
    var u := Unsigned(a);
    MultipleShift(a, u, p, m, a / p, a / TwoTo64);
  }

  lemma MultipleShift(a: int, u: int, p: int, m: int, q: int, w: int)
    requires p >= 1
    requires a == q * p && u == a - w * (p * m)
    ensures u % p == 0
  {
    assert u == (q - w * m) * p;
    DivModUnique(u, p, q - w * m, 0);
  }

  /** `x << n` always has its low n bits clear, whatever is shifted out at the top. */
  lemma ShiftLeftLowBits(x: int, n: nat)
    requires n <= 64
    ensures LowBits(ShiftLeft(x, n), n) == 0
  {
    var p := Pow2(n);
    var v := x * p;
    DivModUnique(v, p, x, 0);
    var r := ShiftLeft(x, n);
    DivMod(v - r, TwoTo64);
    Pow2Add(n, 64 - n);
    Pow2Values();
    MultipleShift(v, r, p, Pow2(64 - n), x, (v - r) / TwoTo64);
  }

  /** `x << 32` on Int64 keeps only the low 32 bits of x: it is Wrap32(x) times 2^32. */
  lemma ShiftLeft32Wraps(x: int)
    ensures ShiftLeft(x, 32) == Wrap32(x) * TwoTo32
  {
    Pow2Values();
    var w := Wrap32(x);
    DivMod(x - w, TwoTo32);
    var k := (x - w) / TwoTo32;
    assert x * TwoTo32 - w * TwoTo32 == k * TwoTo64;
    DivModUnique(k * TwoTo64, TwoTo64, k, 0);
    TruncateUnsigned(x * TwoTo32, w * TwoTo32);
  }

  /** Two's-complement wrap-around is a bijection between residues and Int64. */
  lemma TruncateUnsigned(v: int, a: int)
    requires (v - a) % TwoTo64 == 0 && -TwoTo63 <= a < TwoTo63
    ensures Truncate(v) == a
  {
    DivMod(v - a, TwoTo64);
    var k := (v - a) / TwoTo64;
    DivMod(v, TwoTo64);
    DivMod(a, TwoTo64);
  }

  lemma Pow2AtMost64(n: nat)
    requires n <= 64
    ensures Pow2(n) <= TwoTo64
  {
    Pow2Mono(n, 64);
    Pow2Values();
  }

  lemma {:induction false} Pow2Mono(a: nat, b: nat)
    requires a <= b
    ensures Pow2(a) <= Pow2(b)
  {
    if a < b {
      Pow2Mono(a, b - 1);
    }
  }

  lemma UnsignedCongruent(a: int)
    ensures (Unsigned(a) - a) % TwoTo64 == 0
  {
    DivMod(a, TwoTo64);
    DivModUnique(Unsigned(a) - a, TwoTo64, -(a / TwoTo64), 0);
  }

  /** x * p | b is x * p + b when b < p: the operands have no bit in common. */
  lemma OrNatDisjoint(x: nat, b: nat, n: nat)
    requires b < Pow2(n)
    ensures OrNat(x * Pow2(n), b) == x * Pow2(n) + b
  {
    OrNatSplit(x, b, n);
    DivModUnique(b, Pow2(n), 0, b);
    assert OrNat(x, 0) == x;
  }

  /**
   * When a's low n bits are zero and b fits in them, a | b is a + b:
   * the two operands have no bit in common.
   */
  lemma OrDisjoint(a: Int64, b: Int64, n: nat)
    requires n <= 64
    requires LowBits(a, n) == 0 && 0 <= b < Pow2(n)
    requires -TwoTo63 <= a + b < TwoTo63
    ensures Or(a, b) == a + b
  {
    var p := Pow2(n);
    UnsignedKeepsMultiple(a, n);
    var u := Unsigned(a);
    DivMod(u, p);
    var x := u / p;
    Pow2AtMost64(n);
    assert Unsigned(b) == b;
    OrNatDisjoint(x, b, n);
    UnsignedCongruent(a);
    TruncateUnsigned(u + b, a + b);
  }

  /** When a's low n bits are zero, the low n bits of a | b are those of b. */
  lemma OrLowBits(a: Int64, b: Int64, n: nat)
    requires n <= 64
    requires LowBits(a, n) == 0
    ensures LowBits(Or(a, b), n) == LowBits(b, n)
  {
    var p := Pow2(n);
    UnsignedKeepsMultiple(a, n);
    var u := Unsigned(a);
    DivMod(u, p);
    var x := u / p;
    var v := Unsigned(b);
    OrNatSplit(x, v, n);
    DivMod(v, p);
    var o := OrNat(u, v);
    assert o == OrNat(x, v / p) * p + v % p;
    Pow2Add(n, 64 - n);
    Pow2Values();
    var m := Pow2(64 - n);
    assert p * m == TwoTo64;
    UnsignedCongruent(b);
    var r := Or(a, b);
    assert (o - r) % TwoTo64 == 0;
    CommonResidue(o, r, v, b, p, m, OrNat(x, v / p), v / p);
  }

  /** Values congruent modulo 2^64 are congruent modulo any divisor p of it. */
  lemma CommonResidue(o: int, r: int, v: int, b: int, p: int, m: int, c: int, d: int)
    requires p >= 1 && m >= 1 && p * m == TwoTo64
    requires (o - r) % TwoTo64 == 0 && (v - b) % TwoTo64 == 0
    requires o == c * p + v % p && v == d * p + v % p
    ensures r % p == b % p
  {
    DivMod(o - r, TwoTo64);
    DivMod(v - b, TwoTo64);
    var k1, k2 := (o - r) / TwoTo64, (v - b) / TwoTo64;
    DivMod(v, p);
    assert r == (c - k1 * m) * p + v % p;
    assert b == (d - k2 * m) * p + v % p;
    DivModUnique(r, p, c - k1 * m, v % p);
    DivModUnique(b, p, d - k2 * m, v % p);
  }
}
