/** Machine integers and the shift/mask idioms of fixed_sincos.c, stated on
    unbounded integers.  A right shift `x >> k` is `x / Pow2(k)`: Dafny's
    division by a positive number rounds toward minus infinity, which is the
    arithmetic shift of a two's-complement value.  A mask `x & (2^k - 1)` of
    a non-negative x is `x % Pow2(k)`. */
module Bits {

  /** The C type int64_t. */
  newtype int64 = x: int | -0x8000_0000_0000_0000 <= x < 0x8000_0000_0000_0000

  /** Number of values of uint64_t. */
  const UINT64_MODULUS: nat := 0x1_0000_0000_0000_0000

  function Pow2(k: nat): (p: int)
    ensures p >= 1
  {
    if k == 0 then 1 else 2 * Pow2(k - 1)
  }

  /** `(uint64_t)v`: the value modulo 2^64. */
  function AsUint64(v: int): nat
  {
    v % UINT64_MODULUS
  }

  /** Assigning a uint64_t to an int64_t: the two's-complement reading. */
  function AsInt64(u: nat): int
  {
    if u < UINT64_MODULUS / 2 then u else u - UINT64_MODULUS
  }

  /** `(v >> k) & 0x01`: bit k of the two's-complement representation of v. */
  function Bit(v: int, k: nat): nat
  {
    (v / Pow2(k)) % 2
  }

  /** 2^18: one, at the scale of a folded angle and of its powers. */
  const ONE: nat := 0x4_0000

  /** `(a * b) >> 18` on uint64_t: a fixed-point product of two fractions
      scaled by 2^18, rescaled to 2^18.  The product stays below 2^36, so the
      uint64_t multiplication never wraps (MulFits), and the product of two
      fractions below one is no larger than either of them. */
  function FixMul(a: nat, b: nat): (r: nat)
    requires a < ONE && b < ONE
    ensures r <= a && r <= b
  {
    ShrOfProductBelow(a, b);
    ShrOfProductBelow(b, a);
    a * b / ONE
  }

  /** A fixed-point product grows with each factor. */
  lemma FixMulMono(a: nat, b: nat, c: nat)
    requires a < ONE && b <= c < ONE
    ensures FixMul(a, b) <= FixMul(a, c)
  {
    MulMono(a, b, c);
    DivMono(a * b, a * c, ONE);
  }

  /** `(k * x) >> s` on uint64_t, where d = 2^s: a power x (scale 2^18)
      weighted by a Taylor constant k.  Both are below 2^18, so the product
      does not wrap (MulFits); the term grows with x, so its value at the
      largest power bounds it, and it vanishes with x. */
  function Weigh(k: nat, x: nat, d: nat): (r: nat)
    requires k < ONE && x < ONE && d > 0
    ensures r <= k * (ONE - 1) / d
    ensures x == 0 ==> r == 0
  {
    MulMono(k, x, ONE - 1);
    DivMono(0, k * x, d);
    DivMono(k * x, k * (ONE - 1), d);
    k * x / d
  }

  /** The powers of two that the 18-bit clamp and its C int shifts use. */
  lemma Pow2Table()
    ensures Pow2(17) == 0x2_0000 && Pow2(18) == 0x4_0000 && Pow2(19) == 0x8_0000
    ensures Pow2(30) == 0x4000_0000 && Pow2(32) == 0x1_0000_0000
  {
    assert Pow2(2) == 4;
    assert Pow2(4) == 16;
    Pow2Add(4, 4);
    Pow2Add(8, 8);
    Pow2Add(16, 1);
    Pow2Add(16, 2);
    Pow2Add(16, 3);
    Pow2Add(16, 12);
    Pow2Add(28, 2);
    Pow2Add(16, 16);
  }

  lemma Pow2Add(i: nat, j: nat)
    ensures Pow2(i + j) == Pow2(i) * Pow2(j)
  {
    if i > 0 {
      Pow2Add(i - 1, j);
    }
  }

  lemma Pow2Mono(i: nat, j: nat)
    requires i <= j
    ensures Pow2(i) <= Pow2(j)
  {
    if i < j {
      Pow2Mono(i, j - 1);
    }
  }

  /** Two numbers below 2^18 multiply without leaving uint64_t, so the
      products of FixMul and Weigh are exact. */
  lemma MulFits(a: nat, b: nat)
    requires a < ONE && b < ONE
    ensures AsUint64(a * b) == a * b
  {
    MulMono(a, b, ONE);
    MulMono(ONE, a, ONE);
  }

  lemma ShrOfProductBelow(a: nat, b: nat)
    requires b < ONE
    ensures a * b / ONE <= a
  {
    MulMono(a, b, ONE);
    DivMono(a * b, a * ONE, ONE);
  }

  lemma MulMono(a: int, b: int, c: int)
    requires a >= 0 && b <= c
    ensures a * b <= a * c
  {
  }

  lemma DivMono(x: int, y: int, d: int)
    requires x <= y && d > 0
    ensures x / d <= y / d
  {
    DivModFacts(x, d);
    DivModFacts(y, d);
    if x / d > y / d {
      MulMono(d, y / d + 1, x / d);
    }
  }

  lemma DivModFacts(x: int, d: int)
    requires d > 0
    ensures x == (x / d) * d + x % d && 0 <= x % d < d
  {
  }

  /** Division is determined by any quotient and remainder that fit. */
  lemma DivUnique(x: int, d: int, q: int, m: int)
    requires d > 0 && 0 <= m < d && x == q * d + m
    ensures x / d == q && x % d == m
  {
    DivModFacts(x, d);
    if x / d < q {
      MulMono(d, x / d + 1, q);
    } else if x / d > q {
      MulMono(d, q + 1, x / d);
    }
  }
}
