/** The fixed-point cosine evaluator: an angle as a fraction of a turn,
    scaled by 2^20, to an 18-bit two's-complement result scaled by 2^17,
    computed as a truncated Taylor polynomial on the folded angle. */
module Cosine {
  import opened Bits
  import opened Clamp
  import opened Quadrant

  /** Taylor constants of the even terms, scaled up to fill 18 bits.  K8 is
      hand-tuned: it deliberately differs from round((2*PI)^8/8! * 2^12) to
      improve accuracy, and must be kept. */
  const K2: nat := 161704  // round((2*PI)^2/2! * 2^13)
  const K4: nat := 132996  // round((2*PI)^4/4! * 2^11)
  const K6: nat := 175016  // round((2*PI)^6/6! * 2^11)
  const K8: nat := 241700  // tuned

  /** x2, x4, x6 and x8 of a folded magnitude, each at scale 2^18. */
  datatype EvenPowers = EvenPowers(x2: nat, x4: nat, x6: nat, x8: nat)

  /** The even powers, built in series with a `>> 18` after every product
      (x2 = x1*x1, x4 = x2*x2, x6 = x4*x2, x8 = x4*x4).  Every power of a
      fraction below one is below one and no larger than the one before it,
      so no product leaves 36 bits. */
  function Powers(x1: nat): (p: EvenPowers)
    requires x1 < ONE
    ensures p.x8 <= p.x6 <= p.x4 <= p.x2 <= x1
  {
    var x2 := FixMul(x1, x1);
    var x4 := FixMul(x2, x2);
    var x6 := FixMul(x4, x2);
    var x8 := FixMul(x4, x4);
    FixMulMono(x4, x4, x2);
    EvenPowers(x2, x4, x6, x8)
  }

  /** `(1 << 18) - kx2 + kx4 - kx6 + kx8` at scale 2^18, computed in uint64_t
      and read back as int64_t.  Each weighted term is at most its value at
      x = 2^18 - 1 (kx2 <= 323406, kx4 <= 66497, kx6 <= 5469, kx8 <= 236), so
      the wrap-around cancels and the sum lies in [-66731, 328877], inside the
      19-bit range that `>> 1` brings into the clamp's guard-bit range.  All
      powers zero give the constant term, one. */
  function Polynomial(p: EvenPowers): (s: int)
    requires p.x2 < ONE && p.x4 < ONE && p.x6 < ONE && p.x8 < ONE
    ensures -66731 <= s <= 328877
    ensures p == EvenPowers(0, 0, 0, 0) ==> s == ONE
  {
    var kx2 := Weigh(K2, p.x2, 0x2_0000);     // >> 17
    var kx4 := Weigh(K4, p.x4, 0x8_0000);     // >> 19
    var kx6 := Weigh(K6, p.x6, 0x80_0000);    // >> 23
    var kx8 := Weigh(K8, p.x8, 0x1000_0000);  // >> 28
    AsInt64(AsUint64(ONE - kx2 + kx4 - kx6 + kx8))
  }

  /** What `cosine` does after the fold: the polynomial of the magnitude
      halved by an arithmetic `>> 1`, forced to 0 on the quarter-turn points,
      negated (`~sum + 1`) when exactly one of the two flags is set.  The
      result always fits in 19 bits, the range clamp_overflow is built for. */
  function CosineFolded(f: Folded): (s: int)
    requires f.x1 < QUARTER_TURN
    ensures -0x4_0000 <= s < 0x4_0000
  {
    var negative := f.high0 != f.high1;
    var zero := f.x1 == 0 && f.high1;
    var sum := Polynomial(Powers(f.x1)) / 2;  // >> 1
    var sum := if zero then 0 else sum;
    if negative then -sum else sum
  }

  /** The value `cosine` passes to clamp_overflow. */
  function Unclamped(value: int64): int
  {
    CosineFolded(Fold(value))
  }

  /** cosine(value): the 18-bit clamp of Unclamped.  Every result is an
      18-bit two's-complement value, so the sanity check in clamp_overflow
      holds. */
  function Cosine(value: int64): (r: int64)
    ensures -0x2_0000 <= r as int < 0x2_0000
    ensures SignExtended(r as int, 18)
  {
    Pow2Table();
    ClampOverflow(Unclamped(value) as int64, 18)
  }

  /** Two folds with the same magnitude and the same zero correction whose
      sign rules disagree give opposite values. */
  lemma CosineFoldedOpposite(f: Folded, g: Folded)
    requires f.x1 < QUARTER_TURN && g.x1 == f.x1
    requires f.x1 == 0 ==> g.high1 == f.high1
    requires (g.high0 != g.high1) != (f.high0 != f.high1)
    ensures CosineFolded(g) == -CosineFolded(f)
  {
  }

  /** Two folds with the same magnitude and the same zero correction whose
      sign rules agree, or that are both forced to 0, give the same value. */
  lemma CosineFoldedSame(f: Folded, g: Folded)
    requires f.x1 < QUARTER_TURN && g.x1 == f.x1
    requires f.x1 == 0 ==> g.high1 == f.high1
    requires (g.high0 != g.high1) == (f.high0 != f.high1) || (f.x1 == 0 && f.high1)
    ensures CosineFolded(g) == CosineFolded(f)
  {
  }

  /** Inputs whose unclamped values are opposite give the clamp of the
      negation, which is the exact negation unless one side is the saturated
      2^17. */
  lemma CosineOpposite(v: int64, w: int64)
    requires Unclamped(w) == -Unclamped(v)
    ensures Cosine(w) == ClampOverflow((-Unclamped(v)) as int64, 18)
    ensures -0x2_0000 < Unclamped(v) < 0x2_0000 ==> Cosine(w) == -Cosine(v)
  {
    if -0x2_0000 < Unclamped(v) < 0x2_0000 {
      Pow2Table();
      ClampNegate(Unclamped(v) as int64, Unclamped(w) as int64, 18);
    }
  }

  /** Only the low 20 bits of the input matter, for negative inputs too. */
  lemma CosineLowBits(value: int64)
    ensures Cosine(value) == Cosine(Angle(value as int) as int64)
  {
    FoldLowBits(value);
  }

  /** Zero gives one, 2^17, which the 18-bit clamp lowers to 131071; the
      quarter turns give 0; the half turn gives -131072. */
  lemma CosineExactPoints()
    ensures Cosine(0) == 131071
    ensures Cosine(QUARTER_TURN as int64) == 0 && Cosine((3 * QUARTER_TURN) as int64) == 0
    ensures Cosine(HALF_TURN as int64) == -131072
  {
    FoldBoundaries();
    assert Powers(0) == EvenPowers(0, 0, 0, 0);
    assert Unclamped(0) == 0x2_0000;
    assert Unclamped(QUARTER_TURN as int64) == 0;
    assert Unclamped((3 * QUARTER_TURN) as int64) == 0;
    assert Unclamped(HALF_TURN as int64) == -0x2_0000;
    Pow2Table();
    ClampSaturates(0x2_0000, 18);
    ClampKeepsFitting(0, 18);
    ClampKeepsFitting(-0x2_0000, 18);
  }

  /** Cosine is antisymmetric about the quarter turn: the unclamped values
      are negations of each other, and so are the results unless one side is
      the saturated 2^17. */
  lemma CosineQuarterAntisymmetry(t: int)
    requires 0 < t < QUARTER_TURN
    ensures Unclamped((QUARTER_TURN + t) as int64) == -Unclamped((QUARTER_TURN - t) as int64)
    ensures -0x2_0000 < Unclamped((QUARTER_TURN - t) as int64) < 0x2_0000 ==>
              Cosine((QUARTER_TURN + t) as int64) == -Cosine((QUARTER_TURN - t) as int64)
  {
    var before, after := (QUARTER_TURN - t) as int64, (QUARTER_TURN + t) as int64;
    var u := Unclamped(before);
    assert Unclamped(after) == -u by {
      FoldQuarterMirror(t);
      CosineFoldedOpposite(Fold(before), Fold(after));
    }
    CosineOpposite(before, after);
  }

  /** Half a turn later the sign rule flips, so the unclamped value is
      negated; the results are exact negations of each other unless one side
      is the saturated 2^17. */
  lemma CosineHalfTurn(value: int64)
    requires value as int + HALF_TURN < 0x8000_0000_0000_0000
    ensures Unclamped((value as int + HALF_TURN) as int64) == -Unclamped(value)
    ensures -0x2_0000 < Unclamped(value) < 0x2_0000 ==> Cosine((value as int + HALF_TURN) as int64) == -Cosine(value)
  {
    var w, u := (value as int + HALF_TURN) as int64, Unclamped(value);
    assert Unclamped(w) == -u by {
      FoldHalfTurn(value);
      CosineFoldedOpposite(Fold(value), Fold(w));
    }
    CosineOpposite(value, w);
  }

  /** Cosine is even: the reflected angle has the same magnitude and the
      same sign rule, so negating the input changes nothing. */
  lemma CosineEven(value: int64)
    requires value as int > -0x8000_0000_0000_0000
    ensures Cosine(-value) == Cosine(value)
  {
    assert Unclamped(-value) == Unclamped(value) by {
      FoldNegate(value);
      ReduceReflect(Angle(value as int));
      CosineFoldedSame(Fold(value), Fold(-value));
    }
  }
}
