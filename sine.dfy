/** The fixed-point sine evaluator: an angle as a fraction of a turn, scaled
    by 2^20, to an 18-bit two's-complement result scaled by 2^17, computed as
    a truncated Taylor polynomial on the folded angle. */
module Sine {
  import opened Bits
  import opened Clamp
  import opened Quadrant

  /** Taylor constants of the odd terms, scaled up to fill 18 bits.  K5 and K7
      are hand-tuned: they deliberately differ from round((2*PI)^5/5! * 2^11)
      and round((2*PI)^7/7! * 2^11) to improve accuracy, and must be kept. */
  const K1: nat := 205887  // round((2*PI)^1/1! * 2^15)
  const K3: nat := 169336  // round((2*PI)^3/3! * 2^12)
  const K5: nat := 167014  // tuned
  const K7: nat := 150000  // tuned

  /** x1, x3, x5 and x7 of a folded magnitude, each at scale 2^18. */
  datatype OddPowers = OddPowers(x1: nat, x3: nat, x5: nat, x7: nat)

  /** The odd powers, built in series with a `>> 18` after every product
      (x2 = x1*x1, x3 = x2*x1, x5 = x2*x3, x7 = x2*x5).  Every power of a
      fraction below one is below one and no larger than the one before it,
      so no product leaves 36 bits. */
  function Powers(x1: nat): (p: OddPowers)
    requires x1 < ONE
    ensures p.x1 == x1
    ensures p.x7 <= p.x5 <= p.x3 <= p.x1
  {
    var x2 := FixMul(x1, x1);
    var x3 := FixMul(x2, x1);
    var x5 := FixMul(x2, x3);
    var x7 := FixMul(x2, x5);
    OddPowers(x1, x3, x5, x7)
  }

  /** `kx1 - kx3 + kx5 - kx7` at scale 2^18, computed in uint64_t and read
      back as int64_t.  Each weighted term is at most its value at x = 2^18 - 1
      (kx1 <= 411772, kx3 <= 169335, kx5 <= 20876, kx7 <= 1171), so the
      wrap-around cancels and the sum lies in [-170506, 432648], inside the
      19-bit range that `>> 1` brings into the clamp's guard-bit range.  All
      powers zero give zero. */
  function Polynomial(p: OddPowers): (s: int)
    requires p.x1 < ONE && p.x3 < ONE && p.x5 < ONE && p.x7 < ONE
    ensures -170506 <= s <= 432648
    ensures p == OddPowers(0, 0, 0, 0) ==> s == 0
  {
    var kx1 := Weigh(K1, p.x1, 0x2_0000);    // >> 17
    var kx3 := Weigh(K3, p.x3, 0x4_0000);    // >> 18
    var kx5 := Weigh(K5, p.x5, 0x20_0000);   // >> 21
    var kx7 := Weigh(K7, p.x7, 0x200_0000);  // >> 25
    AsInt64(AsUint64(kx1 - kx3 + kx5 - kx7))
  }

  /** What `sine` does after the fold: the polynomial of the magnitude
      halved by an arithmetic `>> 1`, forced to 2^17 (one) on the quarter-turn
      points, negated (`~sum + 1`) in the second half-turn.  The result always
      fits in 19 bits, the range clamp_overflow is built for. */
  function SineFolded(f: Folded): (s: int)
    requires f.x1 < QUARTER_TURN
    ensures -0x4_0000 <= s < 0x4_0000
  {
    var negative := f.high0;
    var one := f.x1 == 0 && f.high1;
    var sum := Polynomial(Powers(f.x1)) / 2;  // >> 1
    var sum := if one then 0x2_0000 else sum;  // 1 << 17
    if negative then -sum else sum
  }

  /** The value `sine` passes to clamp_overflow. */
  function Unclamped(value: int64): int
  {
    SineFolded(Fold(value))
  }

  /** sine(value): the 18-bit clamp of Unclamped.  Every result is an 18-bit
      two's-complement value, so the sanity check in clamp_overflow holds. */
  function Sine(value: int64): (r: int64)
    ensures -0x2_0000 <= r as int < 0x2_0000
    ensures SignExtended(r as int, 18)
  {
    Pow2Table();
    ClampOverflow(Unclamped(value) as int64, 18)
  }

  /** Two folds with the same magnitude whose signs differ, except where the
      magnitude is 0 off the quarter-turn points and the value is 0 anyway,
      give opposite values. */
  lemma SineFoldedOpposite(f: Folded, g: Folded)
    requires f.x1 < QUARTER_TURN && g.x1 == f.x1
    requires f.x1 == 0 ==> g.high1 == f.high1
    requires f.x1 != 0 || f.high1 ==> g.high0 != f.high0
    ensures SineFolded(g) == -SineFolded(f)
  {
  }

  /** Inputs whose unclamped values are opposite give the clamp of the
      negation, which is the exact negation unless one side is the saturated
      2^17. */
  lemma SineOpposite(v: int64, w: int64)
    requires Unclamped(w) == -Unclamped(v)
    ensures Sine(w) == ClampOverflow((-Unclamped(v)) as int64, 18)
    ensures -0x2_0000 < Unclamped(v) < 0x2_0000 ==> Sine(w) == -Sine(v)
  {
    if -0x2_0000 < Unclamped(v) < 0x2_0000 {
      Pow2Table();
      ClampNegate(Unclamped(v) as int64, Unclamped(w) as int64, 18);
    }
  }

  /** Only the low 20 bits of the input matter, for negative inputs too. */
  lemma SineLowBits(value: int64)
    ensures Sine(value) == Sine(Angle(value as int) as int64)
  {
    FoldLowBits(value);
  }

  /** Zero and the half turn give 0; the quarter turn gives one, 2^17, which
      the 18-bit clamp lowers to 131071; three quarters give -131072. */
  lemma SineExactPoints()
    ensures Sine(0) == 0 && Sine(HALF_TURN as int64) == 0
    ensures Sine(QUARTER_TURN as int64) == 131071
    ensures Sine((3 * QUARTER_TURN) as int64) == -131072
  {
    FoldBoundaries();
    assert Powers(0) == OddPowers(0, 0, 0, 0);
    assert Unclamped(0) == 0;
    assert Unclamped(HALF_TURN as int64) == 0;
    assert Unclamped(QUARTER_TURN as int64) == 0x2_0000;
    assert Unclamped((3 * QUARTER_TURN) as int64) == -0x2_0000;
    Pow2Table();
    ClampKeepsFitting(0, 18);
    ClampSaturates(0x2_0000, 18);
    ClampKeepsFitting(-0x2_0000, 18);
  }

  /** Sine is symmetric about the quarter turn. */
  lemma SineQuarterSymmetry(t: int)
    requires 0 < t < QUARTER_TURN
    ensures Sine((QUARTER_TURN + t) as int64) == Sine((QUARTER_TURN - t) as int64)
  {
    FoldQuarterMirror(t);
  }

  /** Half a turn later only the sign flag changes, so the unclamped value is
      negated; the results are exact negations of each other unless one side
      is the saturated 2^17. */
  lemma SineHalfTurn(value: int64)
    requires value as int + HALF_TURN < 0x8000_0000_0000_0000
    ensures Unclamped((value as int + HALF_TURN) as int64) == -Unclamped(value)
    ensures -0x2_0000 < Unclamped(value) < 0x2_0000 ==> Sine((value as int + HALF_TURN) as int64) == -Sine(value)
  {
    var w, u := (value as int + HALF_TURN) as int64, Unclamped(value);
    assert Unclamped(w) == -u by {
      FoldHalfTurn(value);
      SineFoldedOpposite(Fold(value), Fold(w));
    }
    SineOpposite(value, w);
  }

  /** Sine is odd: the reflected angle has the same magnitude and the other
      sign, so the unclamped values are negations of each other. */
  lemma SineOdd(value: int64)
    requires value as int > -0x8000_0000_0000_0000
    ensures Unclamped(-value) == -Unclamped(value)
    ensures -0x2_0000 < Unclamped(value) < 0x2_0000 ==> Sine(-value) == -Sine(value)
  {
    var u := Unclamped(value);
    assert Unclamped(-value) == -u by {
      FoldNegate(value);
      ReduceReflect(Angle(value as int));
      SineFoldedOpposite(Fold(value), Fold(-value));
    }
    SineOpposite(value, -value);
  }
}
