/** The quadrant fold that sine and cosine share: an angle, as a fraction of
    a turn scaled by 2^20, is reduced to a magnitude within one quadrant and
    two flags naming the quadrant. */
module Quadrant {
  import opened Bits

  /** One turn, half a turn and a quarter turn at the input scale 2^20. */
  const TURN: nat := 0x10_0000
  const HALF_TURN: nat := 0x8_0000
  const QUARTER_TURN: nat := 0x4_0000

  /** A folded angle: x1 is the magnitude within the quadrant (scale 2^18),
      high0 says the angle lies in the second half-turn and high1 that it lies
      in the second quarter of its half-turn. */
  datatype Folded = Folded(x1: nat, high0: bool, high1: bool)

  /** The low 20 bits of an input, the only ones the evaluators read. */
  function Angle(value: int): nat
  {
    value % TURN
  }

  /** Distance from an angle to the nearest multiple of half a turn. */
  function HalfTurnDistance(a: nat): nat
  {
    var h := a % HALF_TURN;
    if h <= QUARTER_TURN then h else HALF_TURN - h
  }

  /** The quadrant reduction of an angle in [0, 2^20), stated arithmetically:
      the half-turn flag, the quarter flag within the half-turn, and the
      distance to the nearest multiple of half a turn, which is taken as 0 on
      the quarter-turn points.  The magnitude is below a quarter turn and is
      0 exactly on the quadrant boundaries. */
  function Reduce(a: nat): (f: Folded)
    requires a < TURN
    ensures f.x1 < QUARTER_TURN
    ensures f.x1 == 0 <==> a % QUARTER_TURN == 0
  {
    var x1 := if a % QUARTER_TURN == 0 then 0 else HalfTurnDistance(a);
    Folded(x1, a >= HALF_TURN, a % HALF_TURN >= QUARTER_TURN)
  }

  /** The fold as written: high0 is bit 19 and high1 bit 18 of
      `(uint64_t)value`; x1 is its low 18 bits, reflected as
      `((1 << 18) - x1) & 0x3ffff` when high1 is set.  It computes the
      arithmetic reduction of the input's angle, for every int64 input. */
  function Fold(value: int64): (f: Folded)
    ensures f == Reduce(Angle(value as int))
  {
    CastKeepsAngle(value as int);
    var u := AsUint64(value as int);
    var high0 := (u / HALF_TURN) % 2 == 1;        // bit 19
    var high1 := (u / QUARTER_TURN) % 2 == 1;     // bit 18
    var x1 := u % QUARTER_TURN;                   // & 0x3ffff
    Folded(if high1 then (QUARTER_TURN - x1) % QUARTER_TURN else x1, high0, high1)
  }

  /** Bits 19 and 18 and the low 18 bits of `(uint64_t)value` depend on the
      angle alone: bit 19 is its half-turn, bit 18 its quarter within that. */
  lemma CastKeepsAngle(v: int)
    ensures AsUint64(v) % QUARTER_TURN == Angle(v) % QUARTER_TURN
    ensures (AsUint64(v) / HALF_TURN) % 2 == Angle(v) / HALF_TURN
    ensures (AsUint64(v) / QUARTER_TURN) % 2 == (Angle(v) % HALF_TURN) / QUARTER_TURN
  {
    var u, a := AsUint64(v), Angle(v);
    var q := u / TURN;
    DivUnique(u, TURN, v / TURN - (v / UINT64_MODULUS) * 0x1000_0000_0000, a);
    DivUnique(u, HALF_TURN, 2 * q + a / HALF_TURN, a % HALF_TURN);
    DivUnique(2 * q + a / HALF_TURN, 2, q, a / HALF_TURN);
    var b := a % HALF_TURN;
    DivUnique(u, QUARTER_TURN, 4 * q + 2 * (a / HALF_TURN) + b / QUARTER_TURN, b % QUARTER_TURN);
    DivUnique(4 * q + 2 * (a / HALF_TURN) + b / QUARTER_TURN, 2, 2 * q + a / HALF_TURN, b / QUARTER_TURN);
    DivUnique(a, QUARTER_TURN, 2 * (a / HALF_TURN) + b / QUARTER_TURN, b % QUARTER_TURN);
  }

  /** The folded magnitude is below a quarter turn and is 0 exactly when the
      low 18 bits of `(uint64_t)value` are 0. */
  lemma FoldMagnitude(value: int64)
    ensures Fold(value).x1 < QUARTER_TURN
    ensures Fold(value).x1 == 0 <==> AsUint64(value as int) % QUARTER_TURN == 0
  {
    CastKeepsAngle(value as int);
  }

  /** Only the low 20 bits of the input reach the fold. */
  lemma FoldLowBits(value: int64)
    ensures Fold(value) == Fold(Angle(value as int) as int64)
  {
    var a := Angle(value as int);
    DivUnique(a, TURN, 0, a);
    assert Angle(a) == a;
  }

  /** The quadrant boundaries fold to magnitude 0; their flags name the
      quadrant that starts there. */
  lemma FoldBoundaries()
    ensures Fold(0) == Folded(0, false, false)
    ensures Fold(QUARTER_TURN as int64) == Folded(0, false, true)
    ensures Fold(HALF_TURN as int64) == Folded(0, true, false)
    ensures Fold((3 * QUARTER_TURN) as int64) == Folded(0, true, true)
  {
    assert Angle(HALF_TURN) == HALF_TURN;
    assert Angle(3 * QUARTER_TURN) == 3 * QUARTER_TURN;
  }

  /** Angles a quarter turn apart about the quarter-turn point fold to the
      same magnitude and differ only in the quarter flag. */
  lemma FoldQuarterMirror(t: int)
    requires 0 < t < QUARTER_TURN
    ensures Fold((QUARTER_TURN + t) as int64) == Folded(QUARTER_TURN - t, false, true)
    ensures Fold((QUARTER_TURN - t) as int64) == Folded(QUARTER_TURN - t, false, false)
  {
    DivUnique(QUARTER_TURN + t, TURN, 0, QUARTER_TURN + t);
    DivUnique(QUARTER_TURN - t, TURN, 0, QUARTER_TURN - t);
    assert Angle(QUARTER_TURN + t) == QUARTER_TURN + t;
    assert Angle(QUARTER_TURN - t) == QUARTER_TURN - t;
  }

  /** Adding half a turn flips the half-turn flag and nothing else. */
  lemma FoldHalfTurn(value: int64)
    requires value as int + HALF_TURN < 0x8000_0000_0000_0000
    ensures Fold((value as int + HALF_TURN) as int64) == Fold(value).(high0 := !Fold(value).high0)
  {
    var a, b := Angle(value as int), Angle(value as int + HALF_TURN);
    assert b == if a < HALF_TURN then a + HALF_TURN else a - HALF_TURN;
    assert b % HALF_TURN == a % HALF_TURN;
    assert b % QUARTER_TURN == a % QUARTER_TURN;
  }

  /** The reflected angle has the same magnitude.  Off the quadrant
      boundaries both flags flip; on them (x1 = 0) the quarter flag stays,
      and the half-turn flag flips exactly at the quarter-turn points. */
  lemma ReduceReflect(a: nat)
    requires a < TURN
    ensures Reduce((TURN - a) % TURN).x1 == Reduce(a).x1
    ensures Reduce(a).x1 != 0 ==> Reduce((TURN - a) % TURN).high1 != Reduce(a).high1
    ensures Reduce(a).x1 == 0 ==> Reduce((TURN - a) % TURN).high1 == Reduce(a).high1
    ensures Reduce((TURN - a) % TURN).high0 != Reduce(a).high0 <==> Reduce(a).x1 != 0 || Reduce(a).high1
  {
    var b := (TURN - a) % TURN;
    if a == 0 {
      assert b == 0;
    } else {
      assert b == TURN - a;
      if a % HALF_TURN == 0 {
        assert b % HALF_TURN == 0;
      } else {
        assert b % HALF_TURN == HALF_TURN - a % HALF_TURN;
      }
      if a % QUARTER_TURN == 0 {
        assert b % QUARTER_TURN == 0;
      } else {
        assert b % QUARTER_TURN == QUARTER_TURN - a % QUARTER_TURN;
      }
    }
  }

  /** Negating the input reflects its angle. */
  lemma FoldNegate(value: int64)
    requires value as int > -0x8000_0000_0000_0000
    ensures Fold(-value) == Reduce((TURN - Angle(value as int)) % TURN)
  {
    AngleNegate(value as int);
  }

  lemma AngleNegate(v: int)
    ensures Angle(-v) == (TURN - Angle(v)) % TURN
  {
  }
}
