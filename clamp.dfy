/** Saturation of a value computed with one guard bit (clamp_overflow). */
module Clamp {
  import opened Bits

  /** v is a `bits`-bit two's-complement value. */
  predicate Fits(v: int, bits: nat)
    requires bits >= 1
  {
    -Pow2(bits - 1) <= v < Pow2(bits - 1)
  }

  /** The sanity check of clamp_overflow: `value >> width-1` is all zeros or
      all ones, that is, v is a valid sign extension of its low `width` bits. */
  predicate SignExtended(v: int, width: nat)
    requires width >= 1
  {
    var high := v / Pow2(width - 1);
    high == 0 || high == -1
  }

  /** clamp_overflow(value, width): when bit `width` (the guard bit) and bit
      `width - 1` (the sign bit) disagree, saturate to the most negative or
      most positive `width`-bit value as the guard bit says; otherwise return
      value.  The shifts `1 << width-1` are on C int, hence width <= 31.
      For a value that fits in width + 1 bits the asserted sanity check holds. */
  function ClampOverflow(value: int64, width: nat): (r: int64)
    requires 1 <= width <= 31
    ensures r == value || r as int == -Pow2(width - 1) || r as int == Pow2(width - 1) - 1
    ensures Fits(value as int, width + 1) ==> Fits(r as int, width) && SignExtended(r as int, width)
  {
    Pow2Mono(width - 1, 30);
    Pow2Table();
    SaturationSignExtended(width);
    GuardBits(value as int, width);
    SignExtendedIffFits(value as int, width);
    var high0 := Bit(value as int, width) == 1;
    var high1 := Bit(value as int, width - 1) == 1;
    if high0 != high1 then
      if high0 then (-Pow2(width - 1)) as int64 else (Pow2(width - 1) - 1) as int64
    else value
  }

  /** A value that already fits is returned unchanged. */
  lemma ClampKeepsFitting(value: int64, width: nat)
    requires 1 <= width <= 31 && Fits(value as int, width)
    ensures ClampOverflow(value, width) == value
  {
    GuardBits(value as int, width);
  }

  /** A value that needs exactly the guard bit saturates toward its sign:
      values in [2^(width-1), 2^width) become 2^(width-1) - 1 and values in
      [-2^width, -2^(width-1)) become -2^(width-1). */
  lemma ClampSaturates(value: int64, width: nat)
    requires 1 <= width <= 31 && Fits(value as int, width + 1) && !Fits(value as int, width)
    ensures ClampOverflow(value, width) as int == if value < 0 then -Pow2(width - 1) else Pow2(width - 1) - 1
  {
    GuardBits(value as int, width);
  }

  /** Clamping commutes with negation for values strictly inside the width. */
  lemma ClampNegate(value: int64, negated: int64, width: nat)
    requires 1 <= width <= 31 && -Pow2(width - 1) < value as int < Pow2(width - 1)
    requires negated as int == -(value as int)
    ensures ClampOverflow(negated, width) as int == -(ClampOverflow(value, width) as int)
  {
    ClampKeepsFitting(value, width);
    ClampKeepsFitting(negated, width);
  }

  /** Clamping a clamped value changes nothing, whatever the first input was. */
  lemma ClampIdempotent(value: int64, width: nat)
    requires 1 <= width <= 31
    ensures ClampOverflow(ClampOverflow(value, width), width) == ClampOverflow(value, width)
  {
    var r := ClampOverflow(value, width);
    if r != value {
      SaturationSignExtended(width);
      ClampKeepsFitting(r, width);
    }
  }

  /** Without the guard-bit precondition the sanity check can fail: 2^(width+1)
      has equal bits at width and width - 1, passes through unclamped, and is
      no sign extension of its low `width` bits. */
  lemma ClampUnguarded(value: int64, width: nat)
    requires 1 <= width <= 31 && value as int == Pow2(width + 1)
    ensures ClampOverflow(value, width) == value
    ensures !SignExtended(value as int, width)
  {
    var p := Pow2(width - 1);
    assert Pow2(width + 1) == 4 * p;
    Pow2Mono(width + 1, 32);
    Pow2Table();
    DivUnique(4 * p, 2 * p, 2, 0);
    DivUnique(4 * p, p, 4, 0);
  }

  /** Both saturation values pass the sanity check. */
  lemma SaturationSignExtended(width: nat)
    requires width >= 1
    ensures SignExtended(-Pow2(width - 1), width) && SignExtended(Pow2(width - 1) - 1, width)
    ensures Fits(-Pow2(width - 1), width) && Fits(Pow2(width - 1) - 1, width)
  {
    var p := Pow2(width - 1);
    DivUnique(-p, p, -1, 0);
    DivUnique(p - 1, p, 0, p - 1);
  }

  /** For a value with one guard bit, the guard bit and the sign bit agree
      exactly when the value fits, and on overflow the guard bit is the sign. */
  lemma GuardBits(v: int, width: nat)
    requires width >= 1
    ensures Fits(v, width + 1) ==> ((Bit(v, width) == Bit(v, width - 1)) <==> Fits(v, width))
    ensures Fits(v, width + 1) && !Fits(v, width) ==> (Bit(v, width) == 1 <==> v < 0)
  {
    var p := Pow2(width - 1);
    assert Pow2(width) == 2 * p;
    if 0 <= v < p {
      DivUnique(v, 2 * p, 0, v);
      DivUnique(v, p, 0, v);
    } else if p <= v < 2 * p {
      DivUnique(v, 2 * p, 0, v);
      DivUnique(v, p, 1, v - p);
    } else if -p <= v < 0 {
      DivUnique(v, 2 * p, -1, v + 2 * p);
      DivUnique(v, p, -1, v + p);
    } else if -2 * p <= v < -p {
      DivUnique(v, 2 * p, -1, v + 2 * p);
      DivUnique(v, p, -2, v + 2 * p);
    }
  }

  /** The sanity check of clamp_overflow accepts exactly the `width`-bit values. */
  lemma SignExtendedIffFits(v: int, width: nat)
    requires width >= 1
    ensures SignExtended(v, width) <==> Fits(v, width)
  {
    var p := Pow2(width - 1);
    DivModFacts(v, p);
    if 0 <= v < p {
      DivUnique(v, p, 0, v);
    } else if -p <= v < 0 {
      DivUnique(v, p, -1, v + p);
    }
  }
}
