# Fixed-point sine and cosine

A Dafny model of the fixed-point sine/cosine evaluator in
`fixed_sincos/fixed_sincos.c`. The evaluator is written for hardware with
18-bit multipliers. An input angle is a fraction of one turn, scaled by 2^20;
only its low 20 bits are read. Both `sine` and `cosine` work in four steps:

1. Fold the angle into one quadrant. Bit 19 and bit 18 of `(uint64_t)value`
   name the quadrant. The low 18 bits give the magnitude, which is reflected
   in the second quarter of each half-turn.
2. Build the odd powers (sine) or even powers (cosine) of the magnitude in
   series. Each product is rescaled with `>> 18`.
3. Weigh the powers by fixed Taylor constants and add them with alternating
   signs in `uint64_t`. Halve the sum with an arithmetic `>> 1`, force the
   exact value on the quarter-turn points, and negate as the quadrant demands.
4. Saturate the result to an 18-bit two's-complement value at scale 2^17 with
   `clamp_overflow`, which asserts that its result is a valid sign extension.

Modules:

- `Bits`: the `int64` type, the `uint64_t` cast and its two's-complement
  reading, bit extraction, and the fixed-point product and weighting.
- `Clamp`: `clamp_overflow` and its sanity check.
- `Quadrant`: the fold that both evaluators share. The bit-level `Fold` is
  proved equal to `Reduce`, an arithmetic quadrant reduction of the angle.
- `Sine` and `Cosine`: the two evaluators. Each is split into its powers, its
  polynomial, the post-fold step, and the final clamp.

A right shift `x >> k` is `x / 2^k`. Dafny's division by a positive number
rounds toward minus infinity, so this is also the arithmetic shift of a
negative `sum`. A mask `& (2^k - 1)` of a non-negative value is `% 2^k`.

On the boundary points the model follows the code. The forced value one
(2^17) does not fit in 18 signed bits, so `clamp_overflow` lowers it to
131071. `sine(2^18)` and `cosine(0)` are therefore 131071, not 131072. The
range of every result is [-131072, 131071].

## Model

| member | source | states |
|---|---|---|
| Clamp.ClampOverflow | fixed_sincos/fixed_sincos.c:29-44 | The result is the input or one of the two saturation values. For any input that fits in width + 1 bits, the result fits in width bits and passes the sign-extension check, so the assertion cannot fire. |
| Clamp.ClampKeepsFitting | fixed_sincos/fixed_sincos.c:30-38 | A value already in [-2^(w-1), 2^(w-1)) is returned unchanged. |
| Clamp.ClampSaturates | fixed_sincos/fixed_sincos.c:30-37 | A value that needs exactly the guard bit saturates toward its sign: [2^(w-1), 2^w) becomes 2^(w-1) - 1, and [-2^w, -2^(w-1)) becomes -2^(w-1). |
| Clamp.ClampIdempotent | fixed_sincos/fixed_sincos.c:29-44 | Clamping a clamped value changes nothing, for every int64 input. |
| Clamp.ClampNegate | fixed_sincos/fixed_sincos.c:29-44 | Inside the open range (-2^(w-1), 2^(w-1)), clamping commutes with negation. |
| Clamp.ClampUnguarded | fixed_sincos/fixed_sincos.c:40-43 | Without the guard-bit precondition the check fails: 2^(w+1) passes through unclamped and is not a sign extension of its low w bits. |
| Clamp.SaturationSignExtended | fixed_sincos/fixed_sincos.c:33-37 | Both saturation values fit in w bits and pass the check. |
| Clamp.GuardBits | fixed_sincos/fixed_sincos.c:30-32 | For a value with one guard bit, bits w and w-1 agree exactly when the value fits in w bits. On overflow, bit w is set exactly when the value is negative. |
| Clamp.SignExtendedIffFits | fixed_sincos/fixed_sincos.c:41-42 | `value >> w-1` is all zeros or all ones exactly when the value fits in w bits. |
| Bits.FixMul | fixed_sincos/fixed_sincos.c:91-94 | A rescaled product of two fractions below one is no larger than either factor. |
| Bits.FixMulMono | fixed_sincos/fixed_sincos.c:153-155 | A rescaled product grows with each factor, so x8 <= x6. |
| Bits.Weigh | fixed_sincos/fixed_sincos.c:97-100 | A weighted term is at most its value at the largest power, and it is 0 when the power is 0. |
| Bits.MulFits | fixed_sincos/fixed_sincos.c:91-100 | A product of two numbers below 2^18 does not wrap in uint64_t. |
| Quadrant.Reduce | fixed_sincos/fixed_sincos.c:81-88 | The arithmetic quadrant reduction. The magnitude is below a quarter turn and is 0 exactly on the quadrant boundaries. |
| Quadrant.Fold | fixed_sincos/fixed_sincos.c:81-86 | The bit-level fold (bits 19 and 18, the low 18 bits, the reflection) equals the arithmetic reduction of the input's angle, for every int64 input including negative ones. |
| Quadrant.CastKeepsAngle | fixed_sincos/fixed_sincos.c:81-83 | Bits 19 and 18 and the low 18 bits of `(uint64_t)value` depend only on the input modulo 2^20. |
| Quadrant.FoldMagnitude | fixed_sincos/fixed_sincos.c:83-86 | The folded x1 is below 2^18, and it is 0 exactly when the low 18 input bits are 0. |
| Quadrant.FoldLowBits | fixed_sincos/fixed_sincos.c:81-83 | The fold of an input equals the fold of that input modulo 2^20. |
| Quadrant.FoldBoundaries | fixed_sincos/fixed_sincos.c:81-88 | The four quadrant boundaries fold to magnitude 0, with the flags of the quadrant that starts there. |
| Quadrant.FoldQuarterMirror | fixed_sincos/fixed_sincos.c:82-86 | 2^18 + t and 2^18 - t fold to the same magnitude and differ only in the quarter flag. |
| Quadrant.FoldHalfTurn | fixed_sincos/fixed_sincos.c:81-86 | Adding half a turn flips the half-turn flag and nothing else. |
| Quadrant.ReduceReflect | fixed_sincos/fixed_sincos.c:81-86 | A reflected angle keeps its magnitude. Off the boundaries both flags flip. On them the quarter flag stays, and the half-turn flag flips only on the quarter-turn points. |
| Quadrant.FoldNegate | fixed_sincos/fixed_sincos.c:81-83 | Negating the input reflects its angle. |
| Sine.Powers | fixed_sincos/fixed_sincos.c:91-94 | x1 is kept, and x7 <= x5 <= x3 <= x1 < 2^18. |
| Sine.Polynomial | fixed_sincos/fixed_sincos.c:97-103 | For every power vector below 2^18, the sum read back as int64 lies in [-170506, 432648]. All powers zero give 0. |
| Sine.SineFolded | fixed_sincos/fixed_sincos.c:87-112 | The value handed to the clamp lies in [-2^18, 2^18), the guard-bit range of an 18-bit clamp. |
| Sine.Sine | fixed_sincos/fixed_sincos.c:69-114 | Every result lies in [-131072, 131071] and passes the sanity check of clamp_overflow. |
| Sine.SineFoldedOpposite | fixed_sincos/fixed_sincos.c:87-88 | Two folds with the same magnitude and opposite sign flags give opposite pre-clamp values, apart from the boundary cases where the value is 0. |
| Sine.SineOpposite | fixed_sincos/fixed_sincos.c:110-113 | Inputs with opposite pre-clamp values give the clamp of the negation. That result is the exact negation unless one side is the saturated 2^17. |
| Sine.SineLowBits | fixed_sincos/fixed_sincos.c:81-83 | sine(v) == sine(v mod 2^20), negative v included. |
| Sine.SineExactPoints | fixed_sincos/fixed_sincos.c:107-113 | sine(0) = sine(2^19) = 0, sine(2^18) = 131071 and sine(3*2^18) = -131072. |
| Sine.SineQuarterSymmetry | fixed_sincos/fixed_sincos.c:84-88 | sine(2^18 + t) == sine(2^18 - t) for 0 < t < 2^18. |
| Sine.SineHalfTurn | fixed_sincos/fixed_sincos.c:110-112 | Adding 2^19 negates the pre-clamp value. The result is the exact negation when that value lies strictly between -2^17 and 2^17. |
| Sine.SineOdd | fixed_sincos/fixed_sincos.c:81-112 | Negating the input negates the pre-clamp value. The result is the exact negation when that value lies strictly between -2^17 and 2^17. |
| Cosine.Powers | fixed_sincos/fixed_sincos.c:152-155 | x8 <= x6 <= x4 <= x2 <= x1 < 2^18. |
| Cosine.Polynomial | fixed_sincos/fixed_sincos.c:158-164 | For every power vector below 2^18, the sum read back as int64 lies in [-66731, 328877]. All powers zero give the constant term 2^18. |
| Cosine.CosineFolded | fixed_sincos/fixed_sincos.c:148-173 | The value handed to the clamp lies in [-2^18, 2^18). |
| Cosine.Cosine | fixed_sincos/fixed_sincos.c:130-175 | Every result lies in [-131072, 131071] and passes the sanity check of clamp_overflow. |
| Cosine.CosineFoldedOpposite | fixed_sincos/fixed_sincos.c:148-149 | Two folds with the same magnitude and the same zero correction, but opposite sign rules `high0 ^ high1`, give opposite pre-clamp values. |
| Cosine.CosineFoldedSame | fixed_sincos/fixed_sincos.c:148-149 | Two folds with the same magnitude and zero correction give the same value when their sign rules agree, or when both are forced to 0. |
| Cosine.CosineOpposite | fixed_sincos/fixed_sincos.c:171-174 | Inputs with opposite pre-clamp values give the clamp of the negation. That result is the exact negation unless one side is the saturated 2^17. |
| Cosine.CosineLowBits | fixed_sincos/fixed_sincos.c:142-144 | cosine(v) == cosine(v mod 2^20), negative v included. |
| Cosine.CosineExactPoints | fixed_sincos/fixed_sincos.c:164-174 | cosine(0) = 131071, cosine(2^18) = cosine(3*2^18) = 0 and cosine(2^19) = -131072. |
| Cosine.CosineQuarterAntisymmetry | fixed_sincos/fixed_sincos.c:145-148 | cosine(2^18 + t) and cosine(2^18 - t) have opposite pre-clamp values. The results are exact negations when those values lie strictly between -2^17 and 2^17. |
| Cosine.CosineHalfTurn | fixed_sincos/fixed_sincos.c:171-173 | Adding 2^19 negates the pre-clamp value. The result is the exact negation under the same bound. |
| Cosine.CosineEven | fixed_sincos/fixed_sincos.c:142-173 | cosine(-v) == cosine(v) for every int64 v except the most negative. |

## Left out

- `fixed_to_float` and `float_to_fixed` (fixed_sincos/fixed_sincos.c:47-54): these are double-precision floating-point conversions.
- Accuracy against the true sin(2*PI*x) and cos(2*PI*x): this needs real transcendental functions. The tuned constants K5, K7 and K8 are kept as literals.
- The `assert` abort itself: the model proves that the asserted condition holds for every input of `sine` and `cosine`, and states it for clamp_overflow under its guard-bit precondition.
- Clamp.ClampOverflow: `-1 << width-1` and `1 << width-1` are taken as -2^(width-1) and 2^(width-1) - 1. These shifts are on C `int`, so the model requires 1 <= width <= 31; both evaluators use width 18.
- Sine.SineFolded, Cosine.CosineFolded: `~sum + 1` is taken as -sum, which is what it computes on every int64 except the most negative, and the sum never reaches it.
- Bits.FixMul, Bits.Weigh: the products are written without the uint64_t modulus. Bits.MulFits proves that factors below 2^18 never make it wrap.
- Sine.Polynomial, Cosine.Polynomial: the `uint64_t` subtraction and its reading back as `int64_t` are modelled explicitly, as the value modulo 2^64 and its two's-complement reading.
- Sine.SineHalfTurn, Sine.SineOdd, Cosine.CosineQuarterAntisymmetry, Cosine.CosineHalfTurn: exact negation of the results is stated only where the pre-clamp value is not the saturated 2^17 or -2^17. In the saturated cases the 18-bit clamp is asymmetric (131071 against -131072).
- The header `fixed_sincos.h` and the standard headers are not part of this model.
