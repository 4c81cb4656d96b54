# fas::Float — a verified model of normalization and the sentinel encodings

`fas::Float` (fas/float.hpp) is a software floating-point value that uses
integer arithmetic only. A value is a pair (mantissa, exponent) read as
`mantissa × BASE^exponent`. Five compile-time constants shape it: `BASE`,
`MANTISSA_LOWEST`/`MANTISSA_MAX` and `EXPONENT_LOWEST`/`EXPONENT_MAX`. A zero
mantissa is reserved for four sentinels, keyed by the exponent: 0 is ZERO,
1 is INF, 2 is NEGATIVE_INF and 3 is NOT_A_NUMBER.

This project models:

- the instantiation parameters, as `Fas.Config` with a validity predicate:
  `BASE ≥ 2`, `MANTISSA_LOWEST ≤ −BASE`, `MANTISSA_MAX ≥ BASE` and
  `EXPONENT_LOWEST ≤ 0 ≤ 3 ≤ EXPONENT_MAX`. These are assumptions of the
  model, not requirements the source states. The only constraints the source
  writes down (fas/float.hpp:14-17) are that `Texponent` be signed and that
  its lowest and greatest values be bounded by logarithms to base `BASE` of
  the extreme `Tmantissa` values, a bound that is garbled as written; the
  model adopts neither, since its integers are unbounded. The instantiations
  `Valid` excludes are listed under "Left out";
- the value, as the datatype `Fas.Float`. Its constructor `Of` is the raw,
  non-normalizing `of`, and its fields are the accessors `mantissa()` and
  `exponent()`;
- the factories `ZERO`, `INF`, `NEGATIVE_INF`, `NOT_A_NUMBER`, `MIN`, `LOWEST`,
  `MAX` and `EXPONENT_BASE`, as functions;
- `normalize`, as the method `Fas.Normalize`. It has the four loops of the
  source and the same early returns. It is verified against `Fas.Normalized`,
  a closed-form reference definition. That definition counts the
  multiplications (`GrowSteps`) or truncating divisions (`ShrinkSteps`) that
  the loops would perform, then either scales by `BASE^k` or saturates;
- the conversion constructor, as the method `Fas.Construct`. It checks the
  exponent first, then normalizes.

C++ `/` truncates toward zero, while Dafny's `/` is Euclidean. `Arith.TruncDiv`
models the C++ operator. It is used for the growth bounds
`MANTISSA_MAX / BASE` and `MANTISSA_LOWEST / BASE` and for the shrink
divisions. Integers are unbounded. `normalize` requires an exponent that is
already in range, because its only caller, the constructor, stores one.

The comment on `normalize` (fas/float.hpp:43-47) says that the mantissa is
multiplied or divided by `BASE` "to show the maximum of trailing digits",
until its highest bit (other than the sign) is one. Where that comment and the
code differ, the model follows the code:

- After shrinking, the mantissa need not be maximal. With base 2, mantissa
  range [−128, 127] and exponent range [−8, 8], −129 normalizes to (−64, 1),
  although −64 × 2 is still in range. Normalization is therefore not
  idempotent on its own results: normalizing (−64, 1) again gives (−128, 0)
  (`ShrinkNotMaximal`).
- A pair whose exponent is pinned at `EXPONENT_LOWEST` is not kept if its
  mantissa could still grow. Normalization underflows it to ZERO, because the
  floor check comes before the decrement. In particular, given
  `MANTISSA_MAX ≥ BASE`, MIN = (1, `EXPONENT_LOWEST`) is never produced, and normalizing MIN gives ZERO
  (`UnderflowAtFloor`, `FactoryEncodings`, `NormalizedSentinels`).

Two further behaviours of the code are not documented in it:

- An exponent below `EXPONENT_LOWEST` gives NEGATIVE_INF, whatever the value
  is, including 0 (`Construct`). The comment on the constructor
  (fas/float.hpp:171-172) speaks only of an exponent above `EXPONENT_MAX`.
- `ONE()` calls a one-argument constructor that does not exist. It is modelled
  as the conversion constructor on (1, 0). `ONE` then represents exactly 1
  unless `BASE^(−EXPONENT_LOWEST)` can still grow. In that case `ONE` is ZERO,
  for example whenever `EXPONENT_LOWEST` is 0 (`FasProperties.One`).

## Model

| member | source | states |
|---|---|---|
| `Arith.TruncDiv` | fas/float.hpp:87 | C++ division: for `a ≥ 0` the quotient is the largest `q ≥ 0` with `q·b ≤ a`; for `a < 0` it is the smallest `q ≤ 0` with `a ≤ q·b`; for `b > 1` it strictly shrinks a nonzero magnitude (also the divisions at lines 71, 91 and 107) |
| `Arith.TruncDivTwice` | fas/float.hpp:81-88 | truncating by the base and then by `p` equals truncating once by `base·p`, so `k` iterations of the shrink division truncate by `BASE^k` |
| `Fas.Zero` | fas/float.hpp:127 | ZERO, the default-constructed value (members initialised to 0 at lines 38-41): a sentinel, that is a zero mantissa, with exponent 0 |
| `Fas.Inf` | fas/float.hpp:133 | INF is the raw pair `of(0, 1)`: a sentinel with exponent 1 |
| `Fas.NegativeInf` | fas/float.hpp:136 | NEGATIVE_INF is the raw pair `of(0, 2)`: a sentinel with exponent 2 |
| `Fas.NotANumber` | fas/float.hpp:139 | NOT_A_NUMBER is the raw pair `of(0, 3)`: a sentinel with exponent 3 |
| `Fas.Min` | fas/float.hpp:142 | MIN is the raw pair `of(1, EXPONENT_LOWEST)`: an in-range non-sentinel with the least positive mantissa at the lowest exponent |
| `Fas.Lowest` | fas/float.hpp:145-147 | LOWEST is the raw pair `of(MANTISSA_LOWEST, EXPONENT_MAX)`: an in-range non-sentinel whose negative mantissa is below or equal to every in-range mantissa, at the highest exponent |
| `Fas.Max` | fas/float.hpp:150 | MAX is the raw pair `of(MANTISSA_MAX, EXPONENT_MAX)`: an in-range non-sentinel whose positive mantissa is above or equal to every in-range mantissa, at the highest exponent |
| `Fas.ExponentBase` | fas/float.hpp:153 | EXPONENT_BASE returns `BASE`, which is at least 2 |
| `Fas.Growable` | fas/float.hpp:71 | the growth guard `value <= MANTISSA_MAX / BASE` (positive) or `value >= MANTISSA_LOWEST / BASE` (negative, line 91), with truncating division, holds exactly when the value is nonzero and `value·BASE` is inside the mantissa range |
| `Fas.Overflowing` | fas/float.hpp:81 | the shrink guard `value > MANTISSA_MAX` (positive) or `value < MANTISSA_LOWEST` (negative, line 101) holds exactly when the value is outside the mantissa range |
| `Fas.Normalize` | fas/float.hpp:60-112 | the four loops with their early returns compute exactly the reference result `Normalized(value, exponent)`; the loop invariants state that each growth or shrink step keeps the eventual result |
| `Fas.Construct` | fas/float.hpp:179-199 | an exponent above `EXPONENT_MAX` gives INF and one below `EXPONENT_LOWEST` gives NEGATIVE_INF, for every value including 0; otherwise the result is the normalization of the value at that exponent |
| `Fas.GrowableBounds` | fas/float.hpp:71-78 | when the growth guard holds, `value·BASE` stays inside the mantissa range and its magnitude strictly increases (also lines 91-98) |
| `Fas.GrowStep` | fas/float.hpp:76-77 | one growth iteration above the floor (decrement exponent, multiply by BASE) keeps the value nonzero, keeps its sign and leaves the normalized result unchanged (also lines 96-97) |
| `Fas.ShrinkStep` | fas/float.hpp:86-87 | one shrink iteration below the ceiling (increment exponent, truncating divide) leaves the outcome of the shrink phase unchanged (also lines 106-107) |
| `Fas.ShrinkSign` | fas/float.hpp:107 | dividing an out-of-range value by BASE keeps it nonzero and keeps its sign (also line 87) |
| `Fas.ShrunkInRange` | fas/float.hpp:111 | a value that needs neither growth nor shrinking is stored as it is, at the stored exponent |
| `FasProperties.GrowableInRange` | fas/float.hpp:91 | a value the growth guard accepts is inside the mantissa range, so it never enters a shrink loop (also line 71) |
| `FasProperties.OverflowScaled` | fas/float.hpp:81 | an out-of-range value stays out of range, and fails the growth guard, after multiplication by any power of BASE (also line 101) |
| `FasProperties.GrowLands` | fas/float.hpp:71-78 | growth from a nonzero in-range value ends on a nonzero in-range mantissa of the same sign that fails the growth guard (also lines 91-98) |
| `FasProperties.GrowableAlong` | fas/float.hpp:71-75 | after `j` multiplications the growth guard still holds exactly when `j` is below the number of growth steps (also lines 91-95) |
| `FasProperties.ShrinkLands` | fas/float.hpp:81-88 | shrinking ends on a nonzero in-range value of the input's sign after `k` truncations, and every smaller number of truncations leaves it out of range (also lines 101-108) |
| `FasProperties.NormalizedShape` | fas/float.hpp:60-112 | zero gives ZERO; a positive value gives ZERO, INF or a positive pair; a negative value gives ZERO, NEGATIVE_INF or a negative pair; every non-sentinel result has mantissa and exponent inside their bounds |
| `FasProperties.OneIsGrowable` | fas/float.hpp:71 | `1 ≤ MANTISSA_MAX / BASE`, so a mantissa of 1 always passes the growth guard |
| `FasProperties.NormalizedSentinels` | fas/float.hpp:62-111 | a zero mantissa out of normalization is only ZERO, INF or NEGATIVE_INF; NOT_A_NUMBER and MIN (line 142) are never produced |
| `FasProperties.GrowthExact` | fas/float.hpp:71-78 | from a nonzero in-range value that does not underflow: the exponent does not increase, `mantissa = value·BASE^(e − exponent)` exactly, and `mantissa·BASE` lies outside the mantissa range (also lines 91-98) |
| `FasProperties.NormalFormFixed` | fas/float.hpp:67-111 | a nonzero in-range pair whose `mantissa·BASE` is out of range is returned unchanged: such pairs are fixed points of normalization |
| `FasProperties.UnderflowIff` | fas/float.hpp:72-75 | a nonzero value becomes ZERO exactly when `value·BASE^(e − EXPONENT_LOWEST)` still passes the growth guard, so the loop reaches the floor with its guard true (also lines 92-95) |
| `FasProperties.UnderflowAtFloor` | fas/float.hpp:92-95 | a value that passes the growth guard at exponent `EXPONENT_LOWEST` becomes ZERO (also lines 72-75) |
| `FasProperties.ShrinkOutcome` | fas/float.hpp:81-88 | for an out-of-range value: the result is the infinity of its sign exactly when every number of truncations up to the ceiling leaves it out of range; otherwise the exponent rises by the least number `k` of truncations that brings it in range, and the mantissa is the value truncated toward zero by `BASE^k` (also lines 101-108) |
| `FasProperties.FactoryEncodings` | fas/float.hpp:127-150 | the four sentinels have mantissa 0 and exponents 0, 1, 2, 3; MIN, LOWEST and MAX are in-range non-sentinels with `LOWEST < 0 < MIN < MAX` in the mantissa; LOWEST and MAX are fixed points of normalization while MIN normalizes to ZERO |
| `FasProperties.MaxIsNormal` | fas/float.hpp:150 | normalizing the raw pair of MAX gives MAX back |
| `FasProperties.LowestIsNormal` | fas/float.hpp:145-147 | normalizing the raw pair of LOWEST gives LOWEST back |
| `FasProperties.One` | fas/float.hpp:130 | ONE, assumed to be the conversion constructor on (1, 0) because the called one-argument constructor does not exist: it is ZERO exactly when `BASE^(−EXPONENT_LOWEST)` still passes the growth guard; otherwise it is `BASE^k` at exponent `−k` with `k ≥ 0`, a mantissa that cannot grow further |
| `FasProperties.SampleScenarios` | fas/float.hpp:60-112 | with base 2, mantissa [−128, 127] and exponent [−8, 8]: (0, 5) → ZERO, (1, 0) → (64, −6), (100, 0) → (100, 0), (200, 0) → (100, 1), (1, −5) → ZERO, and ONE = (64, −6) |
| `FasProperties.ShrinkNotMaximal` | fas/float.hpp:101-108 | with the same instantiation, −129 at exponent 0 gives (−64, 1) although −64·2 is in range, while −128 gives (−128, 0), and normalizing (−64, 1) again gives (−128, 0): the mantissa is not maximal after shrinking, and normalization is not idempotent |

## Left out

- Type-trait specialisations `is_fundamental`, `is_floating_point`, `is_arithmetic`, `is_scalar` and `is_object` (fas/float.hpp:209-243): compile-time metaprogramming with no run-time behaviour.
- `std::numeric_limits` (fas/float.hpp:246-261): it only forwards to `MAX`, `MIN` and `LOWEST`, which are modelled.
- Storage types `Tmantissa`, `Texponent`, `Tvalue` and `TvalueExponent`, with their widths, overflow and the `static_cast`s at lines 111 and 193: all integers are unbounded, and the configured bounds carry the limits. The warning at lines 56-58 about an endless loop on machine overflow has no counterpart.
- The usual arithmetic conversions in the constructor's comparisons (fas/float.hpp:181 and 183): the model compares exponents as mathematical integers, which assumes a signed exponent argument. When the usual arithmetic conversions give an unsigned common type (e.g. an `unsigned int` argument against an `int` `Texponent`), C++ converts a negative `EXPONENT_LOWEST` to a huge unsigned value, so an in-range exponent such as `0u` yields NEGATIVE_INF in the C++ code; the model does not capture this. The same conversions at line 192 only choose between the two branches, which coincide in the model.
- Instantiations outside `Fas.Config.Valid` (fas/float.hpp:27-31): `BASE ≤ 1`, which the template accepts for any `Tmantissa` value (with BASE 1 the growth guard at lines 71/91 stays true down to the floor, so every nonzero in-range value becomes ZERO and every out-of-range value saturates at lines 82/102; with BASE 0 lines 71 and 87 divide by zero); an unsigned `Tmantissa`, whose default `MANTISSA_LOWEST` is 0; custom bounds with `MANTISSA_MAX < BASE` or `MANTISSA_LOWEST > −BASE`; and `EXPONENT_LOWEST > 0` or `EXPONENT_MAX < 3`. The C++ code accepts them, but every result of the model assumes they are absent. For instance, with BASE 2 and `MANTISSA_MAX` 1, `Float(1, EXPONENT_LOWEST)` fails both guards and stores MIN, which `NormalizedSentinels` rules out only under `Valid`. The default bounds of any signed `Tmantissa` always meet the two mantissa clauses, because `BASE` is itself a `Tmantissa` value.
- The narrow/wide branch of the constructor (fas/float.hpp:192-197): it exists only to avoid C++ overflow; over unbounded integers both branches are the same `normalize` call.
- `FasProperties.One`: the body of `ONE()`, `self_t(1)`, names a constructor that does not exist, so the model assumes the conversion constructor on (1, 0).
- Default, copy and move constructors and assignment operators (fas/float.hpp:161-168, 201-205): plain value semantics.
- Update in place: `normalize` and the constructor overwrite `*this`. With value semantics this is modelled as returning the new value.
