/** The software floating-point value `fas::Float`: a pair (mantissa, exponent)
    read as `mantissa × BASE^exponent`, with four reserved zero-mantissa
    encodings for ZERO, INF, NEGATIVE_INF and NOT_A_NUMBER. */
module Fas {
  import opened Arith

  /** The seven template parameters of a `Float` instantiation, minus the two
      storage types: the base and the bounds of mantissa and exponent. */
  datatype Config = Config(
    base: int,
    mantissaLowest: int,
    mantissaMax: int,
    exponentLowest: int,
    exponentMax: int)
  {
    /** What an instantiation must satisfy for the normalizer to make sense:
        the base really scales, one multiplication by the base fits in each
        direction, and the sentinel exponents 0..3 are representable. */
    predicate Valid() {
      && base >= 2
      && mantissaLowest <= -base
      && mantissaMax >= base
      && exponentLowest <= 0
      && 3 <= exponentMax
    }

    predicate MantissaInRange(m: int) {
      mantissaLowest <= m <= mantissaMax
    }

    predicate ExponentInRange(e: int) {
      exponentLowest <= e <= exponentMax
    }
  }

  /** A value; `Of` is the raw constructor `of`, which does not normalize.
      The accessors `mantissa()` and `exponent()` are the two fields. */
  datatype Float = Of(mantissa: int, exponent: int)

  // Factories: fixed raw pairs, none of them normalized.

  /** ZERO: the sentinel with exponent 0. */
  function Zero(): (r: Float)
    ensures IsSentinel(r) && r.exponent == 0
  {
    Of(0, 0)
  }

  /** INF: the sentinel with exponent 1. */
  function Inf(): (r: Float)
    ensures IsSentinel(r) && r.exponent == 1
  {
    Of(0, 1)
  }

  /** NEGATIVE_INF: the sentinel with exponent 2. */
  function NegativeInf(): (r: Float)
    ensures IsSentinel(r) && r.exponent == 2
  {
    Of(0, 2)
  }

  /** NOT_A_NUMBER: the sentinel with exponent 3. */
  function NotANumber(): (r: Float)
    ensures IsSentinel(r) && r.exponent == 3
  {
    Of(0, 3)
  }

  /** MIN: the smallest positive mantissa at the lowest exponent. */
  function Min(c: Config): (r: Float)
    requires c.Valid()
    ensures !IsSentinel(r) && InRange(c, r)
    ensures r.mantissa == 1 && r.exponent == c.exponentLowest
  {
    Of(1, c.exponentLowest)
  }

  /** LOWEST: the most negative mantissa at the highest exponent. */
  function Lowest(c: Config): (r: Float)
    requires c.Valid()
    ensures !IsSentinel(r) && InRange(c, r) && r.mantissa < 0
    ensures forall m :: c.MantissaInRange(m) ==> r.mantissa <= m
    ensures r.exponent == c.exponentMax
  {
    Of(c.mantissaLowest, c.exponentMax)
  }

  /** MAX: the largest mantissa at the highest exponent. */
  function Max(c: Config): (r: Float)
    requires c.Valid()
    ensures !IsSentinel(r) && InRange(c, r) && r.mantissa > 0
    ensures forall m :: c.MantissaInRange(m) ==> m <= r.mantissa
    ensures r.exponent == c.exponentMax
  {
    Of(c.mantissaMax, c.exponentMax)
  }

  /** EXPONENT_BASE: the base, which scales by at least 2. */
  function ExponentBase(c: Config): (b: int)
    requires c.Valid()
    ensures b >= 2 && b == c.base
  {
    c.base
  }

  /** A zero mantissa is reserved for the sentinels. */
  predicate IsSentinel(f: Float) {
    f.mantissa == 0
  }

  /** A pair whose mantissa and exponent both lie inside the configured bounds. */
  predicate InRange(c: Config, f: Float) {
    c.MantissaInRange(f.mantissa) && c.ExponentInRange(f.exponent)
  }

  /** The loop guards of the growth phase, `value <= MANTISSA_MAX / BASE` for a
      positive and `value >= MANTISSA_LOWEST / BASE` for a negative value, with
      C++ truncating division: they hold exactly when one more multiplication
      by the base keeps a nonzero value inside the mantissa range. */
  predicate Growable(c: Config, v: int): (g: bool)
    requires c.Valid()
    ensures g <==> v != 0 && c.MantissaInRange(v * c.base)
  {
    GuardMeaning(c, v);
    || (v > 0 && v <= TruncDiv(c.mantissaMax, c.base))
    || (v < 0 && v >= TruncDiv(c.mantissaLowest, c.base))
  }

  /** The arithmetic behind `Growable`'s contract, stated on the guard itself. */
  lemma GuardMeaning(c: Config, v: int)
    requires c.Valid()
    ensures (v > 0 && v <= TruncDiv(c.mantissaMax, c.base)) <==> v > 0 && c.MantissaInRange(v * c.base)
    ensures (v < 0 && v >= TruncDiv(c.mantissaLowest, c.base)) <==> v < 0 && c.MantissaInRange(v * c.base)
  {
    var qMax, qLow := TruncDiv(c.mantissaMax, c.base), TruncDiv(c.mantissaLowest, c.base);
    if v > 0 {
      if v <= qMax {
        ScaleUpPositive(v, qMax, c.base);
      } else {
        BeyondPositive(v, qMax, c.base);
      }
    } else if v < 0 {
      if v >= qLow {
        ScaleUpNegative(v, qLow, c.base);
      } else {
        BeyondNegative(v, qLow, c.base);
      }
    }
  }

  lemma BeyondPositive(m: int, q: int, b: int)
    requires q < m && b > 0
    ensures m * b >= q * b + b
  {
    MulMono(q + 1, m, b);
    assert (q + 1) * b == q * b + b;
  }

  lemma BeyondNegative(m: int, q: int, b: int)
    requires m < q && b > 0
    ensures m * b <= q * b - b
  {
    MulMono(m, q - 1, b);
    assert (q - 1) * b == q * b - b;
  }

  /** The loop guards of the shrink phase, `value > MANTISSA_MAX` and
      `value < MANTISSA_LOWEST`: together, the value is outside the range. */
  predicate Overflowing(c: Config, v: int): (o: bool)
    ensures o <==> !c.MantissaInRange(v)
  {
    v > c.mantissaMax || v < c.mantissaLowest
  }

  /** A growable value stays inside the mantissa range when multiplied by the
      base, and its magnitude strictly increases. */
  lemma GrowableBounds(c: Config, v: int)
    requires c.Valid() && Growable(c, v)
    ensures c.MantissaInRange(v * c.base)
    ensures v > 0 ==> v < v * c.base
    ensures v < 0 ==> v * c.base < v
  {
    if v > 0 {
      ScaleUpPositive(v, TruncDiv(c.mantissaMax, c.base), c.base);
    } else {
      ScaleUpNegative(v, TruncDiv(c.mantissaLowest, c.base), c.base);
    }
  }

  lemma ScaleUpPositive(v: int, q: int, b: int)
    requires 0 < v <= q && b >= 2
    ensures v < v * b <= q * b
  {
    MulMono(v, q, b);
    MulMono(2, b, v);
    assert b * v == v * b;
  }

  lemma ScaleUpNegative(v: int, q: int, b: int)
    requires q <= v < 0 && b >= 2
    ensures q * b <= v * b < v
  {
    MulMono(q, v, b);
    MulMono(2, b, -v);
    assert b * -v == -(v * b);
  }

  /** How many multiplications by the base the growth phase performs when the
      exponent never reaches its floor. */
  function GrowSteps(c: Config, v: int): nat
    requires c.Valid()
    decreases if v > 0 then c.mantissaMax - v else v - c.mantissaLowest
  {
    if Growable(c, v) then
      GrowableBounds(c, v);
      1 + GrowSteps(c, v * c.base)
    else 0
  }

  /** How many truncating divisions by the base the shrink phase performs when
      the exponent never reaches its ceiling. */
  function ShrinkSteps(c: Config, v: int): nat
    requires c.Valid()
    decreases if v > 0 then v else -v
  {
    if Overflowing(c, v) then 1 + ShrinkSteps(c, TruncDiv(v, c.base)) else 0
  }

  /** Result of the growth phase on a growable value: scaled up by
      `BASE^k`, or ZERO when the `k` decrements would pass the floor. */
  function Grown(c: Config, v: int, e: int): Float
    requires c.Valid() && c.ExponentInRange(e)
  {
    var k := GrowSteps(c, v);
    if k > e - c.exponentLowest then Zero() else Of(v * Pow(c.base, k), e - k)
  }

  /** Result of the shrink phase: truncated by `BASE^k`, or the infinity of
      the value's sign when the `k` increments would pass the ceiling. */
  function Shrunk(c: Config, v: int, e: int): Float
    requires c.Valid() && c.ExponentInRange(e)
  {
    var k := ShrinkSteps(c, v);
    if k > c.exponentMax - e then
      (if v > 0 then Inf() else NegativeInf())
    else
      Of(TruncDiv(v, Pow(c.base, k)), e + k)
  }

  /** The value `normalize(v)` stores when the exponent `e` is already assigned. */
  function Normalized(c: Config, v: int, e: int): Float
    requires c.Valid() && c.ExponentInRange(e)
  {
    if v == 0 then Zero()
    else if Growable(c, v) then Grown(c, v, e)
    else Shrunk(c, v, e)
  }

  /** One iteration of the growth loop keeps the eventual result. */
  lemma GrowStep(c: Config, v: int, e: int)
    requires c.Valid() && c.ExponentInRange(e) && e > c.exponentLowest
    requires Growable(c, v)
    ensures v * c.base != 0 && (v > 0 <==> v * c.base > 0)
    ensures Normalized(c, v * c.base, e - 1) == Normalized(c, v, e)
  {
    GrowableBounds(c, v);
    var w := v * c.base;
    var k := GrowSteps(c, v);
    assert k == 1 + GrowSteps(c, w);
    PowShift(v, c.base, k - 1);
    if !Growable(c, w) {
      assert !Overflowing(c, w);
      assert ShrinkSteps(c, w) == 0;
      assert Pow(c.base, 0) == 1;
      assert w * 1 == w;
    }
  }

  /** One iteration of the shrink loop keeps the eventual result. */
  lemma ShrinkStep(c: Config, v: int, e: int)
    requires c.Valid() && c.ExponentInRange(e) && e < c.exponentMax
    requires Overflowing(c, v)
    ensures TruncDiv(v, c.base) != 0 && (v > 0 <==> TruncDiv(v, c.base) > 0)
    ensures Shrunk(c, TruncDiv(v, c.base), e + 1) == Shrunk(c, v, e)
  {
    var w := TruncDiv(v, c.base);
    var k := ShrinkSteps(c, v);
    assert k == 1 + ShrinkSteps(c, w);
    TruncDivTwice(v, c.base, Pow(c.base, k - 1));
    ShrinkSign(c, v);
  }

  /** Dividing an overflowing value by the base keeps it nonzero and keeps its sign. */
  lemma ShrinkSign(c: Config, v: int)
    requires c.Valid() && Overflowing(c, v)
    ensures TruncDiv(v, c.base) != 0 && (v > 0 <==> TruncDiv(v, c.base) > 0)
  {
    var w := TruncDiv(v, c.base);
    if v > 0 {
      MulMono(1, w + 1, c.base);
    } else {
      MulMono(w - 1, -1, c.base);
    }
  }

  /** A value that needs no growth and no shrinking is stored as it is. */
  lemma ShrunkInRange(c: Config, v: int, e: int)
    requires c.Valid() && c.ExponentInRange(e) && !Overflowing(c, v)
    ensures Shrunk(c, v, e) == Of(v, e)
  {
    assert ShrinkSteps(c, v) == 0;
    assert Pow(c.base, 0) == 1;
    TruncDivByOne(v);
  }

  /** `normalize` (fas/float.hpp:60-112), for the exponent already stored in
      the target: its four loops, with the early returns that saturate. */
  method Normalize(c: Config, value: int, exponent: int) returns (r: Float)
    requires c.Valid() && c.ExponentInRange(exponent)
    ensures r == Normalized(c, value, exponent)
  {
    if value == 0 {
      return Zero();
    }
    var v, e := value, exponent;
    if v > 0 {
      while v <= TruncDiv(c.mantissaMax, c.base)
        invariant v > 0 && c.ExponentInRange(e)
        invariant Normalized(c, v, e) == Normalized(c, value, exponent)
        decreases e - c.exponentLowest
      {
        if e == c.exponentLowest {
          return Zero();
        }
        GrowStep(c, v, e);
        e := e - 1;
        v := v * c.base;
      }
      while v > c.mantissaMax
        invariant v > 0 && c.ExponentInRange(e)
        invariant Shrunk(c, v, e) == Normalized(c, value, exponent)
        decreases c.exponentMax - e
      {
        if e == c.exponentMax {
          return Inf();
        }
        ShrinkStep(c, v, e);
        e := e + 1;
        v := TruncDiv(v, c.base);
      }
    } else {
      while v >= TruncDiv(c.mantissaLowest, c.base)
        invariant v < 0 && c.ExponentInRange(e)
        invariant Normalized(c, v, e) == Normalized(c, value, exponent)
        decreases e - c.exponentLowest
      {
        if e == c.exponentLowest {
          return Zero();
        }
        GrowStep(c, v, e);
        e := e - 1;
        v := v * c.base;
      }
      while v < c.mantissaLowest
        invariant v < 0 && c.ExponentInRange(e)
        invariant Shrunk(c, v, e) == Normalized(c, value, exponent)
        decreases c.exponentMax - e
      {
        if e == c.exponentMax {
          return NegativeInf();
        }
        ShrinkStep(c, v, e);
        e := e + 1;
        v := TruncDiv(v, c.base);
      }
    }
    ShrunkInRange(c, v, e);
    r := Of(v, e);
  }

  /** The conversion constructor (fas/float.hpp:179-199): the exponent is
      checked before the value, then stored, then the value is normalized. */
  method Construct(c: Config, value: int, exponent: int) returns (r: Float)
    requires c.Valid()
    ensures exponent > c.exponentMax ==> r == Inf()
    ensures exponent < c.exponentLowest ==> r == NegativeInf()
    ensures c.ExponentInRange(exponent) ==> r == Normalized(c, value, exponent)
  {
    if exponent > c.exponentMax {
      r := Inf();
    } else if exponent < c.exponentLowest {
      r := NegativeInf();
    } else {
      r := Normalize(c, value, exponent);
    }
  }
}
