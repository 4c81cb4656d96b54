/** What `normalize`, the conversion constructor and the factories of
    `fas::Float` guarantee, proved about the reference definition
    `Normalized` that the method `Normalize` is verified against. */
module FasProperties {
  import opened Arith
  import opened Fas

  // ---------------------------------------------------------------------------
  // Growth and shrink, one phase at a time

  /** A value the growth guard accepts lies inside the mantissa range. */
  lemma GrowableInRange(c: Config, m: int)
    requires c.Valid() && Growable(c, m)
    ensures c.MantissaInRange(m) && !Overflowing(c, m)
  {
    GrowableBounds(c, m);
  }

  /** Scaling by a power of the base never brings an overflowing value back. */
  lemma OverflowScaled(c: Config, m: int, i: nat)
    requires c.Valid() && Overflowing(c, m)
    ensures Overflowing(c, m * Pow(c.base, i))
    ensures !Growable(c, m * Pow(c.base, i))
  {
    var p := Pow(c.base, i);
    if m > 0 {
      MulMono(1, p, m);
      assert p * m == m * p;
    } else {
      MulMono(1, p, -m);
      assert p * -m == -(m * p);
    }
    if Growable(c, m * p) {
      GrowableInRange(c, m * p);
    }
  }

  /** Growth from a nonzero in-range value ends on a value of the same sign
      that is in range and that the growth guard rejects. */
  lemma {:induction false} GrowLands(c: Config, v: int)
    requires c.Valid() && v != 0 && c.MantissaInRange(v)
    ensures var m := v * Pow(c.base, GrowSteps(c, v));
      c.MantissaInRange(m) && !Growable(c, m) && m != 0 && (m > 0 <==> v > 0)
    decreases GrowSteps(c, v)
  {
    if Growable(c, v) {
      GrowableBounds(c, v);
      GrowLands(c, v * c.base);
      PowShift(v, c.base, GrowSteps(c, v * c.base));
    } else {
      assert Pow(c.base, 0) == 1;
      assert v * 1 == v;
    }
  }

  /** After `j` multiplications, the growth guard still holds exactly when
      fewer than `GrowSteps` multiplications have been made. */
  lemma {:induction false} GrowableAlong(c: Config, v: int, j: nat)
    requires c.Valid() && v != 0 && c.MantissaInRange(v)
    ensures Growable(c, v * Pow(c.base, j)) <==> j < GrowSteps(c, v)
    decreases j
  {
    if j == 0 {
      assert Pow(c.base, 0) == 1;
      assert v * 1 == v;
    } else {
      PowShift(v, c.base, j - 1);
      if Growable(c, v) {
        GrowableBounds(c, v);
        GrowableAlong(c, v * c.base, j - 1);
      } else {
        OverflowScaled(c, v * c.base, j - 1);
      }
    }
  }

  /** Shrinking a nonzero value ends, after `ShrinkSteps` divisions, on a
      nonzero in-range value of the same sign, and every earlier count of
      divisions still leaves it out of range. */
  lemma {:induction false} ShrinkLands(c: Config, v: int)
    requires c.Valid() && v != 0
    ensures var k := ShrinkSteps(c, v);
      var m := TruncDiv(v, Pow(c.base, k));
      && !Overflowing(c, m) && m != 0 && (m > 0 <==> v > 0)
      && forall j :: 0 <= j < k ==> Overflowing(c, TruncDiv(v, Pow(c.base, j)))
    decreases if v > 0 then v else -v
  {
    var k := ShrinkSteps(c, v);
    if Overflowing(c, v) {
      var w := TruncDiv(v, c.base);
      ShrinkSign(c, v);
      ShrinkLands(c, w);
      TruncDivTwice(v, c.base, Pow(c.base, k - 1));
      forall j | 0 <= j < k
        ensures Overflowing(c, TruncDiv(v, Pow(c.base, j)))
      {
        if j == 0 {
          TruncDivByOne(v);
        } else {
          TruncDivTwice(v, c.base, Pow(c.base, j - 1));
        }
      }
    } else {
      TruncDivByOne(v);
    }
  }

  // ---------------------------------------------------------------------------
  // Normalization as a whole

  /** Every result of normalization: zero stays ZERO; a positive value gives
      ZERO, INF or a positive in-range pair; a negative value gives ZERO,
      NEGATIVE_INF or a negative in-range pair. */
  lemma NormalizedShape(c: Config, v: int, e: int)
    requires c.Valid() && c.ExponentInRange(e)
    ensures var r := Normalized(c, v, e);
      && (v == 0 ==> r == Zero())
      && (v > 0 ==> r == Zero() || r == Inf() || (r.mantissa > 0 && InRange(c, r)))
      && (v < 0 ==> r == Zero() || r == NegativeInf() || (r.mantissa < 0 && InRange(c, r)))
  {
    if v != 0 {
      if Growable(c, v) {
        GrowableInRange(c, v);
        GrowLands(c, v);
      } else if Overflowing(c, v) {
        ShrinkLands(c, v);
      } else {
        ShrunkInRange(c, v, e);
      }
    }
  }

  /** The value 1 can always grow: `MANTISSA_MAX / BASE` is at least 1. */
  lemma OneIsGrowable(c: Config)
    requires c.Valid()
    ensures Growable(c, 1)
  {
    var q := TruncDiv(c.mantissaMax, c.base);
    if q <= 0 {
      MulMono(q, 0, c.base);
      assert false;
    }
  }

  /** Sentinel exclusivity: a zero mantissa out of normalization is ZERO, INF or
      NEGATIVE_INF; NOT_A_NUMBER and MIN are never produced. */
  lemma NormalizedSentinels(c: Config, v: int, e: int)
    requires c.Valid() && c.ExponentInRange(e)
    ensures var r := Normalized(c, v, e);
      && (IsSentinel(r) ==> r == Zero() || r == Inf() || r == NegativeInf())
      && r != NotANumber()
      && r != Min(c)
  {
    NormalizedShape(c, v, e);
    OneIsGrowable(c);
    if v != 0 {
      if Growable(c, v) {
        GrowableInRange(c, v);
        GrowLands(c, v);
      } else if Overflowing(c, v) {
        ShrinkLands(c, v);
      } else {
        ShrunkInRange(c, v, e);
      }
    }
  }

  /** Growth is exact and maximal: from a nonzero in-range value that does not
      underflow, the result represents the same number (`mantissa ×
      BASE^(e − exponent)` is the input) and one more multiplication by the base
      would leave the mantissa range. */
  lemma GrowthExact(c: Config, v: int, e: int)
    requires c.Valid() && c.ExponentInRange(e)
    requires v != 0 && c.MantissaInRange(v) && Normalized(c, v, e) != Zero()
    ensures var r := Normalized(c, v, e);
      && r.exponent <= e
      && r.mantissa == v * Pow(c.base, e - r.exponent)
      && !c.MantissaInRange(r.mantissa * c.base)
  {
    GrowLands(c, v);
    if !Growable(c, v) {
      ShrunkInRange(c, v, e);
    }
  }

  /** Fixed points: a nonzero in-range pair whose mantissa cannot be
      multiplied by the base again is returned unchanged. Not every result of
      normalization is such a pair (see `ShrinkNotMaximal`). */
  lemma NormalFormFixed(c: Config, m: int, e: int)
    requires c.Valid() && c.ExponentInRange(e)
    requires m != 0 && c.MantissaInRange(m) && !c.MantissaInRange(m * c.base)
    ensures Normalized(c, m, e) == Of(m, e)
  {
    ShrunkInRange(c, m, e);
  }

  /** Underflow: a nonzero value becomes ZERO exactly when it could still grow
      after `e − EXPONENT_LOWEST` multiplications, that is when the loop meets
      the floor with its guard still true. */
  lemma UnderflowIff(c: Config, v: int, e: int)
    requires c.Valid() && c.ExponentInRange(e) && v != 0
    ensures Normalized(c, v, e) == Zero()
      <==> Growable(c, v * Pow(c.base, e - c.exponentLowest))
  {
    if Overflowing(c, v) {
      OverflowScaled(c, v, e - c.exponentLowest);
      ShrinkLands(c, v);
    } else {
      GrowableAlong(c, v, e - c.exponentLowest);
      if Growable(c, v) {
        GrowLands(c, v);
      } else {
        ShrunkInRange(c, v, e);
      }
    }
  }

  /** A value the growth guard accepts, met at the exponent floor, is ZERO. */
  lemma UnderflowAtFloor(c: Config, v: int)
    requires c.Valid() && Growable(c, v)
    ensures Normalized(c, v, c.exponentLowest) == Zero()
  {
    assert Pow(c.base, 0) == 1;
    assert v * 1 == v;
    UnderflowIff(c, v, c.exponentLowest);
  }

  /** Shrinking is truncation or saturation: an out-of-range value gives the
      infinity of its sign exactly when every number of divisions up to the
      ceiling leaves it out of range; otherwise the exponent rises by the
      least number `k` of divisions that brings it in range and the mantissa
      is the value truncated toward zero by `BASE^k`. */
  lemma ShrinkOutcome(c: Config, v: int, e: int)
    requires c.Valid() && c.ExponentInRange(e) && Overflowing(c, v)
    ensures var r := Normalized(c, v, e);
      var saturated := if v > 0 then Inf() else NegativeInf();
      && (r == saturated <==>
            forall j :: 0 <= j <= c.exponentMax - e ==> Overflowing(c, TruncDiv(v, Pow(c.base, j))))
      && (r != saturated ==>
            && r.exponent > e
            && r.mantissa == TruncDiv(v, Pow(c.base, r.exponent - e))
            && c.MantissaInRange(r.mantissa)
            && forall j :: 0 <= j < r.exponent - e ==> Overflowing(c, TruncDiv(v, Pow(c.base, j))))
  {
    ShrinkLands(c, v);
    if Growable(c, v) {
      GrowableInRange(c, v);
    }
    var k := ShrinkSteps(c, v);
    if k <= c.exponentMax - e {
      assert !Overflowing(c, TruncDiv(v, Pow(c.base, k)));
    }
  }

  // ---------------------------------------------------------------------------
  // Factories and ONE

  /** The factory encodings: the four sentinels share mantissa 0 and are told
      apart by exponents 0 to 3; MIN, LOWEST and MAX are in-range
      non-sentinels; LOWEST and MAX are already normal, while MIN is a raw pair
      that normalization itself would turn into ZERO. */
  lemma FactoryEncodings(c: Config)
    requires c.Valid()
    ensures Zero().mantissa == Inf().mantissa == NegativeInf().mantissa == NotANumber().mantissa == 0
    ensures [Zero().exponent, Inf().exponent, NegativeInf().exponent, NotANumber().exponent] == [0, 1, 2, 3]
    ensures InRange(c, Zero()) && InRange(c, Inf()) && InRange(c, NegativeInf()) && InRange(c, NotANumber())
    ensures !IsSentinel(Min(c)) && !IsSentinel(Lowest(c)) && !IsSentinel(Max(c))
    ensures InRange(c, Min(c)) && InRange(c, Lowest(c)) && InRange(c, Max(c))
    ensures Lowest(c).mantissa < 0 < Min(c).mantissa < Max(c).mantissa
    ensures Normalized(c, Max(c).mantissa, Max(c).exponent) == Max(c)
    ensures Normalized(c, Lowest(c).mantissa, Lowest(c).exponent) == Lowest(c)
    ensures Normalized(c, Min(c).mantissa, Min(c).exponent) == Zero()
  {
    MaxIsNormal(c);
    LowestIsNormal(c);
    OneIsGrowable(c);
    UnderflowAtFloor(c, 1);
  }

  lemma MaxIsNormal(c: Config)
    requires c.Valid()
    ensures Normalized(c, c.mantissaMax, c.exponentMax) == Max(c)
  {
    MulMono(1, c.base, c.mantissaMax);
    assert c.base * c.mantissaMax == c.mantissaMax * c.base;
    NormalFormFixed(c, c.mantissaMax, c.exponentMax);
  }

  lemma LowestIsNormal(c: Config)
    requires c.Valid()
    ensures Normalized(c, c.mantissaLowest, c.exponentMax) == Lowest(c)
  {
    MulMono(1, c.base, -c.mantissaLowest);
    assert c.base * -c.mantissaLowest == -(c.mantissaLowest * c.base);
    NormalFormFixed(c, c.mantissaLowest, c.exponentMax);
  }

  /** `ONE()`, taken as the conversion constructor on (1, 0); exponent 0 is
      always in range, so this is `normalize(1)` at exponent 0. ONE is exact
      or ZERO: it is ZERO exactly when `BASE^(−EXPONENT_LOWEST)` could still
      grow; otherwise it is `BASE^k × BASE^−k` with `k ≥ 0` and a mantissa
      that cannot grow further. It is defined here, apart from the other
      factories in `Fas`, because its contract rests on `UnderflowIff` and
      `GrowthExact`. */
  function One(c: Config): (r: Float)
    requires c.Valid()
    ensures r == Zero() <==> Growable(c, Pow(c.base, -c.exponentLowest))
    ensures r != Zero() ==>
      && r.exponent <= 0
      && r.mantissa == Pow(c.base, -r.exponent)
      && !c.MantissaInRange(r.mantissa * c.base)
  {
    assert 1 * Pow(c.base, -c.exponentLowest) == Pow(c.base, -c.exponentLowest);
    UnderflowIff(c, 1, 0);
    var n := Normalized(c, 1, 0);
    if n == Zero() then n
    else
      GrowthExact(c, 1, 0);
      assert 1 * Pow(c.base, -n.exponent) == Pow(c.base, -n.exponent);
      n
  }

  // ---------------------------------------------------------------------------
  // A concrete instantiation: base 2, mantissa in [-128, 127], exponent in [-8, 8]

  function Sample(): (c: Config)
    ensures c.Valid()
  {
    Config(2, -128, 127, -8, 8)
  }

  /** Worked examples of normalization for the sample instantiation. */
  lemma SampleScenarios()
    ensures Normalized(Sample(), 0, 5) == Zero()
    ensures Normalized(Sample(), 1, 0) == Of(64, -6)
    ensures Normalized(Sample(), 100, 0) == Of(100, 0)
    ensures Normalized(Sample(), 200, 0) == Of(100, 1)
    ensures Normalized(Sample(), 1, -5) == Zero()
    ensures One(Sample()) == Of(64, -6)
  {
    var c := Sample();
    assert TruncDiv(127, 2) == 63;
    assert GrowSteps(c, 64) == 0;
    assert GrowSteps(c, 32) == 1;
    assert GrowSteps(c, 16) == 2;
    assert GrowSteps(c, 8) == 3;
    assert GrowSteps(c, 4) == 4;
    assert GrowSteps(c, 2) == 5;
    assert GrowSteps(c, 1) == 6;
    assert Pow(2, 6) == 64;
    assert TruncDiv(200, 2) == 100;
    assert ShrinkSteps(c, 100) == 0;
    assert ShrinkSteps(c, 200) == 1;
    assert Pow(2, 1) == 2;
  }

  /** After shrinking, the result need not be maximal: -129 gives (-64, 1),
      although -64 × 2 is still in range and normalization itself stores the
      same number -128 as (-128, 0). So normalization is not idempotent:
      normalizing its own result (-64, 1) again gives (-128, 0). */
  lemma ShrinkNotMaximal()
    ensures Normalized(Sample(), -129, 0) == Of(-64, 1)
    ensures Sample().MantissaInRange(-64 * Sample().base)
    ensures Normalized(Sample(), -128, 0) == Of(-128, 0)
    ensures Normalized(Sample(), -64, 1) == Of(-128, 0)
  {
    var c := Sample();
    assert TruncDiv(-128, 2) == -64;
    assert TruncDiv(-129, 2) == -64;
    assert ShrinkSteps(c, -64) == 0;
    assert ShrinkSteps(c, -129) == 1;
    assert Pow(2, 1) == 2;
    assert GrowSteps(c, -128) == 0;
    assert GrowSteps(c, -64) == 1;
    NormalFormFixed(c, -128, 0);
  }

  /** A client of the conversion constructor on the sample instantiation. */
  method SampleConstruction(x: int)
  {
    var c := Sample();
    var r := Construct(c, x, 9);
    assert r == Inf();
    r := Construct(c, x, -9);
    assert r == NegativeInf();
    r := Construct(c, 0, 5);
    SampleScenarios();
    assert r == Zero();
    r := Construct(c, 200, 0);
    assert r == Of(100, 1);
  }
}
