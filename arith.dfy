/** Integer arithmetic the floating-point model needs beyond Dafny's own:
    C++ division, which truncates toward zero (Dafny's `/` is Euclidean),
    and natural powers of the base. */
module Arith {

  /** The quotient of C++ `a / b` for a positive divisor: truncated toward zero. */
  function TruncDiv(a: int, b: int): (q: int)
    requires b > 0
    ensures 0 <= a ==> 0 <= q && q * b <= a < q * b + b
    ensures a < 0 ==> q <= 0 && q * b - b < a <= q * b
    ensures b > 1 && a > 0 ==> q < a
    ensures b > 1 && a < 0 ==> a < q
  {
    if a >= 0 then
      DivBounds(a, b); a / b
    else
      DivBounds(-a, b);
      assert -((-a) / b) * b == -(((-a) / b) * b);
      -((-a) / b)
  }

  lemma TruncDivByOne(a: int)
    ensures TruncDiv(a, 1) == a
  {
    DivBounds(if a >= 0 then a else -a, 1);
  }

  /** `b` raised to the natural power `k`. */
  function Pow(b: int, k: nat): (r: int)
    requires b >= 1
    ensures r >= 1
    ensures k > 0 ==> r >= b
  {
    if k == 0 then
      1
    else
      MulMono(1, b, Pow(b, k - 1));
      MulMono(1, Pow(b, k - 1), b);
      b * Pow(b, k - 1)
  }

  lemma MulMono(a: int, b: int, c: int)
    requires a <= b && c >= 0
    ensures a * c <= b * c
  {
    assert b * c - a * c == (b - a) * c;
  }

  /** Euclidean division of a natural number: bounds of the quotient. */
  lemma DivBounds(x: int, b: int)
    requires x >= 0 && b > 0
    ensures 0 <= x / b && (x / b) * b <= x < (x / b) * b + b
    ensures b > 1 && x > 0 ==> x / b < x
  {
    var q, r := x / b, x % b;
    assert x == b * q + r && 0 <= r < b;
    if q < 0 {
      MulMono(q, -1, b);
      assert false;
    }
    assert q * b == b * q;
    if b > 1 && x > 0 && q >= x {
      MulMono(2, b, q);
      assert false;
    }
  }

  /** Euclidean division is determined by any decomposition with an in-range remainder. */
  lemma DivUnique(x: int, d: int, q: int, r: int)
    requires d > 0 && 0 <= r < d && x == d * q + r
    ensures x / d == q
  {
    var q', r' := x / d, x % d;
    assert x == d * q' + r' && 0 <= r' < d;
    assert d * q - d * q' == r' - r;
    assert d * q - d * q' == (q - q') * d;
    if q > q' {
      MulMono(1, q - q', d);
      assert false;
    } else if q < q' {
      MulMono(1, q' - q, d);
      assert false;
    }
  }

  /** Dividing a natural number twice is dividing it once by the product. */
  lemma NatDivTwice(x: int, b: int, p: int)
    requires x >= 0 && b > 0 && p > 0
    ensures (x / b) / p == x / (b * p)
  {
    var q, r := x / b, x % b;
    var q2, r2 := q / p, q % p;
    Decompose(x, b, p, q, r, q2, r2);
    DivUnique(x, b * p, q2, b * r2 + r);
  }

  /** Two nested Euclidean decompositions combine into one by the product. */
  lemma Decompose(x: int, b: int, p: int, q: int, r: int, q2: int, r2: int)
    requires b > 0 && p > 0
    requires x == b * q + r && 0 <= r < b
    requires q == p * q2 + r2 && 0 <= r2 < p
    ensures b * p > 0
    ensures x == (b * p) * q2 + (b * r2 + r) && 0 <= b * r2 + r < b * p
  {
    MulMono(1, b, p);
    Regroup(b, p, q, q2, r2);
    ScaledRemainder(b, p, r2);
  }

  lemma Regroup(b: int, p: int, q: int, q2: int, r2: int)
    requires q == p * q2 + r2
    ensures b * q == (b * p) * q2 + b * r2
  {
    assert b * (p * q2 + r2) == b * (p * q2) + b * r2;
    assert b * (p * q2) == (b * p) * q2;
  }

  lemma ScaledRemainder(b: int, p: int, r2: int)
    requires b > 0 && 0 <= r2 < p
    ensures 0 <= b * r2 <= b * p - b
  {
    MulMono(r2, p - 1, b);
    MulMono(0, r2, b);
    assert (p - 1) * b == b * p - b;
    assert r2 * b == b * r2;
  }

  /** Dividing twice with truncation is dividing once by the product. */
  lemma TruncDivTwice(a: int, b: int, p: int)
    requires b > 0 && p > 0
    ensures TruncDiv(TruncDiv(a, b), p) == TruncDiv(a, b * p)
  {
    MulMono(1, b, p);
    if a >= 0 {
      NatDivTwice(a, b, p);
    } else {
      NatDivTwice(-a, b, p);
      DivBounds(-a, b);
      if (-a) / b == 0 {
        assert TruncDiv(a, b) == 0;
      } else {
        assert TruncDiv(a, b) == -((-a) / b);
      }
    }
  }

  /** Multiplying by one more power of `b` is multiplying by `b` first. */
  lemma PowShift(v: int, b: int, k: nat)
    requires b >= 1
    ensures v * Pow(b, k + 1) == (v * b) * Pow(b, k)
  {
    assert Pow(b, k + 1) == b * Pow(b, k);
    assert v * (b * Pow(b, k)) == (v * b) * Pow(b, k);
  }
}
