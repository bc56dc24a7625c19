/**
Exact rational arithmetic for the specifications: powers with negative exponents,
and rounding a number to an integer, half to even.
 */
module Reals {
  import opened Powers

  /** b to the power e, for any integer e. */
  ghost function Exp(b: nat, e: int): (r: real)
    requires b > 0
    ensures r > 0.0
  {
    if e >= 0 then Pow(b, e) as real else 1.0 / (Pow(b, -e) as real)
  }

  lemma {:induction false} ExpAdd(b: nat, x: int, y: int)
    requires b > 0
    ensures Exp(b, x + y) == Exp(b, x) * Exp(b, y)
  {
    hide Exp;
    if x >= 0 && y >= 0 {
      ExpAddNat(b, x, y);
    } else if x < 0 && y < 0 {
      ExpAddNegative(b, -x, -y);
    } else if x < 0 {
      ExpAddMixed(b, y, -x);
    } else {
      ExpAddMixed(b, x, -y);
    }
  }

  /** The same, with the sum named. */
  lemma ExpSplit(b: nat, z: int, x: int, y: int)
    requires b > 0 && z == x + y
    ensures Exp(b, z) == Exp(b, x) * Exp(b, y)
  {
    ExpAdd(b, x, y);
  }

  lemma ExpAddNat(b: nat, x: nat, y: nat)
    requires b > 0
    ensures Exp(b, x + y) == Exp(b, x) * Exp(b, y)
  {
    PowAdd(b, x, y);
    MulReal(Pow(b, x), Pow(b, y));
  }

  lemma ExpAddNegative(b: nat, x: int, y: int)
    requires b > 0 && x > 0 && y > 0
    ensures Exp(b, -x - y) == Exp(b, -x) * Exp(b, -y)
  {
    PowAdd(b, x, y);
    MulReal(Pow(b, x), Pow(b, y));
    MulInverses(Pow(b, x) as real, Pow(b, y) as real);
    assert Exp(b, -x - y) == 1.0 / (Pow(b, x + y) as real);
  }

  lemma ExpAddMixed(b: nat, x: int, y: int)
    requires b > 0 && x >= 0 && y > 0
    ensures Exp(b, x - y) == Exp(b, x) * Exp(b, -y)
    ensures Exp(b, x - y) == Exp(b, -y) * Exp(b, x)
  {
    assert Exp(b, -y) == 1.0 / (Pow(b, y) as real);
    if x >= y {
      PowAdd(b, x - y, y);
      MulReal(Pow(b, x - y), Pow(b, y));
      DivReal(Pow(b, x - y) as real, Pow(b, y) as real);
    } else {
      PowAdd(b, y - x, x);
      MulReal(Pow(b, y - x), Pow(b, x));
      DivReal2(Pow(b, y - x) as real, Pow(b, x) as real);
    }
  }

  lemma MulReal(x: int, y: int)
    ensures (x * y) as real == (x as real) * (y as real)
  {
  }

  lemma MulInverses(x: real, y: real)
    requires x > 0.0 && y > 0.0
    ensures x * y > 0.0 && 1.0 / (x * y) == (1.0 / x) * (1.0 / y)
  {
    var p := (1.0 / x) * (1.0 / y);
    assert p * (x * y) == ((1.0 / x) * x) * ((1.0 / y) * y);
  }

  lemma DivReal(z: real, y: real)
    requires y > 0.0
    ensures (z * y) * (1.0 / y) == z
  {
    assert (z * y) * (1.0 / y) == z * (y * (1.0 / y));
  }

  lemma DivReal2(x: real, y: real)
    requires x > 0.0 && y > 0.0
    ensures x * y > 0.0 && y * (1.0 / (x * y)) == 1.0 / x
  {
    MulInverses(x, y);
    assert y * ((1.0 / x) * (1.0 / y)) == (1.0 / x) * (y * (1.0 / y));
  }

  lemma {:induction false} ExpStep(b: nat, e: int)
    requires b > 0
    ensures Exp(b, e + 1) == (b as real) * Exp(b, e)
  {
    ExpAdd(b, 1, e);
    assert Pow(b, 1) == b * Pow(b, 0) == b;
  }

  lemma {:induction false} ExpMonotone(b: nat, x: int, y: int)
    requires b > 0 && x <= y
    ensures Exp(b, x) <= Exp(b, y)
  {
    hide Exp;
    ExpAdd(b, x, y - x);
    ExpNat(b, y - x);
    MulAtLeastOne(Exp(b, x), Exp(b, y - x));
  }

  lemma ExpNat(b: nat, e: nat)
    requires b > 0
    ensures Exp(b, e) == Pow(b, e) as real >= 1.0
  {
  }

  lemma MulAtLeastOne(x: real, y: real)
    requires x > 0.0 && y >= 1.0
    ensures x * y >= x
  {
    assert x * (y - 1.0) >= 0.0;
  }

  /** Powers in order have exponents in order. */
  lemma {:induction false} ExpOrder(b: nat, x: int, y: int)
    requires b > 0 && Exp(b, x) < Exp(b, y)
    ensures x < y
  {
    if y <= x {
      ExpMonotone(b, y, x);
    }
  }

  ghost function Abs(x: real): real {
    if x < 0.0 then -x else x
  }

  /** The integer nearest x, the even one of two. */
  ghost function RoundHalfEven(x: real): int {
    var f := x.Floor;
    var r := x - f as real;
    if r > 0.5 || (r == 0.5 && f % 2 != 0) then f + 1 else f
  }

  lemma RoundNear(x: real, k: int)
    ensures Abs(x - k as real) < 0.5 ==> RoundHalfEven(x) == k
    ensures Abs(x - RoundHalfEven(x) as real) <= 0.5
    ensures Abs(x - RoundHalfEven(x) as real) == 0.5 ==> RoundHalfEven(x) % 2 == 0
  {
  }

  /** No integer is nearer, and another as near means a tie, which goes to the even one. */
  lemma RoundNearest(x: real, k: int)
    ensures Abs(x - RoundHalfEven(x) as real) <= Abs(x - k as real)
    ensures k != RoundHalfEven(x) && Abs(x - RoundHalfEven(x) as real) == Abs(x - k as real)
        ==> RoundHalfEven(x) % 2 == 0 && k % 2 != 0
  {
    RoundNear(x, k);
  }

  /** Rounding keeps order against an integer. */
  lemma RoundBetween(x: real, lo: int, hi: int)
    requires lo as real <= x <= hi as real
    ensures lo <= RoundHalfEven(x) <= hi
  {
  }

  // ---- Ratios of integers ----

  ghost function Ratio(n: nat, d: nat): real
    requires d > 0
  {
    (n as real) / (d as real)
  }

  lemma RatioSplit(n: nat, d: nat)
    requires d > 0
    ensures Ratio(n, d) == (n / d) as real + Ratio(n % d, d)
  {
    var q, r := n / d, n % d;
    assert n == q * d + r;
    MulReal(q, d);
    RatioSum(q as real, r as real, d as real);
  }

  lemma RatioSum(q: real, r: real, d: real)
    requires d > 0.0
    ensures (q * d + r) / d == q + r / d
  {
    assert (q + r / d) * d == q * d + (r / d) * d == q * d + r;
    CancelReal((q * d + r) / d, q + r / d, d);
  }

  lemma CancelReal(x: real, y: real, d: real)
    requires d > 0.0 && x * d == y * d
    ensures x == y
  {
    if x < y {
      CompareScaled(x, y, d);
    } else if y < x {
      CompareScaled(y, x, d);
    }
  }

  lemma RatioBelowOne(r: nat, d: nat)
    requires r < d
    ensures 0.0 <= Ratio(r, d) < 1.0
  {
    RatioCompare(r, d, 1, 1);
    RatioCompare(0, 1, r, d);
    assert Ratio(1, 1) == 1.0 && Ratio(0, 1) == 0.0;
  }

  /** Comparing a ratio with an integer, and a half, by multiplying out. */
  lemma RatioCompare(n: nat, d: nat, m: nat, c: nat)
    requires d > 0 && c > 0
    ensures Ratio(n, d) <= Ratio(m, c) <==> n * c <= m * d
    ensures Ratio(n, d) < Ratio(m, c) <==> n * c < m * d
  {
    var x, y := Ratio(n, d), Ratio(m, c);
    var dc := (d as real) * (c as real);
    assert x * dc == ((n as real) / (d as real) * (d as real)) * (c as real) == (n * c) as real by {
      MulReal(n, c);
      assert x * dc == (x * (d as real)) * (c as real);
    }
    assert y * dc == (m * d) as real by {
      MulReal(m, d);
      assert y * dc == (y * (c as real)) * (d as real);
    }
    CompareScaled(x, y, dc);
  }

  /** A product below another that is below a bound. */
  lemma ScaledBelow(x: real, y: real, k: real, bound: real)
    requires k > 0.0 && y * k <= bound
    ensures x < y ==> x * k < bound
    ensures x <= y ==> x * k <= bound
  {
    CompareScaled(x, y, k);
    if x < y {
      LessLe(x * k, y * k, bound);
    }
  }

  lemma LessLe(a: real, b: real, c: real)
    requires a < b <= c
    ensures a < c
  {
  }

  /** Comparing a product with a product that has a name. */
  lemma ScaledCompare(v: real, e: real, w: real, p: real)
    requires w > 0.0 && p == e * w
    ensures v * w >= p <==> v >= e
    ensures v * w < p <==> v < e
  {
    CompareScaled(e, v, w);
    CompareScaled(v, e, w);
  }

  /** Multiplying by w and by its inverse u. */
  lemma ScaleBack(v: real, w: real, u: real, d: real)
    requires w * u == 1.0
    ensures (v * w) * u == v
    ensures (v * w - d) * u == v - d * u
  {
    assert (v * w) * u == v * (w * u);
    assert (v * w - d) * u == (v * w) * u - d * u;
  }

  lemma CompareScaled(x: real, y: real, k: real)
    requires k > 0.0
    ensures x <= y <==> x * k <= y * k
    ensures x < y <==> x * k < y * k
  {
    if x < y {
      assert (y - x) * k > 0.0;
    } else if y < x {
      assert (x - y) * k > 0.0;
    }
  }

  /** Rounding a ratio is deciding on twice the remainder. */
  function RoundRatio(n: nat, d: nat): nat
    requires d > 0
  {
    var q, r := n / d, n % d;
    if 2 * r > d || (2 * r == d && q % 2 != 0) then q + 1 else q
  }

  lemma RoundRatioIs(n: nat, d: nat)
    requires d > 0
    ensures RoundHalfEven(Ratio(n, d)) == RoundRatio(n, d)
  {
    RatioSplit(n, d);
    RatioBelowOne(n % d, d);
    RatioCompare(n % d, d, 1, 2);
    RatioCompare(1, 2, n % d, d);
    assert Ratio(1, 2) == 0.5;
  }
}
