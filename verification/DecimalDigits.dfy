/**
The decimal side of FormatBigFloatLiteral: finding the power of ten at a value, and the
integer of N digits nearest to it. A literal of N digits determines the p-bit number it was
written from when 10^(N-1) > 2^p.
 */
module DecimalDigits {
  import opened Powers
  import opened Reals
  import opened Rounding
  import opened Literals
  import opened BigNat
  import opened FloatArith

  /** 10^x <= v < 10^(x+1). */
  ghost predicate AtPower(v: real, x: int) {
    Exp(10, x) <= v < Exp(10, x + 1)
  }

  lemma {:induction false} AtPowerUnique(v: real, x: int, y: int)
    requires AtPower(v, x) && AtPower(v, y)
    ensures x == y
  {
    ExpOrder(10, x, y + 1);
    ExpOrder(10, y, x + 1);
  }

  lemma {:induction false} PowerBetween(v: real, lo: int, hi: int) returns (x: int)
    requires Exp(10, lo) <= v < Exp(10, hi)
    ensures AtPower(v, x)
    decreases hi - lo
  {
    ExpOrder(10, lo, hi);
    if hi == lo + 1 {
      x := lo;
    } else if v >= Exp(10, hi - 1) {
      x := hi - 1;
    } else {
      x := PowerBetween(v, lo, hi - 1);
    }
  }

  /** Every positive ratio has a decimal exponent. */
  lemma {:induction false} PowerExists(num: nat, den: nat) returns (x: int)
    requires num > 0 && den > 0
    ensures AtPower(Ratio(num, den), x)
  {
    hide Exp, Ratio;
    Tower(num);
    Tower(den);
    ExpNat(10, num);
    RatioOrderStrict(num, den, Pow(10, num), 1);
    RatioOrder(1, Pow(10, den), num, den);
    WholeRatio(Pow(10, num));
    OneOver(den);
    x := PowerBetween(Ratio(num, den), 0 - den, num);
  }

  lemma {:induction false} Tower(n: nat)
    ensures n < Pow(10, n)
    decreases n
  {
    if n > 0 {
      Tower(n - 1);
    }
  }

  lemma WholeRatio(n: nat)
    ensures Ratio(n, 1) == n as real
  {
  }

  lemma OneOver(n: nat)
    requires n > 0
    ensures Ratio(1, Pow(10, n)) == Exp(10, 0 - n)
  {
  }

  /** v in units of 10^(x-N+1): its first N digits before the point. */
  ghost function Shifted(v: real, n: nat, x: int): real {
    v * Exp(10, n - 1 - x)
  }

  lemma {:induction false} ShiftedRange(v: real, n: nat, x: int)
    requires n > 0
    ensures Shifted(v, n, x) >= Pow(10, n) as real <==> v >= Exp(10, x + 1)
    ensures Shifted(v, n, x) < Pow(10, n - 1) as real <==> v < Exp(10, x)
  {
    hide Exp;
    var w := Exp(10, n - 1 - x);
    ExpSplit(10, n, x + 1, n - 1 - x);
    ExpSplit(10, n - 1, x, n - 1 - x);
    ExpNat(10, n);
    ExpNat(10, n - 1);
    ScaledCompare(v, Exp(10, x + 1), w, Exp(10, n));
    ScaledCompare(v, Exp(10, x), w, Exp(10, n - 1));
  }

  /** Nearer to the exponent of v by one. */
  ghost function Distance(x: int, y: int): nat {
    if x < y then y - x else x - y
  }

  /** q and r divide a / divisor, the value in units of the last of its digits. */
  ghost predicate Divides(v: real, digits: nat, x: int, a: nat, divisor: nat, q: nat, r: nat) {
    divisor > 0 && q == a / divisor && r == a % divisor && Ratio(a, divisor) == Shifted(v, digits, x)
  }

  /**
   * Divides value * 10^(digits-1-x) until the quotient has that many digits. Any starting
   * estimate will do: each step moves x towards the exponent of the value.
   */
  method ScaleToDigits(num: Nat, den: Nat, digits: nat, estimate: int)
    returns (x: int, q: Nat, r: Nat, divisor: Nat, ghost a: nat)
    requires num.Valid() && den.Valid() && num.Value() > 0 && den.Value() > 0 && digits > 0
    ensures fresh(q) && q.Valid() && r.Valid() && divisor.Valid()
    ensures AtPower(Ratio(num.Value(), den.Value()), x)
    ensures Divides(Ratio(num.Value(), den.Value()), digits, x, a, divisor.Value(), q.Value(), r.Value())
    ensures Pow(10, digits - 1) <= q.Value() < Pow(10, digits)
  {
    hide Exp, Pow, Ratio, AtPower, Shifted, Divides;
    ghost var v := Ratio(num.Value(), den.Value());
    ghost var target := PowerExists(num.Value(), den.Value());
    var low := Nat.Pow10(digits - 1);
    var high := Nat.Pow10(digits);
    x := estimate;
    while true
      invariant low.Valid() && low.Value() == Pow(10, digits - 1)
      invariant high.Valid() && high.Value() == Pow(10, digits)
      decreases Distance(x, target)
    {
      q, r, divisor, a := DivideScaled(num, den, digits, x);
      SearchStep(v, digits, x, target, a, divisor.Value(), q.Value(), r.Value());
      var c := Nat.Cmp(q, high);
      if c >= 0 {
        x := x + 1;
      } else {
        c := Nat.Cmp(q, low);
        if c < 0 {
          x := x - 1;
        } else {
          break;
        }
      }
    }
  }

  method DivideScaled(num: Nat, den: Nat, digits: nat, x: int) returns (q: Nat, r: Nat, divisor: Nat, ghost a: nat)
    requires num.Valid() && den.Valid() && den.Value() > 0
    ensures fresh(q) && q.Valid() && r.Valid() && divisor.Valid()
    ensures Divides(Ratio(num.Value(), den.Value()), digits, x, a, divisor.Value(), q.Value(), r.Value())
  {
    hide Exp, Pow, Ratio, Shifted;
    var p := digits - 1 - x;
    var scaled := num;
    divisor := den;
    if p >= 0 {
      var power := Nat.Pow10(p);
      scaled := Nat.Mul(num, power);
    } else {
      var power := Nat.Pow10(-p);
      divisor := Nat.Mul(den, power);
    }
    a := scaled.Value();
    ShiftRatio(num.Value(), den.Value(), digits, x, a, divisor.Value());
    q, r := Nat.DivMod(scaled, divisor);
    DivUnique(a, divisor.Value(), q.Value(), r.Value());
  }

  lemma {:induction false} ShiftRatio(num: nat, den: nat, digits: nat, x: int, a: nat, d: nat)
    requires den > 0
    requires a == (if digits - 1 - x >= 0 then num * Pow(10, digits - 1 - x) else num)
    requires d == (if digits - 1 - x >= 0 then den else den * Pow(10, x + 1 - digits))
    ensures d > 0 && Ratio(a, d) == Shifted(Ratio(num, den), digits, x)
  {
    hide Ratio, Pow;
    var p := digits - 1 - x;
    if p >= 0 {
      UnitUp(num, den, Pow(10, p));
    } else {
      UnitDown(num, den, Pow(10, -p));
    }
  }

  /** What the quotient says about the exponent. */
  lemma {:induction false} SearchStep(v: real, digits: nat, x: int, target: int, a: nat, d: nat, q: nat, r: nat)
    requires digits > 0 && AtPower(v, target) && Divides(v, digits, x, a, d, q, r)
    ensures q >= Pow(10, digits) ==> x < target
    ensures q < Pow(10, digits - 1) ==> target < x
    ensures Pow(10, digits - 1) <= q < Pow(10, digits) ==> AtPower(v, x)
  {
    hide Exp, Ratio, Shifted;
    ShiftedRange(v, digits, x);
    FloorCompare(a, d, Pow(10, digits));
    FloorCompare(a, d, Pow(10, digits - 1));
    if v >= Exp(10, x + 1) {
      ExpOrder(10, x + 1, target + 1);
    }
    if v < Exp(10, x) {
      ExpOrder(10, target, x);
    }
  }

  lemma FloorCompare(a: nat, d: nat, k: nat)
    requires d > 0
    ensures a / d >= k <==> Ratio(a, d) >= k as real
  {
    RatioSplit(a, d);
    RatioBelowOne(a % d, d);
  }

  // ---- N digits determine p bits ----

  /**
   * The decimal d * 10^(x-n+1) nearest to a p-bit number m * 2^e, with n digits, rounds back to
   * that number when 10^(n-1) > 2^p.
   */
  lemma {:induction false} DigitsDetermine(p: nat, m: nat, e: int, n: nat, x: int, d: nat)
    requires p > 0 && n > 0 && Pow(2, p - 1) <= m < Pow(2, p) && Pow(2, p) < Pow(10, n - 1)
    requires AtPower(FloatValue(m, e), x) && d == RoundHalfEven(Shifted(FloatValue(m, e), n, x))
    ensures RoundsTo(Decimal(d, x - n + 1), p, m, e)
  {
    hide Exp, Shifted, RoundHalfEven, AtPower, RoundsTo, FloatValue, Decimal, Units;
    var v, lit := FloatValue(m, e), Decimal(d, x - n + 1);
    var u := Exp(10, x - n + 1);
    ShiftedError(v, n, x, d);
    UnitBelow(v, n, x, p);
    UnitsError(v, lit, m, e, u, p);
    CloseRounds(lit, p, m, e);
  }

  /** The decimal is within half a unit of its last digit. */
  lemma {:induction false} ShiftedError(v: real, n: nat, x: int, d: nat)
    requires d == RoundHalfEven(Shifted(v, n, x))
    ensures Abs(Decimal(d, x - n + 1) - v) <= 0.5 * Exp(10, x - n + 1)
  {
    hide Exp, RoundHalfEven, Abs;
    var z, lit := Shifted(v, n, x), Decimal(d, x - n + 1);
    var w, u := Exp(10, n - 1 - x), Exp(10, x - n + 1);
    ExpSplit(10, 0, n - 1 - x, x - n + 1);
    ExpNat(10, 0);
    TenToZero();
    RoundNear(z, d);
    NamedScaleBack(v, w, u, d as real, z, lit);
    AbsScaleTo(z - d as real, u, v - lit);
    AbsFlip(lit, v);
    ScaledBelow(Abs(z - d as real), 0.5, u, 0.5 * u);
  }

  lemma NamedScaleBack(v: real, w: real, u: real, d: real, z: real, lit: real)
    requires w * u == 1.0 && z == v * w && lit == d * u
    ensures v - lit == (z - d) * u
  {
    ScaleBack(v, w, u, d);
  }

  lemma AbsFlip(a: real, b: real)
    ensures Abs(a - b) == Abs(b - a)
  {
  }

  /** The last digit's unit is less than 2^-p of the value. */
  lemma {:induction false} UnitBelow(v: real, n: nat, x: int, p: nat)
    requires n > 0 && AtPower(v, x) && Pow(2, p) < Pow(10, n - 1)
    ensures (Pow(2, p) as real) * Exp(10, x - n + 1) < v
  {
    hide Exp;
    var u := Exp(10, x - n + 1);
    ExpSplit(10, x, n - 1, x - n + 1);
    ExpNat(10, n - 1);
    ScaledBelow(Pow(2, p) as real, Exp(10, n - 1), u, v);
  }

  /** In units of 2^e, the error is below half, and below a quarter at a power of two. */
  lemma {:induction false} UnitsError(v: real, lit: real, m: nat, e: int, u: real, p: nat)
    requires p > 0 && v == FloatValue(m, e) && Pow(2, p - 1) <= m < Pow(2, p) && u > 0.0
    requires Abs(lit - v) <= 0.5 * u && (Pow(2, p) as real) * u < v
    ensures Abs(Units(lit, e) - m as real) < 0.5
    ensures m == Pow(2, p - 1) ==> Units(lit, e) > m as real - 0.25
  {
    hide Exp, Abs, Units;
    var w, t := Exp(2, -e), Pow(2, p) as real;
    ExpCancel(2, e);
    ScaleBack(m as real, Exp(2, e), w, 0.0);
    UnitsAre(lit, e);
    UnitsErrorTerms(v, lit, m as real, u, w, t, Units(lit, e));
    AbsBounds(Units(lit, e) - m as real);
  }

  lemma UnitsAre(v: real, s: int)
    ensures Units(v, s) == v * Exp(2, -s)
  {
  }

  lemma UnitsErrorTerms(v: real, lit: real, m: real, u: real, w: real, t: real, z: real)
    requires w > 0.0 && t > 0.0 && v * w == m && z == lit * w
    requires Abs(lit - v) <= 0.5 * u && t * u < v
    ensures m < t ==> Abs(z - m) < 0.5
    ensures 2.0 * m == t ==> Abs(z - m) < 0.25
  {
    hide Abs;
    assert (lit - v) * w == lit * w - v * w;
    AbsScaleTo(lit - v, w, z - m);
    MulAssocReal(0.5, u, w);
    MulAssocReal(t, u, w);
    ScaledBelow(Abs(lit - v), 0.5 * u, w, 0.5 * (u * w));
    ScaledBelow(t * u, v, w, m);
    SmallUnit(t, u * w, m);
    HalfUnit(Abs(z - m), u * w);
  }

  lemma HalfUnit(a: real, z: real)
    requires a <= 0.5 * z
    ensures z < 1.0 ==> a < 0.5
    ensures z < 0.5 ==> a < 0.25
  {
  }

  lemma MulAssocReal(x: real, y: real, z: real)
    ensures (x * y) * z == x * (y * z)
  {
  }

  lemma SmallUnit(t: real, z: real, m: real)
    requires t > 0.0 && t * z < m
    ensures m < t ==> z < 1.0
    ensures 2.0 * m == t ==> z < 0.5
  {
    if z >= 1.0 {
      MulAtLeastOne(t, z);
    }
    if z >= 0.5 {
      MulAtLeastOne(t, 2.0 * z);
    }
  }

  lemma AbsBounds(x: real)
    ensures -Abs(x) <= x <= Abs(x)
  {
  }
}
