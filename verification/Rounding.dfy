/**
A binary floating-point number of p bits is a significand m with its top bit set,
2^(p-1) <= m < 2^p, times a power of two. This module says what it is to round an
exact number to p bits, half to even, and what that rounding guarantees.
 */
module Rounding {
  import opened Powers
  import opened Reals

  /** v is in [2^(p-1), 2^p) units of 2^s. */
  ghost predicate Scales(v: real, p: nat, s: int) {
    Exp(2, s + p - 1) <= v < Exp(2, s + p)
  }

  /** v in units of 2^s. */
  ghost function Units(v: real, s: int): real {
    v * Exp(2, -s)
  }

  /** At the scale s, the integer nearest v; a round up to 2^p becomes 2^(p-1) at the next scale. */
  ghost predicate RoundsAt(v: real, p: nat, s: int, m: nat, e: int)
    requires p > 0
  {
    && Scales(v, p, s)
    && var k := RoundHalfEven(Units(v, s));
       if k == Pow(2, p) then m == Pow(2, p - 1) && e == s + 1 else m == k && e == s
  }

  /** m * 2^e is v rounded to p bits, ties to even. */
  ghost predicate RoundsTo(v: real, p: nat, m: nat, e: int)
    requires p > 0
  {
    exists s: int :: RoundsAt(v, p, s, m, e)
  }

  ghost function FloatValue(m: nat, e: int): real {
    (m as real) * Exp(2, e)
  }

  // ---- Scales ----

  lemma {:induction false} ScalesUnique(v: real, p: nat, s: int, t: int)
    requires Scales(v, p, s) && Scales(v, p, t)
    ensures s == t
  {
    ExpOrder(2, s + p - 1, t + p);
    ExpOrder(2, t + p - 1, s + p);
  }

  /** Multiplying by a power of two and by its inverse. */
  lemma {:induction false} ExpCancel(b: nat, s: int)
    requires b > 0
    ensures Exp(b, s) * Exp(b, -s) == 1.0
  {
    ExpAdd(b, s, -s);
  }

  lemma {:induction false} ScaleDown(v: real, s: int, t: int)
    ensures v < Exp(2, t) <==> Units(v, s) < Exp(2, t - s)
    ensures Exp(2, t) <= v <==> Exp(2, t - s) <= Units(v, s)
  {
    hide Exp;
    ExpAdd(2, t, -s);
    CompareScaled(v, Exp(2, t), Exp(2, -s));
    CompareScaled(Exp(2, t), v, Exp(2, -s));
  }

  lemma {:induction false} ScaledRange(v: real, p: nat, s: int)
    requires p > 0
    ensures Scales(v, p, s) <==> Pow(2, p - 1) as real <= Units(v, s) < Pow(2, p) as real
  {
    ScaleDown(v, s, s + p - 1);
    ScaleDown(v, s, s + p);
    ExpNat(2, p - 1);
    ExpNat(2, p);
  }

  /** The rounded significand has exactly p bits. */
  lemma {:induction false} RoundsToBits(v: real, p: nat, m: nat, e: int)
    requires p > 0 && RoundsTo(v, p, m, e)
    ensures Pow(2, p - 1) <= m < Pow(2, p)
  {
    hide Exp, RoundHalfEven, Scales, Units;
    var s :| RoundsAt(v, p, s, m, e);
    ScaledRange(v, p, s);
    RoundBetween(Units(v, s), Pow(2, p - 1), Pow(2, p));
    PowStrict(2, p - 1, p);
  }

  /** A number rounds to one significand and exponent. */
  lemma {:induction false} RoundsToUnique(v: real, p: nat, m: nat, e: int, m': nat, e': int)
    requires p > 0 && RoundsTo(v, p, m, e) && RoundsTo(v, p, m', e')
    ensures m == m' && e == e'
  {
    hide Exp, Pow, RoundHalfEven, Scales, Units;
    var s :| RoundsAt(v, p, s, m, e);
    var t :| RoundsAt(v, p, t, m', e');
    ScalesUnique(v, p, s, t);
  }

  // ---- Nearest ----

  /** A carry into a new top bit does not change the value. */
  lemma {:induction false} RoundedValue(v: real, p: nat, s: int, m: nat, e: int)
    requires p > 0 && RoundsAt(v, p, s, m, e)
    ensures FloatValue(m, e) == (RoundHalfEven(Units(v, s)) as real) * Exp(2, s)
  {
    hide Exp, RoundHalfEven, Scales, Units;
    ExpStep(2, s);
    if e == s + 1 {
      MulReal(2, Pow(2, p - 1));
      HalfTwice(Pow(2, p - 1) as real, Exp(2, s));
    }
  }

  lemma HalfTwice(x: real, y: real)
    ensures x * (2.0 * y) == (2.0 * x) * y
  {
  }

  /**
   * Correct rounding: no p-bit number is nearer to v than the one it rounds to, and where
   * another is as near the integer v was rounded to at its own scale is even.
   */
  lemma {:induction false} RoundsToNearest(v: real, p: nat, s: int, m: nat, e: int, m': nat, e': int)
    requires p > 0 && RoundsAt(v, p, s, m, e) && Pow(2, p - 1) <= m' < Pow(2, p)
    ensures Abs(v - FloatValue(m, e)) <= Abs(v - FloatValue(m', e'))
    ensures Abs(v - FloatValue(m, e)) == Abs(v - FloatValue(m', e')) && FloatValue(m, e) != FloatValue(m', e')
        ==> RoundHalfEven(Units(v, s)) % 2 == 0
  {
    hide Exp, Pow, RoundHalfEven, FloatValue, Scales, Units, Abs;
    RoundedValue(v, p, s, m, e);
    if e' >= s {
      // m' * 2^e' is a whole number of units of 2^s.
      WholeUnits(m', e', s);
      var k := m' * Pow(2, e' - s);
      NearestWhole(v, s, k);
      assert FloatValue(m', e') == (k as real) * Exp(2, s);
    } else {
      // m' * 2^e' is below every p-bit number of v's scale.
      BelowScale(m', e', p, s);
      LowAtMost(v, p, s);
      NearestWhole(v, s, Pow(2, p - 1));
      FartherBelow(v, FloatValue(m, e), (Pow(2, p - 1) as real) * Exp(2, s), FloatValue(m', e'));
    }
  }

  lemma FartherBelow(v: real, a: real, low: real, f: real)
    requires f < low <= v && Abs(v - a) <= Abs(v - low)
    ensures Abs(v - a) < Abs(v - f)
  {
  }

  /** Of the whole numbers of units, none is nearer than the rounded one. */
  lemma {:induction false} NearestWhole(v: real, s: int, k: int)
    ensures var r := RoundHalfEven(Units(v, s));
            && Abs(v - (r as real) * Exp(2, s)) <= Abs(v - (k as real) * Exp(2, s))
            && (k != r && Abs(v - (r as real) * Exp(2, s)) == Abs(v - (k as real) * Exp(2, s)) ==> r % 2 == 0)
  {
    hide Exp, RoundHalfEven, Abs, Units;
    var x, r := Units(v, s), RoundHalfEven(Units(v, s));
    ErrorScaled(v, s, r as real);
    ErrorScaled(v, s, k as real);
    RoundNearest(x, k);
    CompareScaled(Abs(x - r as real), Abs(x - k as real), Exp(2, s));
    CompareScaled(Abs(x - k as real), Abs(x - r as real), Exp(2, s));
  }

  /** An error at scale s is the error in units of 2^s, times 2^s. */
  lemma {:induction false} ErrorScaled(v: real, s: int, k: real)
    ensures Abs(v - k * Exp(2, s)) == Abs(Units(v, s) - k) * Exp(2, s)
  {
    hide Exp;
    ExpCancel(2, s);
    var u, w := Exp(2, s), Exp(2, -s);
    assert (v * w - k) * u == v * (u * w) - k * u;
    AbsScale(v * w - k, u);
  }

  lemma AbsScale(x: real, u: real)
    requires u > 0.0
    ensures Abs(x * u) == Abs(x) * u
  {
    assert x * u < 0.0 <==> x < 0.0 by {
      CompareScaled(x, 0.0, u);
    }
  }

  lemma AbsScaleTo(x: real, u: real, z: real)
    requires u > 0.0 && z == x * u
    ensures Abs(z) == Abs(x) * u
  {
    AbsScale(x, u);
  }

  lemma {:induction false} WholeUnits(m: nat, e: int, s: int)
    requires e >= s
    ensures FloatValue(m, e) == ((m * Pow(2, e - s)) as real) * Exp(2, s)
  {
    hide Exp;
    ExpAdd(2, e - s, s);
    ExpNat(2, e - s);
    MulReal(m, Pow(2, e - s));
    assert (m as real) * ((Pow(2, e - s) as real) * Exp(2, s)) == ((m as real) * (Pow(2, e - s) as real)) * Exp(2, s);
  }

  lemma {:induction false} BelowScale(m: nat, e: int, p: nat, s: int)
    requires p > 0 && e < s && m < Pow(2, p)
    ensures FloatValue(m, e) < (Pow(2, p - 1) as real) * Exp(2, s)
  {
    hide Exp, Pow;
    ExpNat(2, p - 1);
    ExpNat(2, p);
    ExpAdd(2, p - 1, s);
    ExpAdd(2, p, e);
    CompareScaled(m as real, Exp(2, p), Exp(2, e));
    assert FloatValue(m, e) < Exp(2, p + e);
    ExpMonotone(2, p + e, p - 1 + s);
  }

  lemma {:induction false} LowAtMost(v: real, p: nat, s: int)
    requires p > 0 && Scales(v, p, s)
    ensures (Pow(2, p - 1) as real) * Exp(2, s) <= v
  {
    hide Exp, Pow;
    ExpNat(2, p - 1);
    ExpAdd(2, p - 1, s);
  }

  // ---- Numbers close to a p-bit number ----

  /**
   * A number within half a unit of m * 2^e rounds to it; below a power of two, where the
   * units are half as wide, within a quarter.
   */
  lemma {:induction false} CloseRounds(v: real, p: nat, m: nat, e: int)
    requires p > 0 && Pow(2, p - 1) <= m < Pow(2, p)
    requires Abs(Units(v, e) - m as real) < 0.5
    requires m == Pow(2, p - 1) ==> Units(v, e) > m as real - 0.25
    ensures RoundsTo(v, p, m, e)
  {
    hide Exp, RoundHalfEven, Scales, RoundsAt, Units;
    var x := Units(v, e);
    if x >= Pow(2, p - 1) as real {
      ScaledRange(v, p, e);
      RoundNear(x, m);
      RoundsWithin(v, p, e, m);
    } else {
      // Just below 2^(p-1) units: half the scale, where v rounds up to 2^p.
      DoubleUnits(v, e);
      ScaledRange(v, p, e - 1);
      RoundNear(Units(v, e - 1), Pow(2, p));
      RoundsCarry(v, p, e - 1);
    }
  }

  lemma RoundsWithin(v: real, p: nat, s: int, m: nat)
    requires p > 0 && Scales(v, p, s) && RoundHalfEven(Units(v, s)) == m < Pow(2, p)
    ensures RoundsAt(v, p, s, m, s)
  {
  }

  lemma RoundsCarry(v: real, p: nat, s: int)
    requires p > 0 && Scales(v, p, s) && RoundHalfEven(Units(v, s)) == Pow(2, p)
    ensures RoundsAt(v, p, s, Pow(2, p - 1), s + 1)
  {
  }

  lemma {:induction false} DoubleUnits(v: real, e: int)
    ensures Units(v, e - 1) == 2.0 * (Units(v, e))
  {
    ExpStep(2, -e);
    HalfTwice(v, Exp(2, -e));
  }

  /** A p-bit number rounds to itself. */
  lemma {:induction false} ExactRounds(p: nat, m: nat, e: int)
    requires p > 0 && Pow(2, p - 1) <= m < Pow(2, p)
    ensures RoundsTo(FloatValue(m, e), p, m, e)
  {
    hide Exp, Pow, RoundsTo;
    ExpCancel(2, e);
    assert Units(FloatValue(m, e), e) == m as real;
    CloseRounds(FloatValue(m, e), p, m, e);
  }
}
