/**
The limits of src/pxf/bigfloat.cc, said of values: which magnitudes fit an exponent bound, how many digits a
literal counts, and that the early checks of ParseBigFloatLiteral bar nothing that the last one admits.
 */
module BigFloatLimits {
  import opened Powers
  import opened Bits
  import opened DecimalText
  import opened Reals
  import opened Rounding
  import opened Precision
  import opened Literals
  import opened BigFloatParse
  import opened BigFloatFormat
  import opened BigFloatLayout

  // ---- Magnitudes ----

  /** A magnitude from 2^(-bound-1) up to 2^bound. */
  ghost predicate InRange(v: real, bound: int) {
    Exp(2, -bound - 1) <= v < Exp(2, bound)
  }

  lemma BinaryRange(v: real, e: int, bound: int)
    requires Exp(2, e - 1) <= v < Exp(2, e)
    ensures !ExceedsBound(e, bound) <==> InRange(v, bound)
  {
    hide Exp;
    if e <= bound {
      ExpMonotone(2, e, bound);
    } else {
      ExpMonotone(2, bound, e - 1);
    }
    if -bound <= e {
      ExpMonotone(2, -bound - 1, e - 1);
    } else {
      ExpMonotone(2, e, -bound - 1);
    }
  }

  lemma {:induction false} RoundedAt(v: real, prec: nat, m: nat, e: int)
    requires prec > 0 && RoundsTo(v, prec, m, e)
    ensures Exp(2, e + prec - 1) <= FloatValue(m, e) < Exp(2, e + prec)
  {
    hide Exp, Pow, RoundsTo;
    RoundsToBits(v, prec, m, e);
    ExpNat(2, prec - 1);
    ExpNat(2, prec);
    ExpSplit(2, e + prec - 1, prec - 1, e);
    ExpSplit(2, e + prec, prec, e);
    CompareScaled(Exp(2, prec - 1), m as real, Exp(2, e));
    CompareScaled(m as real, Exp(2, prec), Exp(2, e));
  }

  /** A literal's value fits exactly when, rounded, it is in the range and its exponent has 32 bits. */
  lemma FitsIs(v: real, prec: nat, bound: int)
    requires prec > 0
    ensures Fits(v, prec, bound) <==>
            exists m, e :: RoundsTo(v, prec, m, e) && InRange(FloatValue(m, e), bound) && e >= INT32_MIN
  {
    hide RoundsTo, FloatValue, InRange;
    if Fits(v, prec, bound) {
      var m, e :| RoundsTo(v, prec, m, e) && -bound <= e + prec <= bound && e >= INT32_MIN;
      RoundedAt(v, prec, m, e);
      BinaryRange(FloatValue(m, e), e + prec, bound);
    }
    if exists m, e :: RoundsTo(v, prec, m, e) && InRange(FloatValue(m, e), bound) && e >= INT32_MIN {
      var m, e :| RoundsTo(v, prec, m, e) && InRange(FloatValue(m, e), bound) && e >= INT32_MIN;
      RoundedAt(v, prec, m, e);
      BinaryRange(FloatValue(m, e), e + prec, bound);
    }
  }

  lemma {:induction false} StoredAt(f: BigFloatFields)
    requires Mantissa(f) > 0
    ensures var e := f.exponent + BitLength(Mantissa(f)); Exp(2, e - 1) <= Stored(f) < Exp(2, e)
  {
    hide Exp, BitLength, Mantissa;
    FloatBounds(Mantissa(f), f.exponent, f.exponent + BitLength(Mantissa(f)));
  }

  /** A value is past no limit exactly when it is in the range, stored and rounded, and its digits are admitted. */
  lemma {:induction false} LimitsAre(f: BigFloatFields, maxDigits: int, bound: int, m: nat, e: int)
    requires f.prec > 0 && (Mantissa(f) > 0 ==> RoundsTo(Stored(f), f.prec, m, e))
    ensures FirstLimit(f, maxDigits, bound, NoLimit) <==>
            && (Mantissa(f) > 0 ==> InRange(Stored(f), bound) && InRange(FloatValue(m, e), bound))
            && BigFloatPrecDigits(f.prec) <= maxDigits
  {
    hide RoundsTo, FloatValue, InRange, Stored, Mantissa, BitLength, BigFloatPrecDigits;
    if Mantissa(f) > 0 {
      StoredAt(f);
      BinaryRange(Stored(f), f.exponent + BitLength(Mantissa(f)), bound);
      RoundedAt(Stored(f), f.prec, m, e);
      BinaryRange(FloatValue(m, e), e + f.prec, bound);
      forall m', e' | RoundsTo(Stored(f), f.prec, m', e')
        ensures e' == e
      {
        RoundsToUnique(Stored(f), f.prec, m, e, m', e');
      }
    }
  }

  // ---- Digits ----

  /** The significant digits a literal counts: as many as its digits make a number of. */
  lemma {:induction false} CountIs(p: Parts)
    requires WellFormed(p)
    ensures var n, d := CountDigits(Text(p), true), DecValue(Significant(p));
            if d == 0 then n == 0 else n > 0 && Pow(10, n - 1) <= d < Pow(10, n)
  {
    hide CountDigits, DecValue, Pow, ExponentText;
    var sig := Significant(p);
    CountText(p);
    var k := LeadingZeros(sig);
    assert sig == Zeros(k) + sig[k..];
    DecZeros(k, sig[k..]);
    CountSplit(sig, k);
    if k == |sig| {
      NoDigitsLeft(sig[k..]);
    } else {
      DecBound(sig[k..]);
      DecLower(sig[k..]);
    }
  }

  lemma NoDigitsLeft(s: string)
    requires s == ""
    ensures DecValue(s) == 0
  {
  }

  /** Digits count once one that is not zero has come. */
  lemma {:induction false} CountSplit(d: string, k: nat)
    requires AllDigits(d) && k <= |d| && d[..k] == Zeros(k) && (k < |d| ==> d[k] != '0')
    ensures CountDigits(d, true) == |d| - k
  {
    hide CountDigits;
    assert d == Zeros(k) + d[k..];
    CountZeros(k, d[k..]);
    CountPlain(d[k..], true);
  }

  lemma {:induction false} CountPlain(d: string, leading: bool)
    requires AllDigits(d) && (leading && d != "" ==> d[0] != '0')
    ensures CountDigits(d, leading) == |d|
    decreases |d|
  {
    if d != "" {
      CountPlain(d[1..], false);
    }
  }

  /** The sign, the point and the exponent count for nothing. */
  lemma {:induction false} CountText(p: Parts)
    requires WellFormed(p)
    ensures CountDigits(Text(p), true) == CountDigits(Significant(p), true)
  {
    hide CountDigits, ExponentText;
    var x := ExponentText(p.exponent);
    var rest := p.whole + TailText(p);
    if p.sign != "" {
      assert p.sign == [p.sign[0]];
      CountSkip(p.sign[0], rest, true);
    } else {
      assert p.sign + rest == rest;
    }
    ExponentCounts(p.exponent, true);
    ExponentCounts(p.exponent, false);
    CountAcross(p.whole, p.point, p.frac, x, true);
  }

  lemma ExponentCounts(e: Exponent, leading: bool)
    requires WellFormedExponent(e)
    ensures CountDigits(ExponentText(e), leading) == 0
  {
  }

  lemma {:induction false} CountAcross(w: string, point: bool, frac: string, x: string, leading: bool)
    requires AllDigits(w) && AllDigits(frac) && (!point ==> frac == "")
    requires CountDigits(x, true) == 0 && CountDigits(x, false) == 0
    ensures CountDigits(w + (if point then "." + (frac + x) else x), leading) == CountDigits(w + frac, leading)
    decreases |w|
  {
    var tail := if point then "." + (frac + x) else x;
    if w == "" {
      assert w + tail == tail && w + frac == frac;
      CountBefore(frac, x, leading);
      if point {
        CountSkip('.', frac + x, leading);
      } else {
        assert frac + x == x;
      }
    } else {
      assert (w + tail)[0] == w[0] && (w + tail)[1..] == w[1..] + tail;
      assert (w + frac)[0] == w[0] && (w + frac)[1..] == w[1..] + frac;
      CountAcross(w[1..], point, frac, x, leading && w[0] == '0');
    }
  }

  lemma {:induction false} CountBefore(d: string, x: string, leading: bool)
    requires AllDigits(d) && CountDigits(x, true) == 0 && CountDigits(x, false) == 0
    ensures CountDigits(d + x, leading) == CountDigits(d, leading)
    decreases |d|
  {
    if d == "" {
      assert d + x == x;
    } else {
      assert (d + x)[0] == d[0] && (d + x)[1..] == d[1..] + x;
      CountBefore(d[1..], x, leading && d[0] == '0');
    }
  }

  // ---- The early checks ----

  /** Rounding to fewer bits gives the same binary exponent or the next. */
  lemma {:induction false} FewerBits(v: real, p: nat, q: nat, m: nat, e: int, m': nat, e': int)
    requires 0 < p <= q && RoundsTo(v, q, m, e) && RoundsTo(v, p, m', e')
    ensures e + q <= e' + p <= e + q + 1
  {
    hide Exp, Pow, RoundHalfEven, Units, Scales;
    var s :| RoundsAt(v, q, s, m, e);
    var t :| RoundsAt(v, p, t, m', e');
    SameTop(v, q, s, p, t);
    if e == s + 1 {
      CarriesToo(v, q, s, p, t);
    }
  }

  lemma SameTop(v: real, q: nat, s: int, p: nat, t: int)
    requires Scales(v, q, s) && Scales(v, p, t)
    ensures s + q == t + p
  {
    ExpOrder(2, s + q - 1, t + p);
    ExpOrder(2, t + p - 1, s + q);
  }

  /** What carries at q bits is within half a unit of the next power of two, and so carries at fewer. */
  lemma {:induction false} CarriesToo(v: real, q: nat, s: int, p: nat, t: int)
    requires 0 < p <= q && s + q == t + p && RoundHalfEven(Units(v, s)) == Pow(2, q) && Scales(v, p, t)
    ensures RoundHalfEven(Units(v, t)) == Pow(2, p)
  {
    hide Exp, Pow, Scales;
    var x, y := Units(v, s), Units(v, t);
    var u := Exp(2, t - s);
    ExpNat(2, t - s);
    UnitsShift(v, s, t);
    assert x == y * u;
    ExpNat(2, p);
    ExpNat(2, q);
    ExpSplit(2, q, p, t - s);
    assert x >= Pow(2, q) as real - 0.5;
    CloseToo(y, u, Pow(2, p) as real);
    ScaledRange(v, p, t);
    EvenPower(p);
    RoundsUpTo(y, Pow(2, p));
  }

  lemma EvenPower(p: nat)
    requires p > 0
    ensures Pow(2, p) % 2 == 0
  {
  }

  lemma {:induction false} UnitsShift(v: real, s: int, t: int)
    ensures Units(v, s) == Units(v, t) * Exp(2, t - s)
  {
    hide Exp;
    ExpSplit(2, -s, -t, t - s);
    assert v * (Exp(2, -t) * Exp(2, t - s)) == (v * Exp(2, -t)) * Exp(2, t - s);
  }

  lemma CloseToo(y: real, u: real, k: real)
    requires u >= 1.0 && y * u >= k * u - 0.5
    ensures y >= k - 0.5
  {
    CompareScaled(y, k - 0.5, u);
    assert (k - 0.5) * u == k * u - 0.5 * u;
  }

  lemma RoundsUpTo(y: real, k: int)
    requires k as real - 0.5 <= y < k as real && k % 2 == 0
    ensures RoundHalfEven(y) == k
  {
    RoundNear(y, k);
    RoundNearest(y, k);
  }

  /** The answer of a parser that rounds correctly, to the precision or to the cap on it. */
  ghost predicate CorrectGate(gate: Gate, v: real, prec: nat)
    requires prec > 0
  {
    && gate.scans && gate.parses && gate.form == Finite
    && exists m, e :: RoundsTo(v, Capped(prec), m, e) && gate.exp == e + Capped(prec)
  }

  function Capped(prec: nat): nat {
    if prec > CHECK_PREC then CHECK_PREC else prec
  }

  /** Behind such a parser, the early checks bar nothing that fits. */
  lemma GateBarsNothing(gate: Gate, v: real, prec: nat, bound: int)
    requires 0 < prec <= INT32_MAX && bound >= 0 && CorrectGate(gate, v, prec) && Fits(v, prec, bound)
    ensures GateOpen(gate, prec, bound)
  {
    hide RoundsTo;
    var m, e :| RoundsTo(v, prec, m, e) && -bound <= e + prec <= bound && e >= INT32_MIN;
    var m', e' :| RoundsTo(v, Capped(prec), m', e') && gate.exp == e' + Capped(prec);
    FewerBits(v, Capped(prec), prec, m, e, m', e');
    if prec <= CHECK_PREC {
      RoundsToUnique(v, prec, m, e, m', e');
    }
  }
}
