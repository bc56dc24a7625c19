/**
The text of a BigFloat told by its looks alone: a literal in the style of C's %g, of which each value has
exactly one. What FormatBigFloatLiteral of src/pxf/bigfloat.cc writes is that literal.
 */
module BigFloatShape {
  import opened Powers
  import opened DecimalText
  import opened Reals
  import opened Rounding
  import opened Precision
  import opened Literals
  import opened BigFloatParse
  import opened BigFloatFormat
  import opened BigFloatLayout
  import opened BigFloatRoundTrip
  import opened BigFloatText
  import DecimalWire

  /** No zero is written that could be left out. */
  predicate Tight(p: Parts) {
    && (p.point <==> p.frac != "") && (p.frac != "" ==> p.frac[|p.frac| - 1] != '0')
    && p.whole != "" && (p.whole[0] == '0' ==> p.whole == "0")
  }

  /** One digit, not zero, before the point; a sign and two digits or more in the exponent. */
  predicate Scientific(p: Parts) {
    && p.exponent.Exponent? && |p.whole| == 1 && p.whole != "0"
    && p.exponent.mark == 'e' && p.exponent.sign != ""
    && (|p.exponent.digits| == 2 || (|p.exponent.digits| > 2 && p.exponent.digits[0] != '0'))
  }

  /** Positional exactly from 10^-4 up to 10^n. */
  ghost predicate Shaped(p: Parts, n: nat)
    requires WellFormed(p)
  {
    && Tight(p)
    && if Exp(10, -4) <= Magnitude(p) < Exp(10, n) then p.exponent.NoExponent? else Scientific(p)
  }

  // ---- The layout has the shape ----

  /** d * 10^(x - |d| + 1) is at the power x of ten. */
  lemma {:induction false} DigitsAtPower(d: string, x: int)
    requires AllDigits(d) && d != "" && d[0] != '0'
    ensures Exp(10, x) <= Decimal(DecValue(d), x - |d| + 1) < Exp(10, x + 1)
  {
    hide Exp, DecValue, Pow;
    var e := x - |d| + 1;
    DecLower(d);
    DecBound(d);
    ExpNat(10, |d| - 1);
    ExpNat(10, |d|);
    ExpSplit(10, x, |d| - 1, e);
    ExpSplit(10, x + 1, |d|, e);
    CompareScaled(Exp(10, |d| - 1), DecValue(d) as real, Exp(10, e));
    CompareScaled(DecValue(d) as real, Exp(10, |d|), Exp(10, e));
  }

  /** Between which powers of ten a number lies that is at the power x. */
  lemma PowerBounds(w: real, x: int, lo: int, hi: int)
    requires Exp(10, x) <= w < Exp(10, x + 1)
    ensures Exp(10, lo) <= w <==> lo <= x
    ensures w < Exp(10, hi) <==> x < hi
  {
    hide Exp;
    if lo <= x {
      ExpMonotone(10, lo, x);
    } else {
      ExpMonotone(10, x + 1, lo);
    }
    if x < hi {
      ExpMonotone(10, x + 1, hi);
    } else {
      ExpMonotone(10, hi, x);
    }
  }

  lemma TwoDigitsShape(n: nat)
    ensures |TwoDigits(n)| == 2 || (|TwoDigits(n)| > 2 && TwoDigits(n)[0] != '0')
  {
  }

  lemma LayoutTight(sign: string, d: string, x: int, n: nat)
    requires OptSign(sign) && AllDigits(d) && d != "" && d[0] != '0' && d[|d| - 1] != '0'
    ensures Tight(Layout(sign, d, x, n))
  {
  }

  lemma {:induction false} LayoutShaped(sign: string, d: string, x: int, n: nat)
    requires OptSign(sign) && AllDigits(d) && d != "" && d[0] != '0' && d[|d| - 1] != '0'
    ensures Shaped(Layout(sign, d, x, n), n)
  {
    hide Exp, DecValue, Decimal, Magnitude, Tight, TwoDigits;
    LayoutMagnitude(sign, d, x, n);
    LayoutTight(sign, d, x, n);
    DigitsAtPower(d, x);
    PowerBounds(Magnitude(Layout(sign, d, x, n)), x, -4, n);
    TwoDigitsShape(if x < 0 then -x else x);
  }

  // ---- The shape has one literal for each value ----

  /** Two numbers without a trailing zero, scaled, are equal only as they stand. */
  lemma {:induction false} SameScale(d: nat, a: int, d': nat, b: int)
    requires d % 10 != 0 && d' % 10 != 0 && Decimal(d, a) == Decimal(d', b)
    ensures d == d' && a == b
  {
    hide Decimal;
    if a >= b {
      DecimalWire.LowerScale(d, 0 - a, d', 0 - b);
    } else {
      DecimalWire.LowerScale(d', 0 - b, d, 0 - a);
    }
    PowZero();
  }

  /** d holds the digits of p, no zero at either end, and x the power of ten of the first. */
  ghost predicate DigitsOf(p: Parts, d: string, x: int)
    requires WellFormed(p)
  {
    && AllDigits(d) && d != "" && d[0] != '0' && d[|d| - 1] != '0'
    && Magnitude(p) == Decimal(DecValue(d), x - |d| + 1)
  }

  lemma TwoDigitsUnique(s: string)
    requires AllDigits(s) && (|s| == 2 || (|s| > 2 && s[0] != '0'))
    ensures s == TwoDigits(DecValue(s))
  {
    hide DecValue, Dec;
    if s[0] != '0' {
      DecUnique(s);
      DecLower(s);
      PowMonotone(10, 1, |s| - 1);
      PowZero();
    } else {
      assert s == Zeros(1) + s[1..];
      DecZeros(1, s[1..]);
      OneDigit(s[1..]);
    }
  }

  lemma OneDigit(s: string)
    requires AllDigits(s) && |s| == 1
    ensures DecValue(s) < 10 && Dec(DecValue(s)) == s
  {
    DecSnoc("", s[0]);
    assert "" + [s[0]] == s;
    assert DecValue("") == 0;
  }

  lemma {:induction false} ScientificIsLayout(p: Parts, n: nat)
    requires WellFormed(p) && Tight(p) && Scientific(p) && n > 0
    requires !(Exp(10, -4) <= Magnitude(p) < Exp(10, n))
    ensures var d, x := p.whole + p.frac, StatedExponent(p.exponent);
            DigitsOf(p, d, x) && p == Layout(p.sign, d, x, n)
  {
    hide Exp, DecValue, Decimal, Dec, TwoDigits;
    var d, x := p.whole + p.frac, StatedExponent(p.exponent);
    DigitsAtPower(d, x);
    PowerBounds(Magnitude(p), x, -4, n);
    TwoDigitsUnique(p.exponent.digits);
    assert d[..1] == p.whole && d[1..] == p.frac;
  }

  lemma {:induction false} FractionIsLayout(p: Parts, n: nat) returns (d: string, x: int)
    requires WellFormed(p) && Tight(p) && p.exponent.NoExponent? && p.whole == "0" && Magnitude(p) > 0.0
    requires Exp(10, -4) <= Magnitude(p) < Exp(10, n)
    ensures DigitsOf(p, d, x) && p == Layout(p.sign, d, x, n)
  {
    hide Exp, DecValue, Decimal;
    var k: int := LeadingZeros(p.frac);
    d, x := p.frac[k..], 0 - k - 1;
    assert p.frac == Zeros(k) + d;
    assert Significant(p) == Zeros(1) + p.frac;
    DecZeros(1, p.frac);
    DecZeros(k, d);
    if d == "" {
      NoDecimal(p);
    }
    DigitsAtPower(d, x);
    PowerBounds(Magnitude(p), x, -4, n);
  }

  lemma NoDecimal(p: Parts)
    requires WellFormed(p) && DecValue(Significant(p)) == DecValue("")
    ensures Magnitude(p) == 0.0
  {
    hide DecValue, Exp;
    DecEmpty();
  }

  lemma {:induction false} WholeIsLayout(p: Parts, n: nat) returns (d: string, x: int)
    requires WellFormed(p) && Tight(p) && p.exponent.NoExponent? && p.whole != "0" && p.frac == ""
    requires Exp(10, -4) <= Magnitude(p) < Exp(10, n)
    ensures DigitsOf(p, d, x) && p == Layout(p.sign, d, x, n)
  {
    hide Exp, DecValue, Decimal;
    d, x := TrimZeros(p.whole), |p.whole| - 1;
    assert d != "" by {
      assert p.whole == d + Zeros(|p.whole| - |d|);
    }
    assert d[0] == p.whole[0];
    var k: nat := |p.whole| - |d|;
    assert Significant(p) == p.whole == d + Zeros(k);
    forall i | 0 <= i < |d| ensures IsDigit(d[i]) { assert d[i] == p.whole[i]; }
    DecZeros(k, d);
    DecimalShift(DecValue(d), 0, k);
    DigitsAtPower(d, x);
    PowerBounds(Magnitude(p), x, -4, n);
  }

  lemma {:induction false} MixedIsLayout(p: Parts, n: nat)
    requires WellFormed(p) && Tight(p) && p.exponent.NoExponent? && p.whole != "0" && p.frac != ""
    requires Exp(10, -4) <= Magnitude(p) < Exp(10, n)
    ensures var d, x := p.whole + p.frac, |p.whole| - 1;
            DigitsOf(p, d, x) && p == Layout(p.sign, d, x, n)
  {
    hide Exp, DecValue, Decimal;
    var d, x := p.whole + p.frac, |p.whole| - 1;
    DigitsAtPower(d, x);
    PowerBounds(Magnitude(p), x, -4, n);
    assert d[..x + 1] == p.whole && d[x + 1..] == p.frac;
  }

  lemma ShapeIsLayout(p: Parts, n: nat) returns (d: string, x: int)
    requires WellFormed(p) && Shaped(p, n) && Magnitude(p) > 0.0 && n > 0
    ensures DigitsOf(p, d, x) && p == Layout(p.sign, d, x, n)
  {
    hide Exp, Magnitude, Tight, DigitsOf, Layout;
    if Scientific(p) && !(Exp(10, -4) <= Magnitude(p) < Exp(10, n)) {
      ScientificIsLayout(p, n);
      d, x := p.whole + p.frac, StatedExponent(p.exponent);
    } else if p.whole == "0" {
      d, x := FractionIsLayout(p, n);
    } else if p.frac == "" {
      d, x := WholeIsLayout(p, n);
    } else {
      MixedIsLayout(p, n);
      d, x := p.whole + p.frac, |p.whole| - 1;
    }
  }

  /** A value above zero has one literal of the shape. */
  lemma {:induction false} ShapeUnique(p: Parts, q: Parts, n: nat)
    requires WellFormed(p) && WellFormed(q) && Shaped(p, n) && Shaped(q, n) && n > 0
    requires p.sign == q.sign && Magnitude(p) == Magnitude(q) > 0.0
    ensures p == q
  {
    hide Shaped, Magnitude, Decimal, DecValue, Layout;
    var d, x := ShapeIsLayout(p, n);
    var d', x' := ShapeIsLayout(q, n);
    LastDigitLeft(d);
    LastDigitLeft(d');
    SameScale(DecValue(d), x - |d| + 1, DecValue(d'), x' - |d'| + 1);
    DecUnique(d);
    DecUnique(d');
  }

  // ---- What is written ----

  /** Of the text alone: it splits at its suffix into a literal of the shape and the precision. */
  lemma {:induction false} WrittenShaped(f: BigFloatFields, maxDigits: int, maxExponent: int, r: Formatted)
    requires FormatsAs(f, maxDigits, maxExponent, r) && r.Written? && f.prec > 0 && Mantissa(f) > 0
    ensures var t := r.text;
            var i := FindSuffix(t);
            && i < |t| && t[i + 1..] == Dec(f.prec)
            && Split(t[..i]).Some? && Magnitude(Split(t[..i]).value) > 0.0
            && BigFloatPrecDigits(f.prec) > 0 && Shaped(Split(t[..i]).value, BigFloatPrecDigits(f.prec))
  {
    hide Writes, FirstLimit, Text, Dec, Split, Magnitude, Shaped, LaidOutAs, BigFloatPrecDigits, FindSuffix;
    var p :| Writes(f, p) && LaidOutAs(f, p) && r.text == Text(p) + ("p" + Dec(f.prec));
    WrittenText(f, p);
    LaidOutShaped(f, p);
  }

  lemma LaidOutShaped(f: BigFloatFields, p: Parts)
    requires f.prec > 0 && Mantissa(f) > 0 && LaidOutAs(f, p)
    ensures WellFormed(p) && BigFloatPrecDigits(f.prec) > 0
    ensures Magnitude(p) > 0.0 && Shaped(p, BigFloatPrecDigits(f.prec))
  {
    hide Mantissa, RoundsTo, FloatValue, Layout, BigFloatPrecDigits, Shaped, Magnitude, Exp;
    Pow2DigitsExact(f.prec);
    PrecDigitsPositive(f.prec);
    var m, e, d, x :| RoundsTo(Stored(f), f.prec, m, e) && DigitsLaidOut(f, FloatValue(m, e), d, x, p);
    var n := BigFloatPrecDigits(f.prec);
    LayoutShaped(SignOf(f), d, x, n);
    LayoutMagnitude(SignOf(f), d, x, n);
    DigitsAtPower(d, x);
  }

  lemma PrecDigitsPositive(prec: nat)
    requires prec < 0x1_0000_0000
    ensures BigFloatPrecDigits(prec) > 0
  {
    Pow2DigitsExact(prec);
  }

  /** It is the only literal of the shape, of that sign, that is the value rounded to N digits. */
  lemma {:induction false} WrittenOnly(f: BigFloatFields, maxDigits: int, maxExponent: int, r: Formatted, q: Parts)
    requires FormatsAs(f, maxDigits, maxExponent, r) && r.Written? && f.prec > 0 && Mantissa(f) > 0
    requires WellFormed(q) && BigFloatPrecDigits(f.prec) >= 0 && Shaped(q, BigFloatPrecDigits(f.prec))
    requires q.sign == SignOf(f) && WritesRounded(f, Magnitude(q))
    ensures r.text == Text(q) + ("p" + Dec(f.prec))
  {
    hide FirstLimit, Text, Dec, Split, Magnitude, Shaped, LaidOutAs, BigFloatPrecDigits, CountDigits, WritesRounded;
    var p :| Writes(f, p) && LaidOutAs(f, p) && r.text == Text(p) + ("p" + Dec(f.prec));
    LaidOutShaped(f, p);
    WritesOnce(f, Magnitude(p), Magnitude(q));
    ShapeUnique(p, q, BigFloatPrecDigits(f.prec));
  }

  lemma WritesOnce(f: BigFloatFields, w: real, w': real)
    requires f.prec > 0 && WritesRounded(f, w) && WritesRounded(f, w')
    ensures w == w'
  {
    hide RoundedDecimal, RoundsTo, BigFloatPrecDigits;
    var m, e, x :| RoundsTo(Stored(f), f.prec, m, e) && BigFloatPrecDigits(f.prec) >= 0
                   && RoundedDecimal(FloatValue(m, e), BigFloatPrecDigits(f.prec), w, x);
    var m', e', x' :| RoundsTo(Stored(f), f.prec, m', e') && BigFloatPrecDigits(f.prec) >= 0
                   && RoundedDecimal(FloatValue(m', e'), BigFloatPrecDigits(f.prec), w', x');
    RoundsToUnique(Stored(f), f.prec, m, e, m', e');
    RoundedOnce(FloatValue(m, e), BigFloatPrecDigits(f.prec), w, x, w', x');
  }
}
