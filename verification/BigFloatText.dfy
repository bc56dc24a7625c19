/**
One text for each value: FormatBigFloatLiteral of src/pxf/bigfloat.cc writes two BigFloats alike exactly when
they have the same sign and precision and are equal once rounded to it.
 */
module BigFloatText {
  import opened DecimalText
  import opened Reals
  import opened Rounding
  import opened Precision
  import opened Literals
  import opened BigFloatParse
  import opened DecimalDigits
  import opened BigFloatFormat
  import opened BigFloatLayout
  import opened BigFloatRoundTrip
  import DecimalWire
  import opened BigFloatWire

  /** The digits of a value, and their exponent, are determined. */
  lemma {:induction false} SpellsUnique(v: real, n: nat, d: string, x: int, d': string, x': int)
    requires Spells(v, n, d, x) && Spells(v, n, d', x')
    ensures d == d' && x == x'
  {
    hide Decimal, DecValue, AtPower, Shifted, RoundHalfEven;
    var a, b := x - |d| + 1, x' - |d'| + 1;
    RoundedOnce(v, n, Decimal(DecValue(d), a), x, Decimal(DecValue(d'), b), x');
    LastDigitLeft(d);
    LastDigitLeft(d');
    if a >= b {
      DecimalWire.LowerScale(DecValue(d), 0 - a, DecValue(d'), 0 - b);
    } else {
      DecimalWire.LowerScale(DecValue(d'), 0 - b, DecValue(d), 0 - a);
    }
    assert a == b;
    PowZero();
    assert DecValue(d) == DecValue(d');
    DecUnique(d);
    DecUnique(d');
  }

  /** Rounding to n digits gives one number. */
  lemma RoundedOnce(v: real, n: nat, w: real, x: int, w': real, x': int)
    requires RoundedUpTo(v, n, w, x) && RoundedUpTo(v, n, w', x')
    ensures w == w'
  {
    hide AtPower, Shifted, RoundHalfEven, Decimal;
    var y := if RoundedDecimal(v, n, w, x) then x else x - 1;
    var z := if RoundedDecimal(v, n, w', x') then x' else x' - 1;
    AtPowerUnique(v, y, z);
  }

  lemma LastDigitLeft(d: string)
    requires d != "" && AllDigits(d) && d[|d| - 1] != '0'
    ensures DecValue(d) % 10 != 0
  {
    hide DecValue;
    var init, last := d[..|d| - 1], d[|d| - 1];
    assert d == init + [last];
    DecSnoc(init, last);
  }

  lemma SameParts(f: BigFloatFields, g: BigFloatFields, p: Parts, q: Parts)
    requires f.prec > 0 && EqualRounded(f, g) && LaidOutAs(f, p) && LaidOutAs(g, q)
    ensures p == q
  {
    hide Mantissa, Spells, RoundsTo, FloatValue, Layout, BigFloatPrecDigits;
    if Mantissa(f) != 0 && Mantissa(g) != 0 {
      var m0, e0 :| RoundsTo(Stored(f), f.prec, m0, e0) && RoundsTo(Stored(g), f.prec, m0, e0);
      var m, e, d, x :| RoundsTo(Stored(f), f.prec, m, e) && DigitsLaidOut(f, FloatValue(m, e), d, x, p);
      var m', e', d', x' :| RoundsTo(Stored(g), g.prec, m', e') && DigitsLaidOut(g, FloatValue(m', e'), d', x', q);
      RoundsToUnique(Stored(f), f.prec, m, e, m0, e0);
      RoundsToUnique(Stored(g), f.prec, m', e', m0, e0);
      SpellsUnique(FloatValue(m0, e0), BigFloatPrecDigits(f.prec), d, x, d', x');
    }
  }

  lemma EqualPrec(f: BigFloatFields, g: BigFloatFields)
    requires EqualRounded(f, g)
    ensures f.prec == g.prec && f.negative == g.negative
  {
  }

  // ---- And back ----

  /** A literal that is written for two values is written for one value. */
  lemma SameLiteral(f: BigFloatFields, g: BigFloatFields, p: Parts)
    requires f.prec > 0 && g.prec == f.prec && Writes(f, p) && Writes(g, p)
    ensures EqualRounded(f, g)
  {
    hide Mantissa, RoundsTo, Magnitude, CountDigits, Text, BigFloatPrecDigits, WritesRounded;
    var w := Magnitude(p);
    if Mantissa(f) != 0 {
      WrittenRounds(f, w, 0, 0);
    }
    if Mantissa(g) != 0 {
      WrittenRounds(g, w, 0, 0);
    }
    if Mantissa(f) != 0 && Mantissa(g) != 0 {
      var m, e := RoundedOf(f, w);
      WrittenRounds(f, w, m, e);
      WrittenRounds(g, w, m, e);
    }
  }

  lemma RoundedOf(f: BigFloatFields, w: real) returns (m: nat, e: int)
    requires f.prec > 0 && WritesRounded(f, w)
    ensures RoundsTo(Stored(f), f.prec, m, e)
  {
    hide RoundsTo, RoundedDecimal;
    var mm, ee, x :| RoundsTo(Stored(f), f.prec, mm, ee)
                     && RoundedDecimal(FloatValue(mm, ee), BigFloatPrecDigits(f.prec), w, x);
    m, e := mm, ee;
  }

  /** The literal and the precision a text was made of. */
  lemma SameSplit(f: BigFloatFields, g: BigFloatFields, p: Parts, q: Parts)
    requires f.prec > 0 && g.prec > 0 && Writes(f, p) && Writes(g, q)
    requires Text(p) + ("p" + Dec(f.prec)) == Text(q) + ("p" + Dec(g.prec))
    ensures p == q && f.prec == g.prec
  {
    hide Text, Dec, Writes, FindSuffix, Split, ValidPrecision;
    WrittenText(f, p);
    WrittenText(g, q);
    DecOf(f.prec);
    DecOf(g.prec);
  }

  /** A precision of zero is the only one that is not written. */
  lemma NoSuffixWritten(f: BigFloatFields, g: BigFloatFields, q: Parts)
    requires f.prec == 0 && g.prec > 0 && Writes(g, q)
    ensures Text(ZeroParts(f)) != Text(q) + ("p" + Dec(g.prec))
  {
    hide Text, Dec, Writes, FindSuffix, Accepts, Readable;
    WrittenText(g, q);
    ZeroTextReads(f, 0, 0, Gate(false, false, BigFloatParse.Form.Zero, 0));
  }

  lemma ZeroSigns(f: BigFloatFields, g: BigFloatFields)
    requires Text(ZeroParts(f)) == Text(ZeroParts(g))
    ensures f.negative == g.negative
  {
    ZeroText(f);
    ZeroText(g);
  }

  /** Under whatever limits they were written. */
  lemma TextIsCanonical(f: BigFloatFields, g: BigFloatFields, maxDigits: int, maxExponent: int,
                        maxDigits': int, maxExponent': int, r: Formatted, r': Formatted)
    requires FormatsAs(f, maxDigits, maxExponent, r) && FormatsAs(g, maxDigits', maxExponent', r')
    requires r.Written? && r'.Written?
    ensures r == r' <==> EqualRounded(f, g)
  {
    hide LaidOutAs, Writes, FirstLimit, Text, Dec, EqualRounded;
    if f.prec > 0 && g.prec > 0 {
      var p :| Writes(f, p) && LaidOutAs(f, p) && r.text == Text(p) + ("p" + Dec(f.prec));
      var q :| Writes(g, q) && LaidOutAs(g, q) && r'.text == Text(q) + ("p" + Dec(g.prec));
      if EqualRounded(f, g) {
        EqualPrec(f, g);
        SameParts(f, g, p, q);
      }
      if r == r' {
        SameSplit(f, g, p, q);
        SameLiteral(f, g, p);
      }
    } else if f.prec == 0 && g.prec == 0 {
      BothZero(f, g);
    } else {
      if EqualRounded(f, g) {
        EqualPrec(f, g);
      }
      if f.prec == 0 {
        var q :| Writes(g, q) && r'.text == Text(q) + ("p" + Dec(g.prec));
        NoSuffixWritten(f, g, q);
      } else {
        var p :| Writes(f, p) && r.text == Text(p) + ("p" + Dec(f.prec));
        NoSuffixWritten(g, f, p);
      }
    }
  }

  lemma BothZero(f: BigFloatFields, g: BigFloatFields)
    requires f.prec == 0 && g.prec == 0
    ensures Text(ZeroParts(f)) == Text(ZeroParts(g)) <==> EqualRounded(f, g)
  {
    hide Text;
    if Text(ZeroParts(f)) == Text(ZeroParts(g)) {
      ZeroSigns(f, g);
    }
  }
}
