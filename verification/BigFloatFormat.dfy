/**
Writing a BigFloat as text: src/pxf/bigfloat.cc, CheckBigFloatLimits and
FormatBigFloatLiteral.
 */
module BigFloatFormat {
  import opened Powers
  import opened Bits
  import opened Digits
  import opened BigEndian
  import opened DecimalText
  import opened Options
  import opened Literals
  import opened Reals
  import opened Rounding
  import opened Precision
  import opened LimbArith
  import opened BigNat
  import opened FloatArith
  import opened DecimalDigits
  import opened BigFloatParse
  import opened BigFloatLayout

  // ---- The value the fields hold ----

  ghost function Mantissa(f: BigFloatFields): nat {
    Num(256, f.mantissa)
  }

  /** mantissa * 2^exponent, before it is rounded to prec. */
  ghost function Stored(f: BigFloatFields): real {
    FloatValue(Mantissa(f), f.exponent)
  }

  /** Dropping low bits of an integer mantissa is rounding the value it holds. */
  lemma {:induction false} NarrowRounds(m: nat, e: int, prec: nat, shift: nat)
    requires prec > 0 && m > 0 && BitLength(m) == prec + shift && shift > 0
    ensures Scales(FloatValue(m, e), prec, e + shift)
    ensures RoundSticky(m, shift, false) == RoundHalfEven(Units(FloatValue(m, e), e + shift))
  {
    hide BitLength, Pow, Ratio, Exp, Units, RoundHalfEven, RoundRatio, RoundSticky, Scales, FloatValue;
    var v, t := FloatValue(m, e), Pow(2, shift);
    UnitsOfFloat(m, e);
    UnitsShift(v, e, shift);
    RatioTimes(m, t);
    StickyRounds(m, 1, shift);
    RoundRatioIs(m, t);
    assert 1 * t == t && m / 1 == m && m % 1 == 0;
    assert Units(v, e + shift) == Ratio(m, t);
    BitLengthBounds(m);
    ScaledRange(v, prec + shift, e);
    ScalesWider(v, prec + shift, prec, e, shift);
  }

  lemma UnitsOfFloat(m: nat, e: int)
    ensures Units(FloatValue(m, e), e) == m as real
  {
    hide Exp;
    ExpCancel(2, e);
    ScaleBack(m as real, Exp(2, e), Exp(2, -e), 0.0);
  }

  /** Widening a mantissa to prec bits does not change the value. */
  lemma {:induction false} WidenRounds(m: nat, e: int, prec: nat)
    requires prec > 0 && m > 0 && BitLength(m) <= prec
    ensures var w := prec - BitLength(m);
            RoundsTo(FloatValue(m, e), prec, m * Pow(2, w), e - w)
  {
    hide BitLength, Pow, Exp, RoundsTo, FloatValue;
    var len := BitLength(m);
    var w := prec - len;
    BitLengthBounds(m);
    PowAdd(2, len - 1, w);
    PowAdd(2, len, w);
    MulLe(Pow(2, len - 1), m, Pow(2, w));
    MulLess(m, Pow(2, len), Pow(2, w));
    WholeUnits(m, e, e - w);
    FloatValueIs(m * Pow(2, w), e - w);
    ExactRounds(prec, m * Pow(2, w), e - w);
  }

  lemma FloatValueIs(m: nat, e: int)
    ensures FloatValue(m, e) == (m as real) * Exp(2, e)
  {
  }

  /** m * 2^e is the value of f rounded to prec, with the binary exponent that rounding has. */
  ghost predicate IsRounded(f: BigFloatFields, m: nat, e: int)
    requires f.prec > 0
  {
    exists mm, ee :: RoundsTo(Stored(f), f.prec, mm, ee)
                     && FloatValue(m, e) == FloatValue(mm, ee) && e + BitLength(m) == ee + f.prec
  }

  lemma {:induction false} RoundedIs(f: BigFloatFields, shift: nat)
    requires f.prec > 0 && Mantissa(f) > 0
    requires shift == (var len := BitLength(Mantissa(f)); if len <= f.prec then 0 else len - f.prec)
    ensures IsRounded(f, RoundSticky(Mantissa(f), shift, false), f.exponent + shift)
    ensures RoundSticky(Mantissa(f), shift, false) > 0
  {
    hide BitLength, Pow, Exp, Units, RoundHalfEven, Scales, FloatValue, RoundsAt, RoundsTo;
    var m, e, prec := Mantissa(f), f.exponent, f.prec;
    var v := Stored(f);
    if shift == 0 {
      PositiveBits(m);
      var w := prec - BitLength(m);
      WidenRounds(m, e, prec);
      assert RoundSticky(m, 0, false) == m;
      WholeUnits(m, e, e - w);
      FloatValueIs(m * Pow(2, w), e - w);
    } else {
      hide RoundSticky;
      NarrowRounds(m, e, prec, shift);
      var k, s := RoundSticky(m, shift, false), e + shift;
      CarryOut(v, prec, s, k);
      ScaledRange(v, prec, s);
      RoundBetween(Units(v, s), Pow(2, prec - 1), Pow(2, prec));
      BitLengthGe(k, prec - 1);
      if BitLength(k) <= prec {
        RoundsToIntro(v, prec, s, k, s);
      } else {
        RoundsToIntro(v, prec, s, k / 2, s + 1);
        CarriedValue(k, prec, s);
      }
    }
  }

  lemma PositiveBits(m: nat)
    requires m > 0
    ensures BitLength(m) > 0
  {
  }

  /** 2^prec at one scale is 2^(prec-1) at the next. */
  lemma {:induction false} CarriedValue(k: nat, prec: nat, s: int)
    requires prec > 0 && k == Pow(2, prec)
    ensures FloatValue(k, s) == FloatValue(k / 2, s + 1) && BitLength(k) == prec + 1
  {
    WholeUnits(k / 2, s + 1, s);
    assert Pow(2, 1) == 2;
    assert k == 2 * Pow(2, prec - 1);
    PowStrict(2, prec, prec + 1);
    BitLengthIs(k, prec + 1);
  }

  /** At no bits, what is left of a number: one, unless it is half of the unit above it. */
  function NoBitsLeft(v: nat): nat {
    if v == 0 || v == Pow(2, BitLength(v) - 1) then 0 else 1
  }

  lemma {:induction false} RoundedAway(v: nat)
    ensures RoundSticky(v, BitLength(v), false) == NoBitsLeft(v) && BitLength(NoBitsLeft(v)) == NoBitsLeft(v)
  {
    hide BitLength, Pow;
    NoBits();
    if v > 0 {
      PositiveBits(v);
      BitLengthBounds(v);
      DivUnique(v, Pow(2, BitLength(v)), 0, v);
    }
  }

  /** The significand of f brought to its precision, as m * 2^exponent. */
  method RoundedMantissa(f: BigFloatFields) returns (m: Nat, exponent: int)
    ensures fresh(m) && m.Valid()
    ensures f.prec > 0 ==> (m.Value() == 0 <==> Mantissa(f) == 0)
    ensures f.prec > 0 && Mantissa(f) > 0 ==> IsRounded(f, m.Value(), exponent)
    ensures f.prec == 0 ==> m.Value() == NoBitsLeft(Mantissa(f)) && exponent == f.exponent + BitLength(Mantissa(f))
  {
    hide BitLength, Num, IsRounded, NoBitsLeft;
    m := Nat.FromBytes(f.mantissa);
    var shift := RoundToBits(m, f.prec, false);
    exponent := f.exponent + shift;
    RoundedAway(Mantissa(f));
    if Mantissa(f) == 0 {
      NoBits();
    } else if f.prec > 0 {
      RoundedIs(f, shift);
    }
  }

  lemma NoBits()
    ensures BitLength(0) == 0 && BitLength(1) == 1
  {
  }

  // ---- Limits ----

  datatype Limit = NoLimit | ExponentLimit(bin: int) | RoundedExponentLimit(bin: int) | DigitLimit(digits: int)

  /** The first limit a value of non-zero precision fails. */
  ghost predicate FirstLimit(f: BigFloatFields, maxDigits: int, maxExponent: int, limit: Limit)
    requires f.prec > 0
  {
    var stored := f.exponent + BitLength(Mantissa(f));
    if Mantissa(f) > 0 && ExceedsBound(stored, maxExponent) then limit == ExponentLimit(stored)
    else if Mantissa(f) > 0 && RoundedExceeds(f, maxExponent) then
      limit.RoundedExponentLimit? && RoundedExponent(Stored(f), f.prec, limit.bin)
    else if BigFloatPrecDigits(f.prec) > maxDigits then limit == DigitLimit(BigFloatPrecDigits(f.prec))
    else limit == NoLimit
  }

  /** The limits at precision zero, of which only a zero is meant to be. */
  ghost predicate FirstLimitAtZero(f: BigFloatFields, maxDigits: int, maxExponent: int, limit: Limit) {
    var stored := f.exponent + BitLength(Mantissa(f));
    var rounded := stored + NoBitsLeft(Mantissa(f));
    if Mantissa(f) > 0 && ExceedsBound(stored, maxExponent) then limit == ExponentLimit(stored)
    else if Mantissa(f) > 0 && ExceedsBound(rounded, maxExponent) then limit == RoundedExponentLimit(rounded)
    else if 2 > maxDigits then limit == DigitLimit(2)
    else limit == NoLimit
  }

  ghost predicate RoundedExceeds(f: BigFloatFields, maxExponent: int)
    requires f.prec > 0
  {
    exists mm, ee :: RoundsTo(Stored(f), f.prec, mm, ee) && ExceedsBound(ee + f.prec, maxExponent)
  }

  lemma {:induction false} RoundedBound(f: BigFloatFields, m: nat, e: int, maxExponent: int)
    requires f.prec > 0 && IsRounded(f, m, e)
    ensures RoundedExponent(Stored(f), f.prec, e + BitLength(m))
    ensures RoundedExceeds(f, maxExponent) <==> ExceedsBound(e + BitLength(m), maxExponent)
  {
    hide RoundsAt, BitLength, FloatValue, Stored;
    var v := Stored(f);
    var p: int := f.prec;
    var mm, ee :| RoundsTo(v, p, mm, ee) && FloatValue(m, e) == FloatValue(mm, ee) && e + BitLength(m) == ee + p;
    forall s, m', e' | RoundsAt(v, p, s, m', e')
      ensures e' == ee
    {
      RoundsToIntro(v, p, s, m', e');
      RoundsToUnique(v, p, mm, ee, m', e');
    }
    if RoundedExceeds(f, maxExponent) {
      var m', e' :| RoundsTo(v, p, m', e') && ExceedsBound(e' + p, maxExponent);
      RoundsToUnique(v, p, mm, ee, m', e');
    }
  }

  method CheckBigFloatLimits(f: BigFloatFields, maxDigits: I32, maxExponent: I32) returns (limit: Limit)
    ensures f.prec > 0 ==> FirstLimit(f, maxDigits, maxExponent, limit)
    ensures f.prec == 0 ==> FirstLimitAtZero(f, maxDigits, maxExponent, limit)
  {
    hide BitLength, Num, RoundedExceeds, RoundedExponent, IsRounded, NoBitsLeft;
    var stored := Nat.FromBytes(f.mantissa);
    var zero := stored.IsZero();
    if !zero {
      var len := stored.BitLen();
      var bin := f.exponent + len;
      if ExceedsBound(bin, maxExponent) {
        return ExponentLimit(bin);
      }
      var m, exponent := RoundedMantissa(f);
      len := m.BitLen();
      RoundedAway(Mantissa(f));
      if f.prec > 0 {
        RoundedBound(f, m.Value(), exponent, maxExponent);
      }
      bin := exponent + len;
      if ExceedsBound(bin, maxExponent) {
        return RoundedExponentLimit(bin);
      }
    }
    var digits := BigFloatPrecDigits(f.prec);
    assert BigFloatPrecDigits(0) == 2;
    if digits > maxDigits {
      return DigitLimit(digits);
    }
    return NoLimit;
  }

  // ---- Digits ----

  /** s without its trailing zeros. */
  function TrimZeros(s: string): (r: string)
    ensures |r| <= |s| && s == r + Zeros(|s| - |r|)
    ensures r == "" || r[|r| - 1] != '0'
  {
    if s != "" && s[|s| - 1] == '0' then TrimZeros(s[..|s| - 1]) else s
  }

  /** w is v rounded half to even to n significant decimal digits, 10^x <= v < 10^(x+1). */
  ghost predicate RoundedDecimal(v: real, n: nat, w: real, x: int) {
    var d := RoundHalfEven(Shifted(v, n, x));
    AtPower(v, x) && d >= 0 && w == Decimal(d, x - n + 1)
  }

  /** As RoundedDecimal, where rounding up may have reached the next power of ten. */
  ghost predicate RoundedUpTo(v: real, n: nat, w: real, x: int) {
    RoundedDecimal(v, n, w, x) || RoundedDecimal(v, n, w, x - 1)
  }

  /** d[0].d[1].. * 10^x is the value's N digits: no zero at either end. */
  ghost predicate Spells(v: real, n: nat, d: string, x: int) {
    && d != "" && AllDigits(d) && |d| <= n && d[0] != '0' && d[|d| - 1] != '0'
    && RoundedUpTo(v, n, Decimal(DecValue(d), x - |d| + 1), x)
  }

  /** Half to even on the remainder of the last division. */
  lemma {:induction false} LastDigit(v: real, n: nat, x: int, a: nat, divisor: nat, q: nat, r: nat, q': nat)
    requires n > 0 && AtPower(v, x) && Divides(v, n, x, a, divisor, q, r) && Pow(10, n - 1) <= q < Pow(10, n)
    requires q' == if 2 * r > divisor || (2 * r == divisor && q % 2 == 1) then q + 1 else q
    ensures Pow(10, n - 1) <= q' <= Pow(10, n)
    ensures RoundedDecimal(v, n, Decimal(q', x - n + 1), x)
  {
    hide Ratio, RoundHalfEven, AtPower, Shifted, Decimal, Pow;
    RoundRatioIs(a, divisor);
  }

  /** The text of q with trailing zeros removed. */
  lemma {:induction false} TrimmedDigits(v: real, n: nat, x: int, q: nat, text: string)
    requires n > 0 && Pow(10, n - 1) <= q < Pow(10, n) && RoundedUpTo(v, n, Decimal(q, x - n + 1), x)
    requires text != "" && AllDigits(text) && text[0] != '0' && DecValue(text) == q
    ensures Spells(v, n, TrimZeros(text), x)
  {
    hide DecValue, Decimal, RoundedUpTo, Pow;
    var d := TrimZeros(text);
    var k := |text| - |d|;
    DecLower(text);
    DecBound(text);
    TextLength(|text|, n, q);
    assert d == text[..|d|];
    assert AllDigits(d);
    DecZeros(k, d);
    DecimalShift(DecValue(d), x - n + 1, k);
    assert x - n + 1 + k == x - |d| + 1;
  }

  lemma TextLength(k: nat, n: nat, q: nat)
    requires k > 0 && n > 0 && Pow(10, n - 1) <= q < Pow(10, n) && Pow(10, k - 1) <= q < Pow(10, k)
    ensures k == n
  {
    hide Pow;
    PowOrder(10, n - 1, k);
    PowOrder(10, k - 1, n);
  }

  /** 99..9 rounded up is the next power of ten. */
  lemma {:induction false} RollOver(n: nat, x: int)
    requires n > 0
    ensures Decimal(Pow(10, n), x - n + 1) == Decimal(Pow(10, n - 1), x + 1 - n + 1)
    ensures 0 < Pow(10, n - 1) < Pow(10, n)
  {
    DecimalShift(Pow(10, n - 1), x - n + 1, 1);
    assert Pow(10, 1) == 10;
    PowStrict(10, n - 1, n);
  }

  /** Rounds the quotient half to even on its remainder. */
  method RoundLastDigit(q: Nat, r: Nat, divisor: Nat)
    requires q.Valid() && r.Valid() && divisor.Valid()
    modifies q
    ensures q.Valid()
    ensures old(2 * r.Value() > divisor.Value() || (2 * r.Value() == divisor.Value() && q.Value() % 2 == 1))
            ==> q.Value() == old(q.Value()) + 1
    ensures !old(2 * r.Value() > divisor.Value() || (2 * r.Value() == divisor.Value() && q.Value() % 2 == 1))
            ==> q.Value() == old(q.Value())
  {
    hide Pow, Eval;
    var twice := r.Shl(1);
    TwoToOne();
    var half := Nat.Cmp(twice, divisor);
    var odd := q.IsOdd();
    if half > 0 || (half == 0 && odd) {
      q.AddSmall(1);
    }
  }

  /** Trims the digits of q, or of the next power of ten when rounding reached it. */
  method TrimmedText(q0: Nat, digits: nat, x0: int, ghost v: real) returns (d: string, x: int)
    requires q0.Valid() && digits > 0 && Pow(10, digits - 1) <= q0.Value() <= Pow(10, digits)
    requires RoundedDecimal(v, digits, Decimal(q0.Value(), x0 - digits + 1), x0)
    ensures Spells(v, digits, d, x)
  {
    hide Pow, Spells, RoundedDecimal, Decimal, DecValue, Eval;
    var q := q0;
    x := x0;
    RollOver(digits, x);
    var high := Nat.Pow10(digits);
    var full := Nat.Cmp(q, high);
    if full == 0 {
      q := Nat.Pow10(digits - 1);
      x := x + 1;
    }
    var text := q.ToDecimal();
    d := TrimZeros(text);
    assert q.Value() > 0;
    TrimmedDigits(v, digits, x, q.Value(), text);
  }

  /** The N digits of num / den and their decimal exponent. */
  method SignificantDigits(num: Nat, den: Nat, digits: nat, estimate: int) returns (d: string, x: int)
    requires num.Valid() && den.Valid() && num.Value() > 0 && den.Value() > 0 && digits > 0
    ensures Spells(Ratio(num.Value(), den.Value()), digits, d, x)
  {
    hide Pow, Ratio, AtPower, Divides, Spells, RoundedDecimal, Decimal, Eval;
    ghost var v := Ratio(num.Value(), den.Value());
    var q, r, divisor;
    ghost var a;
    x, q, r, divisor, a := ScaleToDigits(num, den, digits, estimate);
    ghost var q0, r0, d0 := q.Value(), r.Value(), divisor.Value();
    RoundLastDigit(q, r, divisor);
    LastDigit(v, digits, x, a, d0, q0, r0, q.Value());
    d, x := TrimmedText(q, digits, x, v);
  }

  // ---- The text ----

  lemma Associates(a: string, b: string, c: string)
    ensures (a + b) + c == a + (b + c)
  {
  }

  /** Scientific form, appended piece by piece. */
  method WriteScientific(sign: string, d: string, x: int) returns (out: string)
    requires AllDigits(d) && d != ""
    ensures var e := "e" + ((if x < 0 then "-" else "+") + TwoDigits(if x < 0 then -x else x));
            out == sign + (d[..1] + if |d| > 1 then "." + (d[1..] + e) else e)
  {
    hide TwoDigits;
    out := sign + [d[0]];
    assert [d[0]] == d[..1];
    var g := if x < 0 then "-" else "+";
    var e := "e" + g + TwoDigits(if x < 0 then -x else x);
    Associates("e", g, TwoDigits(if x < 0 then -x else x));
    if |d| > 1 {
      Associates(sign + d[..1], ".", d[1..]);
      Associates(sign + d[..1], "." + d[1..], e);
      Associates(".", d[1..], e);
      Associates(sign, d[..1], "." + (d[1..] + e));
      out := out + ".";
      out := out + d[1..];
    } else {
      Associates(sign, d[..1], e);
    }
    out := out + e;
  }

  /** The layout of d, appended piece by piece. */
  method WriteLayout(sign: string, d: string, x: int, digits: nat) returns (out: string)
    requires OptSign(sign) && AllDigits(d) && d != ""
    ensures out == Text(Layout(sign, d, x, digits))
  {
    hide TwoDigits;
    ghost var p := Layout(sign, d, x, digits);
    if x < -4 || x >= digits {
      out := WriteScientific(sign, d, x);
    } else if x < 0 {
      out := sign + "0.";
      out := out + Zeros(-x - 1);
      out := out + d;
      assert TailText(p) == "." + (Zeros(-x - 1) + d);
      assert out == sign + ("0" + ("." + (Zeros(-x - 1) + d)));
    } else {
      var whole := x + 1;
      if |d| <= whole {
        out := sign + d;
        out := out + Zeros(whole - |d|);
        assert out == sign + (d + Zeros(whole - |d|) + "");
      } else {
        out := sign + d[..whole];
        out := out + ".";
        out := out + d[whole..];
        assert TailText(p) == "." + d[whole..];
        assert out == sign + (d[..whole] + ("." + d[whole..]));
      }
    }
  }

  ghost function SignOf(f: BigFloatFields): string {
    if f.negative then "-" else ""
  }

  /** The literal written for f: its rounded value to N digits, and short enough to read. */
  ghost predicate Writes(f: BigFloatFields, p: Parts)
    requires f.prec > 0
  {
    && WellFormed(p) && p.sign == SignOf(f)
    && CountDigits(Text(p), true) <= BigFloatPrecDigits(f.prec)
    && |Text(p)| <= BigFloatPrecDigits(f.prec) + 20
    && if Mantissa(f) == 0 then Magnitude(p) == 0.0 else WritesRounded(f, Magnitude(p))
  }

  ghost predicate WritesRounded(f: BigFloatFields, w: real)
    requires f.prec > 0
  {
    exists m, e, x :: RoundsTo(Stored(f), f.prec, m, e)
                      && BigFloatPrecDigits(f.prec) >= 0
                      && RoundedDecimal(FloatValue(m, e), BigFloatPrecDigits(f.prec), w, x)
  }

  /** A positive m * 2^e as a ratio. */
  lemma {:induction false} FloatRatio(m: nat, e: int)
    ensures e >= 0 ==> Ratio(m * Pow(2, e), 1) == FloatValue(m, e)
    ensures e < 0 ==> Ratio(m, Pow(2, 0 - e)) == FloatValue(m, e)
  {
    hide Pow;
    if e >= 0 {
      MulReal(m, Pow(2, e));
    } else {
      RatioTimes(m, Pow(2, -e));
    }
  }

  method ValueRatio(m: Nat, exponent: int) returns (num: Nat, den: Nat)
    requires m.Valid() && m.Value() > 0
    ensures num.Valid() && den.Valid() && num.Value() > 0 && den.Value() > 0
    ensures Ratio(num.Value(), den.Value()) == FloatValue(m.Value(), exponent)
  {
    hide Pow, Ratio, FloatValue, Eval;
    FloatRatio(m.Value(), exponent);
    num := m;
    den := new Nat(1);
    if exponent >= 0 {
      num := m.Shl(exponent);
      MulGrows(m.Value(), Pow(2, exponent));
    } else {
      den := den.Shl(-exponent);
    }
  }

  lemma {:induction false} FloatBounds(m: nat, e: int, bin: int)
    requires m > 0 && bin == e + BitLength(m)
    ensures Exp(2, bin - 1) <= FloatValue(m, e) < Exp(2, bin)
  {
    hide BitLength, Pow, Exp, FloatValue;
    var len := BitLength(m);
    BitLengthBounds(m);
    ExpSplit(2, bin, len, e);
    ExpSplit(2, bin - 1, len - 1, e);
    ExpNat(2, len);
    ExpNat(2, len - 1);
    ExpPositive(e);
    FloatValueIs(m, e);
    var k, u := m as real, Exp(2, e);
    assert Exp(2, len - 1) <= k < Exp(2, len);
    BoundsScaled(Exp(2, len - 1), k, Exp(2, len), u, Exp(2, bin - 1), FloatValue(m, e), Exp(2, bin));
  }

  lemma BoundsScaled(a: real, b: real, c: real, u: real, au: real, bu: real, cu: real)
    requires a <= b < c && u > 0.0 && au == a * u && bu == b * u && cu == c * u
    ensures au <= bu < cu
  {
    CompareScaled(a, b, u);
    CompareScaled(b, c, u);
  }

  /** A value's decimal exponent is no further out than its binary one. */
  lemma {:induction false} ExponentNear(m: nat, e: int, x: int)
    requires m > 0 && AtPower(FloatValue(m, e), x)
    ensures var bin := e + BitLength(m); x < (if bin > 0 then bin else 0) && x > (if bin < 1 then bin - 2 else -1)
  {
    hide BitLength, FloatValue, Exp;
    var bin := e + BitLength(m);
    FloatBounds(m, e, bin);
    TwoAndTen(bin);
    TwoAndTen(bin - 1);
    ExpOrder(10, x, if bin > 0 then bin else 0);
    ExpOrder(10, if bin < 1 then bin - 1 else 0, x + 1);
  }

  lemma ExpPositive(e: int)
    ensures Exp(2, e) > 0.0
  {
  }

  lemma {:induction false} TwoAndTen(k: int)
    ensures k >= 0 ==> 1.0 <= Exp(2, k) <= Exp(10, k)
    ensures k <= 0 ==> Exp(10, k) <= Exp(2, k) <= 1.0
    ensures Exp(10, 0) == 1.0
  {
    if k >= 0 {
      PowBaseMonotone(2, 10, k);
    } else {
      NegativePowers(0 - k);
    }
  }

  /** The digits found for f, laid out, are what f should be written as. */
  lemma {:induction false} LayoutWrites(f: BigFloatFields, m: nat, e: int, d: string, x: int)
    requires f.prec > 0 && Mantissa(f) > 0 && m > 0 && IsRounded(f, m, e)
    requires BigFloatPrecDigits(f.prec) >= 0
    requires Spells(FloatValue(m, e), BigFloatPrecDigits(f.prec), d, x)
    requires -0x8000_0000 <= e + BitLength(m) <= 0x8000_0000
    ensures Writes(f, Layout(SignOf(f), d, x, BigFloatPrecDigits(f.prec)))
  {
    hide BitLength, FloatValue, Decimal, DecValue, RoundsTo, BigFloatPrecDigits, AtPower, Magnitude, Text, CountDigits;
    hide Stored, Mantissa, Layout;
    var n := BigFloatPrecDigits(f.prec);
    var v := FloatValue(m, e);
    var w := Decimal(DecValue(d), x - |d| + 1);
    var x0 := if RoundedDecimal(v, n, w, x) then x else x - 1;
    ExponentNear(m, e, x0);
    var mm, ee :| RoundsTo(Stored(f), f.prec, mm, ee) && v == FloatValue(mm, ee);
    assert RoundedDecimal(FloatValue(mm, ee), n, w, x0);
    assert WritesRounded(f, w);
    hide RoundedDecimal, WritesRounded;
    LayoutMagnitude(SignOf(f), d, x, n);
    LayoutCount(SignOf(f), d, x, n);
    LayoutLength(SignOf(f), d, x, n);
  }

  // ---- Writing a value ----

  datatype Formatted = Written(text: string) | Refused(limit: Limit)

  /** The literal "0", of either sign. */
  ghost function ZeroParts(f: BigFloatFields): Parts {
    Parts(SignOf(f), "0", false, "", NoExponent)
  }

  /** p is "0", or the N digits of the rounded value in the layout their exponent asks for. */
  ghost predicate LaidOutAs(f: BigFloatFields, p: Parts)
    requires f.prec > 0
  {
    if Mantissa(f) == 0 then p == ZeroParts(f)
    else
      exists m, e, d, x :: RoundsTo(Stored(f), f.prec, m, e) && DigitsLaidOut(f, FloatValue(m, e), d, x, p)
  }

  ghost predicate DigitsLaidOut(f: BigFloatFields, v: real, d: string, x: int, p: Parts) {
    var n := BigFloatPrecDigits(f.prec);
    n >= 0 && Spells(v, n, d, x) && p == Layout(SignOf(f), d, x, n)
  }

  /** What writing f gives: the first limit it fails, or its literal and its precision suffix. */
  ghost predicate FormatsAs(f: BigFloatFields, maxDigits: int, maxExponent: int, r: Formatted) {
    if f.prec == 0 then r == Written(Text(ZeroParts(f)))
    else match r
      case Refused(limit) => limit != NoLimit && FirstLimit(f, maxDigits, maxExponent, limit)
      case Written(text) =>
        && FirstLimit(f, maxDigits, maxExponent, NoLimit)
        && exists p :: Writes(f, p) && LaidOutAs(f, p) && text == Text(p) + ("p" + Dec(f.prec))
  }

  lemma ZeroText(f: BigFloatFields)
    ensures WellFormed(ZeroParts(f)) && Text(ZeroParts(f)) == SignOf(f) + "0"
  {
  }

  lemma ZeroMagnitude(f: BigFloatFields)
    requires WellFormed(ZeroParts(f))
    ensures Magnitude(ZeroParts(f)) == 0.0
  {
    hide DecValue;
    var p := ZeroParts(f);
    DecZeros(1, "");
    assert Significant(p) == "0" == Zeros(1) + "";
    assert DecValue("") == 0 by { DecEmpty(); }
  }

  lemma ZeroCount(f: BigFloatFields)
    ensures CountDigits(SignOf(f) + "0", true) == 0
  {
    assert CountDigits("0", true) == 0;
    if f.negative {
      CountSkip('-', "0", true);
    } else {
      assert "" + "0" == "0";
    }
  }

  lemma ZeroWrites(f: BigFloatFields)
    ensures WellFormed(ZeroParts(f)) && Text(ZeroParts(f)) == SignOf(f) + "0" && Magnitude(ZeroParts(f)) == 0.0
    ensures CountDigits(Text(ZeroParts(f)), true) == 0
    ensures Split(Text(ZeroParts(f))) == Some(ZeroParts(f))
  {
    hide Text, CountDigits, Split, Magnitude, WellFormed;
    ZeroText(f);
    ZeroMagnitude(f);
    ZeroCount(f);
    SplitText(ZeroParts(f));
  }

  lemma ZeroWritesFor(f: BigFloatFields)
    requires f.prec > 0 && Mantissa(f) == 0
    ensures Writes(f, ZeroParts(f)) && LaidOutAs(f, ZeroParts(f))
  {
    hide Magnitude, CountDigits, Mantissa, Text, Split;
    ZeroWrites(f);
    Pow2DigitsExact(f.prec);
  }

  method FormatBigFloatLiteral(f: BigFloatFields, maxDigits: I32, maxExponent: I32) returns (r: Formatted)
    ensures FormatsAs(f, maxDigits, maxExponent, r)
  {
    hide Mantissa, Writes, FirstLimit, Text, IsRounded, Spells, Split, Magnitude, CountDigits, Dec, Ratio, FloatValue,
         BitLength;
    hide BigFloatPrecDigits, Layout, LaidOutAs;
    ZeroWrites(f);
    if f.prec == 0 {
      return Written(if f.negative then "-0" else "0");
    }
    var prec := Dec(f.prec);
    var limit := CheckBigFloatLimits(f, maxDigits, maxExponent);
    if limit != NoLimit {
      return Refused(limit);
    }
    var suffix := "p" + prec;
    var sign := if f.negative then "-" else "";
    var m, exponent := RoundedMantissa(f);
    var zero := m.IsZero();
    if zero {
      ZeroWritesFor(f);
      return Written(sign + "0" + suffix);
    }
    var bits := m.BitLen();
    var bin := exponent + bits;
    WithinBound(f, maxDigits, maxExponent, m.Value(), exponent);
    var digits := BigFloatPrecDigits(f.prec);
    var num, den := ValueRatio(m, exponent);
    var estimate := TruncDiv((bin - 1) * 30103, 100000) - if bin - 1 < 0 then 1 else 0;
    var d, x := SignificantDigits(num, den, digits, estimate);
    LayoutWrites(f, m.Value(), exponent, d, x);
    LayoutIs(f, m.Value(), exponent, d, x);
    SpellsDigits(FloatValue(m.Value(), exponent), digits, d, x);
    var out := WriteLayout(sign, d, x, digits);
    r := Written(out + suffix);
  }

  lemma LayoutIs(f: BigFloatFields, m: nat, e: int, d: string, x: int)
    requires f.prec > 0 && Mantissa(f) > 0 && IsRounded(f, m, e) && BigFloatPrecDigits(f.prec) >= 0
    requires Spells(FloatValue(m, e), BigFloatPrecDigits(f.prec), d, x)
    ensures AllDigits(d) && d != ""
    ensures LaidOutAs(f, Layout(SignOf(f), d, x, BigFloatPrecDigits(f.prec)))
  {
    hide FloatValue, RoundsTo, BigFloatPrecDigits, Spells, Layout, Mantissa, BitLength;
    SpellsDigits(FloatValue(m, e), BigFloatPrecDigits(f.prec), d, x);
    var mm, ee :| RoundsTo(Stored(f), f.prec, mm, ee) && FloatValue(m, e) == FloatValue(mm, ee);
    assert DigitsLaidOut(f, FloatValue(mm, ee), d, x, Layout(SignOf(f), d, x, BigFloatPrecDigits(f.prec)));
  }

  lemma SpellsDigits(v: real, n: nat, d: string, x: int)
    requires Spells(v, n, d, x)
    ensures AllDigits(d) && d != ""
  {
  }

  /** A value past no limit has a rounded binary exponent of 32 bits, and at least two digits. */
  lemma {:induction false} WithinBound(f: BigFloatFields, maxDigits: int, maxExponent: I32, m: nat, e: int)
    requires f.prec > 0 && Mantissa(f) > 0 && FirstLimit(f, maxDigits, maxExponent, NoLimit) && IsRounded(f, m, e)
    ensures -0x8000_0000 <= e + BitLength(m) <= 0x8000_0000
    ensures BigFloatPrecDigits(f.prec) >= 2
  {
    hide Mantissa, BitLength, IsRounded, RoundedExceeds;
    RoundedBound(f, m, e, maxExponent);
    Pow2DigitsExact(f.prec);
  }
}
