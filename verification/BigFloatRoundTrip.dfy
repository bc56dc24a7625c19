/**
A BigFloat written as text and read back: src/pxf/wellknown.cc, SetBigFloatFromString, over
FormatBigFloatLiteral and ParseBigFloatLiteral.
 */
module BigFloatRoundTrip {
  import opened Powers
  import opened Bits
  import opened BigEndian
  import opened DecimalText
  import opened Reals
  import opened Rounding
  import opened Options
  import opened Literals
  import opened LimbArith
  import opened Precision
  import opened DecimalDigits
  import opened BigFloatParse
  import opened BigFloatLayout
  import opened BigFloatFormat

  /** Where the first 'p' is, or the end. */
  function FindSuffix(s: string): (i: nat)
    ensures i <= |s| && NoSuffix(s[..i]) && (i < |s| ==> s[i] == 'p')
  {
    if s == "" || s[0] == 'p' then 0
    else
      var i := 1 + FindSuffix(s[1..]);
      assert forall k :: 0 < k < i ==> s[..i][k] == s[1..][..i - 1][k - 1];
      i
  }

  /** A literal and its suffix, apart. */
  lemma SuffixOf(literal: string, prec: string)
    requires NoSuffix(literal)
    ensures var t := literal + ("p" + prec);
            FindSuffix(t) == |literal| && t[..|literal|] == literal && t[|literal| + 1..] == prec
  {
    var t := literal + ("p" + prec);
    var i := FindSuffix(t);
    assert t[|literal|] == 'p';
  }

  method BigFloatFromString(text: string, maxDigits: I32, maxExponent: I32, gate: Gate)
    returns (r: Result<BigFloatFields>)
    requires Countable(text[..FindSuffix(text)])
    ensures var i := FindSuffix(text);
            var prec := if i == |text| then "" else text[i + 1..];
            if i + 1 == |text| then r == Err(BadPrecision)
            else && (r.Ok? <==> Accepts(text[..i], prec, maxDigits, maxExponent, gate))
                 && (r.Ok? ==> ReadsAs(text[..i], prec, r.value))
  {
    hide Accepts, ReadsAs;
    var i := FindSuffix(text);
    if i < |text| && i + 1 == |text| {
      return Err(BadPrecision);
    }
    var number := text[..i];
    var prec := if i == |text| then "" else text[i + 1..];
    r := ParseBigFloatLiteral(number, prec, maxDigits, maxExponent, gate);
  }

  // ---- What reading back must give ----

  /** g holds f's sign, precision and value rounded to it, in exactly prec bits. */
  ghost predicate SameRounded(f: BigFloatFields, g: BigFloatFields) {
    && g.negative == f.negative && g.prec == f.prec
    && if f.prec == 0 || Mantissa(f) == 0 then g.mantissa == [] && g.exponent == 0
       else && RoundsTo(Stored(f), f.prec, Mantissa(g), g.exponent)
            && BitLength(Mantissa(g)) == f.prec
            && |g.mantissa| == (f.prec + 7) / 8
  }

  /** The wire's exponent has 32 bits. */
  ghost predicate WireExponent(f: BigFloatFields)
    requires f.prec > 0
  {
    exists m, e :: RoundsTo(Stored(f), f.prec, m, e) && e >= INT32_MIN
  }

  /** What a reader asks beyond the writer's own limits. */
  ghost predicate Readable(f: BigFloatFields, maxDigits: int, maxExponent: int, gate: Gate) {
    && gate.scans && gate.parses
    && (f.prec == 0 ==> maxDigits >= 0)
    && (f.prec > 0 && Mantissa(f) > 0 ==> GateOpen(gate, f.prec, maxExponent) && WireExponent(f))
  }

  // ---- The literal determines the value ----

  /** What is written for a non-zero value rounds back to that value, and to nothing else. */
  lemma {:induction false} WrittenRounds(f: BigFloatFields, w: real, m: nat, e: int)
    requires f.prec > 0 && WritesRounded(f, w)
    ensures w > 0.0
    ensures RoundsTo(w, f.prec, m, e) <==> RoundsTo(Stored(f), f.prec, m, e)
  {
    hide RoundsTo, FloatValue, Decimal, AtPower, Shifted, Stored, RoundHalfEven, Pow;
    var n := BigFloatPrecDigits(f.prec);
    var mm, ee, x :| RoundsTo(Stored(f), f.prec, mm, ee) && RoundedDecimal(FloatValue(mm, ee), n, w, x);
    RoundsToBits(Stored(f), f.prec, mm, ee);
    Pow2DigitsExact(f.prec);
    var d := RoundHalfEven(Shifted(FloatValue(mm, ee), n, x));
    DigitsDetermine(f.prec, mm, ee, n, x, d);
    RoundsPositive(w, f.prec, mm, ee);
    if RoundsTo(w, f.prec, m, e) {
      RoundsToUnique(w, f.prec, m, e, mm, ee);
    }
    if RoundsTo(Stored(f), f.prec, m, e) {
      RoundsToUnique(Stored(f), f.prec, m, e, mm, ee);
    }
  }

  lemma RoundsPositive(w: real, p: nat, m: nat, e: int)
    requires p > 0 && RoundsTo(w, p, m, e)
    ensures w > 0.0
  {
    var s :| RoundsAt(w, p, s, m, e);
    ExpNat(2, p - 1);
  }

  /** Reading the literal written for f succeeds exactly when it is readable. */
  lemma {:induction false} WrittenFits(f: BigFloatFields, w: real, maxDigits: int, maxExponent: int)
    requires f.prec > 0 && Mantissa(f) > 0 && WritesRounded(f, w) && FirstLimit(f, maxDigits, maxExponent, NoLimit)
    ensures Fits(w, f.prec, maxExponent) <==> WireExponent(f)
  {
    hide RoundsTo, Stored, WritesRounded;
    var p: int := f.prec;
    if Fits(w, p, maxExponent) {
      var m, e :| RoundsTo(w, p, m, e) && e >= INT32_MIN;
      WrittenRounds(f, w, m, e);
    }
    if WireExponent(f) {
      var m, e :| RoundsTo(Stored(f), p, m, e) && e >= INT32_MIN;
      WrittenRounds(f, w, m, e);
    }
  }

  /** The suffix of f's precision is a valid one, and short. */
  lemma {:induction false} SuffixReads(prec: Limb)
    requires prec > 0
    ensures ValidPrecision(Dec(prec)) && DecValue(Dec(prec)) == prec && PrecOf(Dec(prec)) == prec
    ensures BigFloatPrecDigits(prec) <= 1300000000
  {
    hide Dec, DecValue, Pow;
    DecOf(prec);
    TenToTen();
    DecLength(prec, 10);
  }

  /** One direction of reading: acceptance, for a literal and suffix written for f. */
  lemma {:induction false} WrittenAccepts(f: BigFloatFields, p: Parts, maxDigits: int, maxExponent: int, gate: Gate)
    requires f.prec > 0 && Writes(f, p) && FirstLimit(f, maxDigits, maxExponent, NoLimit)
    ensures Accepts(Text(p), Dec(f.prec), maxDigits, maxExponent, gate) <==> Readable(f, maxDigits, maxExponent, gate)
  {
    hide Fits, Magnitude, Text, Split, CountDigits, Dec, DecValue, Mantissa, WireExponent, WritesRounded, GateOpen;
    hide ValidPrecision, RoundedExceeds, BigFloatPrecDigits;
    SplitText(p);
    SuffixReads(f.prec);
    if Mantissa(f) > 0 {
      WrittenRounds(f, Magnitude(p), 0, 0);
      WrittenFits(f, Magnitude(p), maxDigits, maxExponent);
    }
  }

  lemma {:induction false} WrittenReads(f: BigFloatFields, p: Parts, g: BigFloatFields)
    requires f.prec > 0 && Writes(f, p)
    requires Split(Text(p)) == Some(p) && ValidPrecision(Dec(f.prec)) && ReadsAs(Text(p), Dec(f.prec), g)
    ensures SameRounded(f, g)
  {
    hide Magnitude, Text, Split, Dec, DecValue, WritesRounded, BigFloatPrecDigits, RoundsTo, Stored, CountDigits, Num;
    hide BitLength;
    SuffixReads(f.prec);
    if Mantissa(f) > 0 {
      WrittenRounds(f, Magnitude(p), Mantissa(g), g.exponent);
      RoundsToBits(Stored(f), f.prec, Mantissa(g), g.exponent);
      BitLengthIs(Mantissa(g), f.prec);
    }
  }

  /**
   * Whatever is written is read back, when the reader accepts it, as the same sign, precision
   * and rounded value; and the reader accepts it unless its own two extra limits are passed.
   */
  method TextRoundTrip(f: BigFloatFields, maxDigits: I32, maxExponent: I32, gate: Gate)
    returns (written: Formatted, back: Result<BigFloatFields>)
    ensures FormatsAs(f, maxDigits, maxExponent, written)
    ensures written.Written? ==> (back.Ok? <==> Readable(f, maxDigits, maxExponent, gate))
    ensures written.Written? && back.Ok? ==> SameRounded(f, back.value)
  {
    hide Writes, FirstLimit, Readable, SameRounded, Text, Dec, Accepts, ReadsAs, ValidPrecision, Countable;
    written := FormatBigFloatLiteral(f, maxDigits, maxExponent);
    back := Err(Invalid);
    if written.Written? {
      if f.prec == 0 {
        ZeroTextReads(f, maxDigits, maxExponent, gate);
      } else {
        ghost var p :| Writes(f, p) && written.text == Text(p) + ("p" + Dec(f.prec));
        WrittenText(f, p);
        WrittenAccepts(f, p, maxDigits, maxExponent, gate);
      }
      ShortCountable(written.text[..FindSuffix(written.text)]);
      back := BigFloatFromString(written.text, maxDigits, maxExponent, gate);
      if f.prec == 0 {
        if back.Ok? {
          ZeroWrites(f);
          ZeroReads(f, back.value);
        }
      } else if back.Ok? {
        ghost var p :| Writes(f, p) && written.text == Text(p) + ("p" + Dec(f.prec));
        WrittenText(f, p);
        WrittenReads(f, p, back.value);
      }
    }
  }

  lemma {:induction false} WrittenText(f: BigFloatFields, p: Parts)
    requires f.prec > 0 && Writes(f, p)
    ensures var t := Text(p) + ("p" + Dec(f.prec));
            && |t| <= INT32_MAX && FindSuffix(t) == |Text(p)| && |Text(p)| + 1 < |t|
            && t[..|Text(p)|] == Text(p) && t[|Text(p)| + 1..] == Dec(f.prec)
    ensures Split(Text(p)) == Some(p) && ValidPrecision(Dec(f.prec))
  {
    hide Text, Dec, CountDigits, Magnitude, WritesRounded, BigFloatPrecDigits, FindSuffix, NoSuffix, DecValue, Split;
    SuffixReads(f.prec);
    SplitText(p);
    TextHasNoSuffix(p);
    SuffixOf(Text(p), Dec(f.prec));
  }

  lemma {:induction false} ZeroTextReads(f: BigFloatFields, maxDigits: int, maxExponent: int, gate: Gate)
    requires f.prec == 0
    ensures var t := Text(ZeroParts(f));
            && |t| <= INT32_MAX && FindSuffix(t) == |t| && t[..|t|] == t
            && (Accepts(t, "", maxDigits, maxExponent, gate) <==> Readable(f, maxDigits, maxExponent, gate))
  {
    hide CountDigits, Magnitude, Split, Fits, GateOpen, FindSuffix;
    ZeroWrites(f);
    var t := Text(ZeroParts(f));
    assert t == "0" || t == "-0";
    TextHasNoSuffix(ZeroParts(f));
    assert t[..|t|] == t;
  }

  lemma ZeroReads(f: BigFloatFields, g: BigFloatFields)
    requires f.prec == 0 && Split(Text(ZeroParts(f))).Some? && ReadsAs(Text(ZeroParts(f)), "", g)
    ensures SameRounded(f, g)
  {
    hide Magnitude, Split, CountDigits, RoundsTo;
    ZeroWrites(f);
  }

  /** At the default limits the wire's exponent range never bars a value that was written. */
  lemma {:induction false} DefaultLimitsFitWire(f: BigFloatFields)
    requires f.prec > 0 && Mantissa(f) > 0 && FirstLimit(f, 4096, 16384, NoLimit)
    ensures WireExponent(f) && f.prec <= INT32_MAX
  {
    hide RoundsTo, Stored, Mantissa, BitLength;
    var len := BitLength(Mantissa(f));
    var shift := if len <= f.prec then 0 else len - f.prec;
    RoundedIs(f, shift);
    var p: int := f.prec;
    var m, e :| RoundsTo(Stored(f), p, m, e);
    assert !ExceedsBound(e + p, 16384);
    assert p < 20000;
  }
}
