/**
Which BigFloat messages are accepted and as what, said of values: src/pb/big.cc, UnmarshalBigFloatMsg.
 */
module BigFloatAccepted {
  import opened Bits
  import opened ByteMagnitude
  import opened Reals
  import opened Rounding
  import opened Precision
  import opened FloatArith
  import opened BigFloatParse
  import opened BigFloatFormat
  import opened BigFloatWire
  import opened BigFloatLimits

  /** The value a message is accepted as: none at precision zero, and else the value rounded to the precision. */
  ghost predicate AcceptedAs(w: BigFloatFields, out: BigFloatFields, m: nat, e: int) {
    && out.prec == w.prec && out.negative == w.negative && Minimal(out.mantissa)
    && if w.prec > 0 && Mantissa(w) > 0 then Stored(out) == FloatValue(m, e)
       else out.mantissa == [] && out.exponent == 0
  }

  lemma {:induction false} AcceptedIs(w: BigFloatFields, maxExponent: int, maxDigits: int, m: nat, e: int)
    requires w.prec > 0 && Mantissa(w) > 0 ==> RoundsTo(Stored(w), w.prec, m, e)
    ensures var r := Accepted(w, maxExponent, maxDigits);
            && (r.Some? ==> AcceptedAs(w, r.value, m, e))
            && (r.Some? <==>
                w.prec == 0
                || (&& BigFloatPrecDigits(w.prec) <= maxDigits
                    && (Mantissa(w) > 0 ==>
                          InRange(Stored(w), maxExponent) && FloatValue(m, e) < Exp(2, INT32_MAX))))
  {
    hide RoundsTo, BigFloatPrecDigits, BitLength, RoundSticky, Stored, IsRounded, Mantissa, InRange, FloatValue, Exp;
    hide MinimalBytes;
    if w.prec > 0 && Mantissa(w) > 0 {
      var bits := BitLength(Mantissa(w));
      var shift := if bits > w.prec then bits - w.prec else 0;
      var k := RoundSticky(Mantissa(w), shift, false);
      StoredAt(w);
      BinaryRange(Stored(w), w.exponent + bits, maxExponent);
      NarrowedIs(w, shift, m, e);
      BelowPower(k, w.exponent + shift);
      MinimalBytesValue(k);
      KeptValue(k, w.exponent + shift, w.prec, w.negative);
    }
  }

  lemma {:induction false} NarrowedIs(w: BigFloatFields, shift: nat, m: nat, e: int)
    requires w.prec > 0 && Mantissa(w) > 0 && RoundsTo(Stored(w), w.prec, m, e)
    requires shift == (var len := BitLength(Mantissa(w)); if len <= w.prec then 0 else len - w.prec)
    ensures var k := RoundSticky(Mantissa(w), shift, false);
            k > 0 && FloatValue(k, w.exponent + shift) == FloatValue(m, e)
  {
    hide RoundsTo, BitLength, RoundSticky, Stored, Mantissa, FloatValue;
    RoundedIs(w, shift);
    var k := RoundSticky(Mantissa(w), shift, false);
    var m', e' :| RoundsTo(Stored(w), w.prec, m', e') && FloatValue(k, w.exponent + shift) == FloatValue(m', e')
                  && w.exponent + shift + BitLength(k) == e' + w.prec;
    RoundsToUnique(Stored(w), w.prec, m, e, m', e');
  }

  lemma BelowPower(k: nat, e: int)
    requires k > 0
    ensures e + BitLength(k) <= INT32_MAX <==> FloatValue(k, e) < Exp(2, INT32_MAX)
  {
    hide BitLength, FloatValue, Exp;
    var top := e + BitLength(k);
    FloatBounds(k, e, top);
    if top <= INT32_MAX {
      ExpMonotone(2, top, INT32_MAX);
    } else {
      ExpMonotone(2, INT32_MAX, top - 1);
    }
  }

  lemma KeptValue(k: nat, e: int, prec: nat, negative: bool)
    requires prec < 0x1_0000_0000
    ensures Stored(BigFloatFields(MinimalBytes(k), e, prec, negative)) == FloatValue(k, e)
  {
    MinimalBytesValue(k);
  }
}
