/**
The wire form of a BigFloat: src/pb/big.cc, MarshalBigFloatMsg and UnmarshalBigFloatMsg. Equal
values of one precision have the same bytes, since the mantissa always fills its prec bits.
 */
module BigFloatWire {
  import opened Powers
  import opened Bits
  import opened BigEndian
  import opened LimbArith
  import opened Reals
  import opened Rounding
  import opened Options
  import opened Precision
  import opened FloatArith
  import opened BigFloatParse
  import opened BigFloatFormat
  import opened Wire
  import opened WireFields
  import opened ByteMagnitude

  const MAX_DIGITS: int := 4096
  const MAX_EXPONENT: int := 16384

  // ---- The one form of a value ----

  /** c holds v's value rounded to prec in exactly prec bits; a zero has no exponent. */
  ghost predicate BigFloatForm(v: BigFloatFields, c: BigFloatFields) {
    && c.prec == v.prec && c.negative == v.negative && Minimal(c.mantissa)
    && if v.prec == 0 || Mantissa(v) == 0 then c.mantissa == [] && c.exponent == 0
       else RoundsTo(Stored(v), v.prec, Mantissa(c), c.exponent)
  }

  /** The mantissa of a form has prec bits, so its top one is set. */
  lemma {:induction false} FormBits(v: BigFloatFields, c: BigFloatFields)
    requires BigFloatForm(v, c) && v.prec > 0 && Mantissa(v) > 0
    ensures BitLength(Mantissa(c)) == v.prec && c.mantissa != []
  {
    hide RoundsTo, Stored, Num;
    RoundsToBits(Stored(v), v.prec, Mantissa(c), c.exponent);
    BitLengthIs(Mantissa(c), v.prec);
    NumEmpty(256);
    PowPositive(2, v.prec - 1);
  }

  /** v and w are one number once rounded to their precision. */
  ghost predicate EqualRounded(v: BigFloatFields, w: BigFloatFields) {
    && v.prec == w.prec && v.negative == w.negative
    && if v.prec == 0 then true
       else if Mantissa(v) == 0 || Mantissa(w) == 0 then Mantissa(v) == Mantissa(w)
       else exists m, e :: RoundsTo(Stored(v), v.prec, m, e) && RoundsTo(Stored(w), v.prec, m, e)
  }

  /** Equal numbers have equal forms, and only equal numbers do. */
  lemma {:induction false} BigFloatFormCanonical(v: BigFloatFields, cv: BigFloatFields, w: BigFloatFields,
                                                 cw: BigFloatFields)
    requires BigFloatForm(v, cv) && BigFloatForm(w, cw)
    ensures cv == cw <==> EqualRounded(v, w)
  {
    hide RoundsTo, Stored, Mantissa, Num;
    if v.prec > 0 && Mantissa(v) > 0 {
      FormBits(v, cv);
    }
    if w.prec > 0 && Mantissa(w) > 0 {
      FormBits(w, cw);
    }
    if EqualRounded(v, w) && v.prec > 0 && Mantissa(v) > 0 {
      var m, e :| RoundsTo(Stored(v), v.prec, m, e) && RoundsTo(Stored(w), v.prec, m, e);
      RoundsToUnique(Stored(v), v.prec, m, e, Mantissa(cv), cv.exponent);
      RoundsToUnique(Stored(w), v.prec, m, e, Mantissa(cw), cw.exponent);
      SameMantissa(cv, cw);
    }
  }

  lemma SameMantissa(a: BigFloatFields, b: BigFloatFields)
    requires Mantissa(a) == Mantissa(b) && Minimal(a.mantissa) && Minimal(b.mantissa)
    ensures a.mantissa == b.mantissa
  {
    MinimalUnique(a.mantissa, b.mantissa);
  }

  // ---- Widening a rounded value to prec bits ----

  /** m moved to prec bits: a carry past the top bit dropped, or zeros appended. */
  ghost function Widened(m: nat, prec: nat): nat {
    var bits := BitLength(m);
    if bits > prec then RoundSticky(m, bits - prec, false) else m * Pow(2, prec - bits)
  }

  lemma {:induction false} WidenedRounds(f: BigFloatFields, m: nat, e: int)
    requires f.prec > 0 && m > 0 && IsRounded(f, m, e)
    ensures RoundsTo(Stored(f), f.prec, Widened(m, f.prec), e + BitLength(m) - f.prec)
  {
    hide RoundsTo, Stored, BitLength, FloatValue, Pow, RoundSticky;
    var p: int := f.prec;
    var bits := BitLength(m);
    var mm, ee :| RoundsTo(Stored(f), p, mm, ee) && FloatValue(m, e) == FloatValue(mm, ee) && e + bits == ee + p;
    if bits > p {
      SameScale(mm, ee, m, e);
      ExactDrop(mm, bits - p);
    } else {
      SameScale(m, e, mm, ee);
    }
  }

  /** Equal values at two scales: the finer one's digits are the coarser's, shifted. */
  lemma {:induction false} SameScale(m: nat, e: int, n: nat, s: int)
    requires s <= e && FloatValue(m, e) == FloatValue(n, s)
    ensures n == m * Pow(2, e - s)
  {
    hide Exp, Pow;
    WholeUnits(m, e, s);
    FloatValueIs(m * Pow(2, e - s), s);
    FloatValueIs(n, s);
    ExpPositive(s);
    CancelReal((m * Pow(2, e - s)) as real, n as real, Exp(2, s));
  }

  /** Dropping zero bits loses nothing. */
  lemma {:induction false} ExactDrop(m: nat, k: nat)
    requires k > 0
    ensures RoundSticky(m * Pow(2, k), k, false) == m
  {
    PowPositive(2, k);
    PowPositive(2, k - 1);
    DivUnique(m * Pow(2, k), Pow(2, k), m, 0);
  }

  // ---- Writing ----

  function BigFloatBytes(c: BigFloatFields): seq<Byte>
    requires -0x8000_0000 <= c.exponent < 0x8000_0000
  {
    (if c.mantissa != [] then TagBytes(1, BytesType) + Bytes(c.mantissa) else [])
    + ((if c.exponent != 0 then TagBytes(2, VarintType) + Varint(SignExtend(c.exponent)) else [])
       + ((if c.prec != 0 then TagBytes(3, VarintType) + Varint(c.prec) else [])
          + (if c.negative then TagBytes(4, VarintType) + Varint(1) else [])))
  }

  /** What Marshal writes: a precision and, rounded to it, a binary exponent within the default limits. */
  ghost predicate WithinDefaults(v: BigFloatFields) {
    v.prec > 0 ==> && BigFloatPrecDigits(v.prec) <= MAX_DIGITS
                   && (Mantissa(v) > 0 ==> !RoundedExceeds(v, MAX_EXPONENT))
  }

  /** Rounds a mantissa to prec bits, as RoundedMantissa does for text. */
  method Narrow(mantissa0: seq<Byte>, exponent0: int, prec: Limb, ghost v: BigFloatFields)
    returns (mantissa: seq<Byte>, exponent: int)
    requires prec > 0 && Minimal(mantissa0) && mantissa0 != []
    requires v.prec == prec && Mantissa(v) == Num(256, mantissa0) && v.exponent == exponent0
    ensures Minimal(mantissa) && mantissa != [] && Num(256, mantissa) > 0
    ensures Num(256, mantissa0) > 0 && IsRounded(v, Num(256, mantissa), exponent)
    ensures var shift := if BitLength(Num(256, mantissa0)) > prec then BitLength(Num(256, mantissa0)) - prec else 0;
            exponent == exponent0 + shift && Num(256, mantissa) == RoundSticky(Num(256, mantissa0), shift, false)
    ensures BitLength(Num(256, mantissa0)) <= prec ==> mantissa == mantissa0
  {
    hide Num, BitLength, IsRounded, Pow;
    mantissa, exponent := mantissa0, exponent0;
    MinimalZero(mantissa0);
    var bits := BitLen(mantissa);
    var shift := if bits > prec then bits - prec else 0;
    RoundedIs(v, shift);
    if bits > prec {
      mantissa := ShiftRightRounded(mantissa, bits - prec);
      exponent := exponent + (bits - prec);
    }
    MinimalZero(mantissa);
  }

  /** Shifts a short mantissa up to its precision; refuses an exponent the bounds do not admit. */
  method WidenMantissa(v: BigFloatFields, mantissa0: seq<Byte>) returns (ok: bool, mantissa: seq<Byte>, exponent: int)
    requires v.prec > 0 && BigFloatPrecDigits(v.prec) <= MAX_DIGITS
    requires Minimal(mantissa0) && mantissa0 != [] && Num(256, mantissa0) == Mantissa(v)
    ensures ok <==> !RoundedExceeds(v, MAX_EXPONENT)
    ensures ok ==> Minimal(mantissa) && RoundsTo(Stored(v), v.prec, Num(256, mantissa), exponent)
    ensures ok ==> -0x8000_0000 <= exponent < 0x8000_0000
  {
    hide Mantissa, Stored, RoundsTo, RoundedExceeds, IsRounded, BigFloatPrecDigits, BitLength, Num, Widened, Pow;
    var prec: int := v.prec;
    mantissa, exponent := Narrow(mantissa0, v.exponent, v.prec, v);
    var bits := BitLen(mantissa);
    ghost var m := Num(256, mantissa);
    WidenedRounds(v, m, exponent);
    WidenedIs(m, v.prec);
    RoundedBound(v, m, exponent, MAX_EXPONENT);
    SmallPrecision(v.prec);
    var widened := exponent + bits - prec;
    if widened < INT32_MIN || widened > INT32_MAX {
      return false, mantissa, exponent;
    }
    var binary := widened + prec;
    if binary > MAX_EXPONENT || binary < -MAX_EXPONENT {
      return false, mantissa, exponent;
    }
    if bits > prec {
      mantissa := ShiftRightRounded(mantissa, bits - prec);
    } else {
      mantissa := ShiftLeft(mantissa, prec - bits);
    }
    return true, mantissa, widened;
  }

  method MarshalBigFloatMsg(v: BigFloatFields, out: seq<Byte>) returns (ok: bool, r: seq<Byte>, ghost c: BigFloatFields)
    requires -0x8000_0000 <= v.exponent < 0x8000_0000
    ensures ok <==> WithinDefaults(v)
    ensures ok ==> BigFloatForm(v, c) && -0x8000_0000 <= c.exponent < 0x8000_0000 && r == out + BigFloatBytes(c)
  {
    hide Mantissa, Stored, RoundsTo, RoundedExceeds, TagBytes, Bytes, Varint, BigFloatPrecDigits, Num;
    r, c := out, v;
    if v.prec == 0 {
      c := BigFloatFields([], 0, 0, v.negative);
      if v.negative {
        r := r + (TagBytes(4, VarintType) + Varint(1));
      }
      assert r == out + BigFloatBytes(c);
      return true, r, c;
    }
    if BigFloatPrecDigits(v.prec) > MAX_DIGITS {
      return false, r, c;
    }
    var mantissa := TrimLeadingZeros(v.mantissa);
    TrimmedMantissa(v);
    var exponent := 0;
    if mantissa != [] {
      ok, mantissa, exponent := WidenMantissa(v, mantissa);
      if !ok {
        return;
      }
    }
    c := BigFloatFields(mantissa, exponent, v.prec, v.negative);
    MantissaIs(c);
    if mantissa != [] {
      r := r + (TagBytes(1, BytesType) + Bytes(mantissa));
    }
    if exponent != 0 {
      r := r + (TagBytes(2, VarintType) + Varint(SignExtend(exponent)));
    }
    r := r + (TagBytes(3, VarintType) + Varint(v.prec));
    if v.negative {
      r := r + (TagBytes(4, VarintType) + Varint(1));
    }
    assert r == out + BigFloatBytes(c);
    ok := true;
  }

  lemma TrimmedMantissa(v: BigFloatFields)
    ensures Num(256, TrimLeadingZeros(v.mantissa)) == Mantissa(v)
    ensures TrimLeadingZeros(v.mantissa) == [] <==> Mantissa(v) == 0
  {
    TrimmedValue(v.mantissa);
    MinimalZero(TrimLeadingZeros(v.mantissa));
  }

  lemma MantissaIs(c: BigFloatFields)
    ensures Mantissa(c) == Num(256, c.mantissa)
  {
  }

  lemma WidenedIs(m: nat, prec: nat)
    ensures BitLength(m) > prec ==> Widened(m, prec) == RoundSticky(m, BitLength(m) - prec, false)
    ensures BitLength(m) <= prec ==> Widened(m, prec) == m * Pow(2, prec - BitLength(m))
  {
  }

  /** The default digit bound keeps a precision small. */
  lemma SmallPrecision(prec: Limb)
    requires BigFloatPrecDigits(prec) <= MAX_DIGITS
    ensures prec < 20000
  {
  }

  // ---- Reading ----

  function BigFloatField(d: seq<Byte>, num: nat, v: BigFloatFields): Field<BigFloatFields> {
    if num == 1 then
      (match ReadBytes(d) case Bad => Corrupt case Got(b, n) => Took(v.(mantissa := b), n))
    else if num == 2 then
      (match ReadVarint(d) case Bad => Corrupt case Got(x, n) => Took(v.(exponent := LowInt32(x)), n))
    else if num == 3 then
      (match ReadVarint(d) case Bad => Corrupt case Got(x, n) => Took(v.(prec := x % 0x1_0000_0000), n))
    else if num == 4 then
      (match ReadVarint(d) case Bad => Corrupt case Got(x, n) => Took(v.(negative := x != 0), n))
    else Unknown
  }

  const EMPTY := BigFloatFields([], 0, 0, false)

  /** n in base 256, most significant first, with no leading zero. */
  ghost function MinimalBytes(n: nat): (s: seq<Byte>)
    ensures Minimal(s)
  {
    if n == 0 then [] else MinimalBytes(n / 256) + [n % 256]
  }

  lemma {:induction false} MinimalBytesValue(n: nat)
    ensures Num(256, MinimalBytes(n)) == n
    decreases n
  {
    if n > 0 {
      MinimalBytesValue(n / 256);
      NumSnoc(256, MinimalBytes(n / 256), n % 256);
    }
  }

  lemma {:induction false} MinimalBytesOf(mag: seq<Byte>)
    requires Minimal(mag)
    ensures MinimalBytes(Num(256, mag)) == mag
  {
    MinimalBytesValue(Num(256, mag));
    MinimalUnique(MinimalBytes(Num(256, mag)), mag);
  }

  /** The value the wire's fields hold: a mantissa wider than prec narrowed to it, once. */
  ghost function Accepted(w: BigFloatFields, maxExponent: int, maxDigits: int): Option<BigFloatFields> {
    var m := Mantissa(w);
    var bits := BitLength(m);
    var shift := if bits > w.prec then bits - w.prec else 0;
    var narrowed := RoundSticky(m, shift, false);
    if w.prec == 0 then Some(BigFloatFields([], 0, 0, w.negative))
    else if BigFloatPrecDigits(w.prec) > maxDigits then None
    else if m == 0 then Some(BigFloatFields([], 0, w.prec, w.negative))
    else if ExceedsBound(w.exponent + bits, maxExponent) then None
    else if w.exponent + shift + BitLength(narrowed) > INT32_MAX then None
    else Some(BigFloatFields(MinimalBytes(narrowed), w.exponent + shift, w.prec, w.negative))
  }

  ghost function DecodeBigFloat(data: seq<Byte>, maxExponent: I32, maxDigits: I32): Option<BigFloatFields> {
    match ReadFields(data, EMPTY, BigFloatField)
    case None => None
    case Some(w) =>
      Accepted(w, if maxExponent <= 0 then MAX_EXPONENT else maxExponent,
               if maxDigits <= 0 then MAX_DIGITS else maxDigits)
  }

  method AcceptBigFloat(w: BigFloatFields, maxExponent: int, maxDigits: int) returns (r: Option<BigFloatFields>)
    ensures r == Accepted(w, maxExponent, maxDigits)
  {
    hide Num, BitLength, IsRounded, Stored, RoundSticky, BigFloatPrecDigits;
    if w.prec == 0 {
      return Some(BigFloatFields([], 0, 0, w.negative));
    }
    if BigFloatPrecDigits(w.prec) > maxDigits {
      return None;
    }
    var mantissa := TrimLeadingZeros(w.mantissa);
    TrimmedMantissa(w);
    var bits := BitLen(mantissa);
    NoBits();
    if bits == 0 {
      ZeroBits(Mantissa(w));
      return Some(BigFloatFields([], 0, w.prec, w.negative));
    }
    var binary := w.exponent + bits;
    if binary > maxExponent || binary < -maxExponent {
      return None;
    }
    var exponent;
    mantissa, exponent := Narrow(mantissa, w.exponent, w.prec, w);
    MinimalBytesOf(mantissa);
    var length := BitLen(mantissa);
    if exponent + length > INT32_MAX {
      return None;
    }
    r := Some(BigFloatFields(mantissa, exponent, w.prec, w.negative));
  }

  lemma ZeroBits(m: nat)
    ensures BitLength(m) == 0 <==> m == 0
  {
  }

  method UnmarshalBigFloatMsg(data: seq<Byte>, maxExponent0: I32, maxDigits0: I32)
    returns (r: Option<BigFloatFields>)
    ensures r == DecodeBigFloat(data, maxExponent0, maxDigits0)
  {
    hide Accepted;
    var maxExponent: int, maxDigits: int := maxExponent0, maxDigits0;
    if maxExponent <= 0 {
      maxExponent := MAX_EXPONENT;
    }
    if maxDigits <= 0 {
      maxDigits := MAX_DIGITS;
    }
    var read := ReadFieldsLoop(data, EMPTY, BigFloatField);
    if read.None? {
      return None;
    }
    r := AcceptBigFloat(read.value, maxExponent, maxDigits);
  }

  // ---- Reading back what was written ----

  /** The four fields of a form, read in order. */
  lemma {:induction false} FieldsReadBack(c: BigFloatFields)
    requires -0x8000_0000 <= c.exponent < 0x8000_0000 && |c.mantissa| < 0x1_0000_0000_0000_0000
    ensures ReadFields(BigFloatBytes(c), EMPTY, BigFloatField) == Some(c)
  {
    hide Bytes, Varint, ReadBytes, ReadVarint, TagBytes, ReadFields;
    var d1 := EMPTY.(mantissa := c.mantissa);
    var d2 := d1.(exponent := c.exponent);
    var d3 := d2.(prec := c.prec);
    var s4 := if c.negative then TagBytes(4, VarintType) + Varint(1) else [];
    var s3 := (if c.prec != 0 then TagBytes(3, VarintType) + Varint(c.prec) else []) + s4;
    var s2 := (if c.exponent != 0 then TagBytes(2, VarintType) + Varint(SignExtend(c.exponent)) else []) + s3;
    SignField(c, d3);
    PrecField(c.prec, d2, s4);
    ExponentField(c.exponent, d1, s3);
    if c.mantissa != [] {
      BytesRead(c.mantissa, s2);
      FieldReads(1, BytesType, Bytes(c.mantissa), s2, EMPTY, d1, BigFloatField);
    } else {
      assert [] + s2 == s2;
    }
  }

  lemma SignField(c: BigFloatFields, d: BigFloatFields)
    requires c == d.(negative := c.negative) && !d.negative
    ensures ReadFields(if c.negative then TagBytes(4, VarintType) + Varint(1) else [], d, BigFloatField) == Some(c)
  {
    hide Varint, TagBytes;
    if c.negative {
      VarintReads(1, []);
      FieldReads(4, VarintType, Varint(1), [], d, c, BigFloatField);
      assert TagBytes(4, VarintType) + Varint(1) + [] == TagBytes(4, VarintType) + Varint(1);
    }
  }

  lemma PrecField(prec: Limb, d: BigFloatFields, rest: seq<Byte>)
    requires d.prec == 0
    ensures ReadFields((if prec != 0 then TagBytes(3, VarintType) + Varint(prec) else []) + rest, d, BigFloatField)
            == ReadFields(rest, d.(prec := prec), BigFloatField)
  {
    hide Varint, TagBytes, ReadFields;
    if prec != 0 {
      VarintReads(prec, rest);
      FieldReads(3, VarintType, Varint(prec), rest, d, d.(prec := prec), BigFloatField);
    } else {
      assert [] + rest == rest;
    }
  }

  lemma ExponentField(exponent: I32, d: BigFloatFields, rest: seq<Byte>)
    requires d.exponent == 0
    ensures ReadFields((if exponent != 0 then TagBytes(2, VarintType) + Varint(SignExtend(exponent)) else []) + rest,
                       d, BigFloatField)
            == ReadFields(rest, d.(exponent := exponent), BigFloatField)
  {
    hide Varint, TagBytes, ReadFields;
    if exponent != 0 {
      var x := SignExtend(exponent);
      VarintReads(x, rest);
      SignExtendReads(exponent);
      FieldReads(2, VarintType, Varint(x), rest, d, d.(exponent := exponent), BigFloatField);
    } else {
      assert [] + rest == rest;
    }
  }

  /** Everything Marshal writes, Unmarshal accepts at the default limits, and returns as it is. */
  lemma {:induction false} BigFloatRoundTrip(v: BigFloatFields, c: BigFloatFields)
    requires WithinDefaults(v) && BigFloatForm(v, c)
    requires -0x8000_0000 <= c.exponent < 0x8000_0000 && |c.mantissa| < 0x1_0000_0000_0000_0000
    ensures DecodeBigFloat(BigFloatBytes(c), 0, 0) == Some(c)
  {
    hide Stored, RoundsTo, BigFloatPrecDigits, Num, BitLength, ReadFields, BigFloatBytes;
    FieldsReadBack(c);
    NumEmpty(256);
    if v.prec > 0 && Mantissa(v) > 0 {
      FormBits(v, c);
      MinimalBytesOf(c.mantissa);
      MinimalZero(c.mantissa);
      assert RoundsTo(Stored(v), v.prec, Mantissa(c), c.exponent);
      var p: int := v.prec;
      assert !ExceedsBound(c.exponent + p, MAX_EXPONENT);
    }
  }

  /** What Unmarshal returns is the wire's number: writing it again gives the wire value's one form. */
  lemma {:induction false} AcceptedSameForm(w: BigFloatFields, maxExponent: int, maxDigits: int, c: BigFloatFields)
    requires Accepted(w, maxExponent, maxDigits).Some?
    ensures BigFloatForm(Accepted(w, maxExponent, maxDigits).value, c) <==> BigFloatForm(w, c)
  {
    hide RoundsTo, BigFloatPrecDigits, Num, BitLength, RoundSticky, Stored, IsRounded;
    var out := Accepted(w, maxExponent, maxDigits).value;
    NumEmpty(256);
    if w.prec > 0 && Mantissa(w) > 0 {
      var bits := BitLength(Mantissa(w));
      var shift := if bits > w.prec then bits - w.prec else 0;
      RoundedIs(w, shift);
      MinimalBytesValue(RoundSticky(Mantissa(w), shift, false));
      StoredIs(out);
      SameRounding(w, Mantissa(out), out.exponent, Mantissa(c), c.exponent);
    }
  }

  lemma StoredIs(f: BigFloatFields)
    ensures Stored(f) == FloatValue(Mantissa(f), f.exponent)
  {
  }

  /** Rounding a value already rounded changes nothing. */
  lemma {:induction false} SameRounding(f: BigFloatFields, m: nat, e: int, m': nat, e': int)
    requires f.prec > 0 && IsRounded(f, m, e)
    ensures RoundsTo(FloatValue(m, e), f.prec, m', e') <==> RoundsTo(Stored(f), f.prec, m', e')
  {
    hide RoundsTo, Stored, BitLength, FloatValue, Pow;
    var p: int := f.prec;
    var mm, ee :| RoundsTo(Stored(f), p, mm, ee) && FloatValue(m, e) == FloatValue(mm, ee);
    RoundsToBits(Stored(f), p, mm, ee);
    ExactRounds(p, mm, ee);
    if RoundsTo(FloatValue(m, e), p, m', e') {
      RoundsToUnique(FloatValue(m, e), p, mm, ee, m', e');
    }
    if RoundsTo(Stored(f), p, m', e') {
      RoundsToUnique(Stored(f), p, mm, ee, m', e');
    }
  }
}
