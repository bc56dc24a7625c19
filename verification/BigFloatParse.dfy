/**
Reading a BigFloat literal: src/pxf/bigfloat.cc, ParseBigFloatLiteral. Go's own parser is
followed by the program only to decide refusals; here it is a Gate whose answers may be
anything.
 */
module BigFloatParse {
  import opened Powers
  import opened Bits
  import opened BigEndian
  import opened DecimalText
  import opened Options
  import opened Literals
  import opened LiteralScan
  import opened LimbArith
  import opened Reals
  import opened Rounding
  import opened Precision
  import opened BigNat
  import opened FloatArith

  /** The message's four fields. The mantissa is big-endian; empty for zero. */
  datatype BigFloatFields = BigFloatFields(mantissa: seq<Byte>, exponent: int, prec: Limb, negative: bool)

  datatype Refusal =
    | BadPrecision | PrecisionTooWide | TooManyDigits | Infinite | Invalid
    | AboveRange | BelowRange | MantissaTooWide | BelowWire | PastBound | InternalError

  datatype Result<+T> = Ok(value: T) | Err(why: Refusal)

  datatype Form = Zero | Finite | Inf

  /** The verdict of Go's parser on a literal: is it a number, is it in range, and of which form. */
  datatype Gate = Gate(scans: bool, parses: bool, form: Form, exp: int)

  const DEFAULT_PREC: Limb := 256
  const CHECK_PREC: int := 0x4000
  const INT32_MAX: int := 0x7fff_ffff
  const INT32_MIN: int := -0x8000_0000
  const MAX_LITERAL: int := 0x1_0000_0000_0000

  // ---- The precision suffix and the digit count ----

  ghost predicate ValidPrecision(digits: string) {
    digits != "" && |digits| <= 10 && AllDigits(digits) && 0 < DecValue(digits) < 0x1_0000_0000
  }

  method ParsePrecision(digits: string) returns (ok: bool, prec: Limb)
    ensures ok <==> ValidPrecision(digits)
    ensures ok ==> prec == DecValue(digits)
  {
    prec := 0;
    if digits == "" || |digits| > 10 {
      return false, 0;
    }
    var v: U64 := 0;
    var i := 0;
    assert digits[..0] == "";
    DecEmpty();
    while i < |digits|
      invariant 0 <= i <= |digits| && AllDigits(digits[..i]) && v == DecValue(digits[..i])
    {
      if !IsDigit(digits[i]) {
        return false, 0;
      }
      assert digits[..i + 1] == digits[..i] + [digits[i]];
      DecSnoc(digits[..i], digits[i]);
      DecBound(digits[..i + 1]);
      PowMonotone(10, i + 1, 10);
      TenDigits();
      v := v * 10 + DigitValue(digits[i]);
      i := i + 1;
    }
    assert digits[..i] == digits;
    if v == 0 || v > 0xffff_ffff {
      return false, 0;
    }
    ok, prec := true, v;
  }

  lemma TenDigits()
    ensures Pow(10, 10) == 10_000_000_000
  {
    WordPowers();
    PowAdd(10, 1, 9);
    assert Pow(10, 1) == 10;
  }

  /** The precision a suffix states, or the default. */
  ghost function PrecOf(digits: string): nat
    requires digits == "" || ValidPrecision(digits)
  {
    if digits == "" then 256 else DecValue(digits)
  }

  /** The digits MaxNumericLiteralDigits counts: significant ones, up to an exponent or suffix. */
  function CountDigits(s: string, leading: bool): nat {
    if s == "" || s[0] == 'e' || s[0] == 'E' || s[0] == 'p' then 0
    else if !IsDigit(s[0]) || (leading && s[0] == '0') then CountDigits(s[1..], leading)
    else 1 + CountDigits(s[1..], false)
  }

  /** Short enough for the digit counter, an int, and for any address space. */
  predicate Countable(s: string) {
    |s| < MAX_LITERAL && CountDigits(s, true) <= INT32_MAX
  }

  lemma {:induction false} CountAtMost(s: string, leading: bool)
    ensures CountDigits(s, leading) <= |s|
  {
    if s != "" {
      CountAtMost(s[1..], leading);
      CountAtMost(s[1..], false);
    }
  }

  lemma ShortCountable(s: string)
    requires |s| <= INT32_MAX
    ensures Countable(s)
  {
    CountAtMost(s, true);
  }

  method CountLiteralDigits(s: string) returns (n: I32)
    requires Countable(s)
    ensures n == CountDigits(s, true)
  {
    n := 0;
    var leading := true;
    var i := 0;
    assert s[0..] == s;
    while i < |s|
      invariant 0 <= i <= |s|
      invariant n + CountDigits(s[i..], leading) == CountDigits(s, true)
    {
      assert s[i..][1..] == s[i + 1..] && s[i..][0] == s[i];
      if s[i] == 'e' || s[i] == 'E' || s[i] == 'p' {
        return;
      }
      if IsDigit(s[i]) && !(leading && s[i] == '0') {
        leading := false;
        n := n + 1;
      }
      i := i + 1;
    }
  }

  // ---- The exact value of a literal, as a ratio of limbs ----

  method ReadDigits(digits: string) returns (num: Nat)
    requires AllDigits(digits)
    ensures fresh(num) && num.Valid() && num.Value() == DecValue(digits)
  {
    hide DecValue;
    num := new Nat(0);
    var i := 0;
    assert digits[..0] == "";
    DecEmpty();
    while i < |digits|
      invariant 0 <= i <= |digits| && fresh(num) && num.Valid() && num.Value() == DecValue(digits[..i])
    {
      assert digits[..i + 1] == digits[..i] + [digits[i]];
      DecSnoc(digits[..i], digits[i]);
      num.MulSmall(10);
      num.AddSmall(DigitValue(digits[i]));
      i := i + 1;
    }
    assert digits[..i] == digits;
  }

  /** The magnitude of a literal taken apart. */
  ghost function ScannedValue(lit: Literal): real
    requires AllDigits(lit.digits)
  {
    Decimal(DecValue(lit.digits), lit.exp10)
  }

  method ExactRatio(lit: Literal) returns (num: Nat, den: Nat)
    requires AllDigits(lit.digits) && DecValue(lit.digits) > 0
    ensures num.Valid() && den.Valid() && fresh(num) && fresh(den)
    ensures num.Value() > 0 && den.Value() > 0
    ensures Ratio(num.Value(), den.Value()) == ScannedValue(lit)
  {
    hide DecValue, Ratio, Exp, Pow;
    num := ReadDigits(lit.digits);
    den := new Nat(1);
    LiteralRatio(DecValue(lit.digits), lit.exp10);
    if lit.exp10 >= 0 {
      var p := Nat.Pow10(lit.exp10);
      num := Nat.Mul(num, p);
    } else {
      den := Nat.Pow10(-lit.exp10);
    }
  }

  lemma LiteralRatio(d: nat, e: int)
    requires d > 0
    ensures e >= 0 ==> d * Pow(10, e) > 0 && Ratio(d * Pow(10, e), 1) == Decimal(d, e)
    ensures e < 0 ==> Ratio(d, Pow(10, -e)) == Decimal(d, e)
  {
    hide Pow;
    if e >= 0 {
      MulReal(d, Pow(10, e));
      MulGrows(d, Pow(10, e));
    } else {
      RatioTimes(d, Pow(10, -e));
    }
  }

  // ---- Which literals are accepted, and what they become ----

  /** v rounded to prec bits has a binary exponent within the bound, and one the wire can carry. */
  ghost predicate Fits(v: real, prec: nat, maxExponent: int)
    requires prec > 0
  {
    exists m, e :: RoundsTo(v, prec, m, e) && -maxExponent <= e + prec <= maxExponent && e >= INT32_MIN
  }

  predicate ExceedsBound(e: int, limit: int) {
    e > limit || e < -limit
  }

  /** Where Parse's answer lets a non-zero literal of precision prec through. */
  predicate GateOpen(gate: Gate, prec: int, maxExponent: int) {
    && gate.form == Finite
    && prec <= INT32_MAX
    && gate.exp - prec >= INT32_MIN
    && !ExceedsBound(if prec > CHECK_PREC && gate.exp > 0 then gate.exp - 1 else gate.exp, maxExponent)
  }

  ghost predicate Accepts(literal: string, precDigits: string, maxDigits: int, maxExponent: int, gate: Gate) {
    && (precDigits != "" ==> ValidPrecision(precDigits) && BigFloatPrecDigits(DecValue(precDigits)) <= maxDigits)
    && CountDigits(literal, true) <= maxDigits
    && Split(literal).Some? && gate.scans && gate.parses
    && var v := Magnitude(Split(literal).value);
       v != 0.0 ==> GateOpen(gate, PrecOf(precDigits), maxExponent) && Fits(v, PrecOf(precDigits), maxExponent)
  }

  /** out is the literal's value rounded to its precision; a zero keeps its sign and a stated precision. */
  ghost predicate ReadsAs(literal: string, precDigits: string, out: BigFloatFields)
    requires Split(literal).Some? && (precDigits == "" || ValidPrecision(precDigits))
  {
    var p := Split(literal).value;
    var v := Magnitude(p);
    && out.negative == (p.sign == "-")
    && (v == 0.0 ==> out.mantissa == [] && out.exponent == 0
                     && out.prec == (if precDigits == "" then 0 else PrecOf(precDigits)))
    && (v != 0.0 ==> out.prec == PrecOf(precDigits)
                     && RoundsTo(v, PrecOf(precDigits), Num(256, out.mantissa), out.exponent)
                     && |out.mantissa| == (PrecOf(precDigits) + 7) / 8
                     && (out.mantissa != [] ==> out.mantissa[0] != 0))
  }

  /** A literal is zero exactly when its digits are, and its scanned value is exact or far out of range. */
  lemma {:induction false} ScannedMagnitude(p: Parts, lit: Literal)
    requires WellFormed(p) && TakenApart(p, lit)
    ensures Magnitude(p) == 0.0 <==> lit.digits == ""
    ensures lit.digits != "" && ScannedExponent(p.exponent) == StatedExponent(p.exponent)
        ==> ScannedValue(lit) == Magnitude(p)
  {
    hide DecValue, Exp, Pow;
    var sig, x := DecValue(Significant(p)), Exp(10, StatedExponent(p.exponent) - |p.frac|);
    ProductZero(sig as real, x);
    if lit.digits != "" && ScannedExponent(p.exponent) == StatedExponent(p.exponent) {
      var zeros := lit.exp10 + |p.frac| - ScannedExponent(p.exponent);
      ExpAdd(10, zeros, StatedExponent(p.exponent) - |p.frac|);
      ExpNat(10, zeros);
      MulReal(DecValue(lit.digits), Pow(10, zeros));
      assert ((DecValue(lit.digits) as real) * (Pow(10, zeros) as real)) * x
          == (DecValue(lit.digits) as real) * ((Pow(10, zeros) as real) * x);
    }
  }

  lemma ProductZero(x: real, y: real)
    requires y > 0.0 && x >= 0.0
    ensures x * y == 0.0 <==> x == 0.0
  {
    if x > 0.0 {
      assert x * y > 0.0;
    }
  }

  // ---- A saturated exponent is refused on its magnitude ----

  /** No rounding of v has a binary exponent of 32 bits. */
  ghost predicate OutOfRange(v: real, prec: nat)
    requires prec > 0
  {
    forall m, e :: RoundsTo(v, prec, m, e) ==> e + prec > INT32_MAX || e + prec < INT32_MIN
  }

  lemma {:induction false} FarOut(d: nat, x: int, len: nat, prec: nat)
    requires prec > 0 && 0 < d < Pow(10, len) && len < MAX_LITERAL
    requires x > 0x4_0000_0000_0000 || x < -0x4_0000_0000_0000
    ensures OutOfRange(Decimal(d, x), prec)
  {
    hide Exp, RoundsAt, Pow;
    var v := (d as real) * Exp(10, x);
    forall m, e | RoundsTo(v, prec, m, e)
      ensures e + prec > INT32_MAX || e + prec < INT32_MIN
    {
      var s :| RoundsAt(v, prec, s, m, e);
      ScaleOf(v, prec, s, m, e);
      if x > 0 {
        LargeBelow(d, x);
        ExpOrder(2, x, s + prec);
      } else {
        SmallAbove(d, x, len);
        ExpOrder(2, s + prec - 1, len + x);
      }
    }
  }

  lemma ScaleOf(v: real, prec: nat, s: int, m: nat, e: int)
    requires prec > 0 && RoundsAt(v, prec, s, m, e)
    ensures Exp(2, s + prec - 1) <= v < Exp(2, s + prec) && s <= e <= s + 1
  {
  }

  lemma {:induction false} LargeBelow(d: nat, x: nat)
    requires d > 0
    ensures Exp(2, x) <= (d as real) * Exp(10, x)
  {
    PowBaseMonotone(2, 10, x);
    ExpNat(2, x);
    ExpNat(10, x);
    MulAtLeastOne(Exp(10, x), d as real);
    assert Exp(10, x) * (d as real) == (d as real) * Exp(10, x);
  }

  lemma {:induction false} SmallAbove(d: nat, x: int, len: nat)
    requires d < Pow(10, len) && len + x < 0
    ensures (d as real) * Exp(10, x) < Exp(2, len + x)
  {
    hide Exp;
    ExpNat(10, len);
    ExpAdd(10, len, x);
    CompareScaled(d as real, Exp(10, len), Exp(10, x));
    NegativePowers(-(len + x));
  }

  lemma {:induction false} NegativePowers(k: int)
    requires k > 0
    ensures Exp(10, -k) <= Exp(2, -k)
  {
    PowBaseMonotone(2, 10, k);
    var a, b := Pow(2, k) as real, Pow(10, k) as real;
    assert (1.0 / a) * a == 1.0 && (1.0 / b) * b == 1.0;
    InverseOrder(a, b);
  }

  lemma InverseOrder(a: real, b: real)
    requires 0.0 < a <= b
    ensures 1.0 / b <= 1.0 / a
  {
    CompareScaled(1.0 / b, 1.0 / a, a * b);
    assert (1.0 / b) * (a * b) == a * ((1.0 / b) * b);
    assert (1.0 / a) * (a * b) == b * ((1.0 / a) * a);
  }

  lemma {:induction false} SaturatedOut(p: Parts, lit: Literal, prec: nat)
    requires WellFormed(p) && TakenApart(p, lit) && lit.digits != "" && prec > 0
    requires |p.whole| + |p.frac| < MAX_LITERAL
    requires ScannedExponent(p.exponent) != StatedExponent(p.exponent)
    ensures OutOfRange(Magnitude(p), prec) && OutOfRange(ScannedValue(lit), prec)
  {
    hide DecValue, Exp, Pow, OutOfRange, Saturating, Decimal;
    SaturatingIs(p.exponent.digits);
    var sig := Significant(p);
    DecBound(sig);
    DecBound(lit.digits);
    DecLower(lit.digits);
    FarOut(DecValue(sig), StatedExponent(p.exponent) - |p.frac|, |sig|, prec);
    FarOut(DecValue(lit.digits), lit.exp10, |lit.digits|, prec);
  }

  // ---- Reading a literal ----

  /** The part after Parse let the literal through: round the exact value, once. */
  method RoundLiteral(lit: Literal, prec: Limb, maxExponent: I32) returns (r: Result<BigFloatFields>)
    requires AllDigits(lit.digits) && DecValue(lit.digits) > 0 && prec > 0
    ensures r.Ok? <==> Fits(ScannedValue(lit), prec, maxExponent)
    ensures r.Ok? ==> var out := r.value;
                      && out.prec == prec && out.negative == lit.negative
                      && RoundsTo(ScannedValue(lit), prec, Num(256, out.mantissa), out.exponent)
                      && |out.mantissa| == (prec + 7) / 8 && (out.mantissa != [] ==> out.mantissa[0] != 0)
    ensures r != Err(InternalError)
  {
    hide DecValue, Ratio, RoundsAt, Pow, Num, BitLength, RoundedExponent;
    var num, den := ExactRatio(lit);
    ghost var v := Ratio(num.Value(), den.Value());
    var bin := RoundedBinaryExponent(num, den, prec);
    AllRoundingsAt(v, prec, bin);
    if ExceedsBound(bin, maxExponent) {
      return Err(PastBound);
    }
    if bin - prec < INT32_MIN {
      return Err(BelowWire);
    }
    var q, exponent, s := RoundQuotient(num, den, prec);
    RoundsToIntro(v, prec, s, q.Value(), exponent);
    BitLengthIs(q.Value(), prec);
    // Both ways to the exponent agree, so this branch is dead.
    var len := q.BitLen();
    if exponent + len != bin {
      return Err(InternalError);
    }
    var mantissa := q.ToBytes();
    r := Ok(BigFloatFields(mantissa, exponent, prec, lit.negative));
  }

  /** One binary exponent for every rounding of v, stated for RoundsTo. */
  lemma AllRoundingsAt(v: real, prec: nat, bin: int)
    requires prec > 0 && RoundedExponent(v, prec, bin)
    ensures forall m, e :: RoundsTo(v, prec, m, e) ==> e + prec == bin
  {
    hide RoundsAt;
  }

  method ParseBigFloatLiteral(literal: string, precDigits: string, maxDigits: I32, maxExponent: I32, gate: Gate)
    returns (r: Result<BigFloatFields>)
    requires Countable(literal)
    ensures r.Ok? <==> Accepts(literal, precDigits, maxDigits, maxExponent, gate)
    ensures r.Ok? ==> ReadsAs(literal, precDigits, r.value)
    ensures r != Err(InternalError)
  {
    hide DecValue, Fits, RoundsTo, Split, Magnitude, CountDigits, Num;
    var prec: Limb := DEFAULT_PREC;
    if precDigits != "" {
      var ok;
      ok, prec := ParsePrecision(precDigits);
      if !ok {
        return Err(BadPrecision);
      }
      if BigFloatPrecDigits(prec) > maxDigits {
        return Err(PrecisionTooWide);
      }
    }
    var count := CountLiteralDigits(literal);
    if count > maxDigits {
      return Err(TooManyDigits);
    }
    var spelled := if literal != "" && (literal[0] == '+' || literal[0] == '-') then literal[1..] else literal;
    if spelled == "inf" || spelled == "Inf" {
      NotInfinity(literal);
      return Err(Infinite);
    }
    var ok, lit := SplitLiteral(literal);
    if !ok || !gate.scans {
      return Err(Invalid);
    }
    if !gate.parses {
      return Err(Invalid);
    }
    ghost var p := Split(literal).value;
    ScannedMagnitude(p, lit);
    if lit.digits == "" {
      // Only a suffix gives a zero its precision.
      return Ok(BigFloatFields([], 0, if precDigits != "" then prec else 0, lit.negative));
    }
    if gate.form == Inf {
      return Err(AboveRange);
    }
    if gate.form == Zero {
      return Err(BelowRange);
    }
    if prec > INT32_MAX {
      return Err(MantissaTooWide);
    }
    if gate.exp - prec < INT32_MIN {
      return Err(BelowWire);
    }
    if ExceedsBound(if prec > CHECK_PREC && gate.exp > 0 then gate.exp - 1 else gate.exp, maxExponent) {
      return Err(PastBound);
    }
    DecLower(lit.digits);
    r := RoundLiteral(lit, prec, maxExponent);
    ScannedFits(literal, p, lit, prec, maxExponent);
  }

  /** The scanned value fits exactly when the literal's own does. */
  lemma {:induction false} ScannedFits(literal: string, p: Parts, lit: Literal, prec: nat, maxExponent: I32)
    requires Split(literal) == Some(p) && |literal| < MAX_LITERAL && prec > 0
    requires TakenApart(p, lit) && lit.digits != ""
    ensures Fits(ScannedValue(lit), prec, maxExponent) <==> Fits(Magnitude(p), prec, maxExponent)
    ensures Fits(ScannedValue(lit), prec, maxExponent) ==> ScannedValue(lit) == Magnitude(p)
  {
    hide RoundsTo, Magnitude, ScannedValue, ScannedExponent, StatedExponent;
    ScannedMagnitude(p, lit);
    if ScannedExponent(p.exponent) != StatedExponent(p.exponent) {
      assert Text(p) == literal;
      SaturatedOut(p, lit, prec);
    }
  }

  lemma NotInfinity(s: string)
    requires var t := if s != "" && (s[0] == '+' || s[0] == '-') then s[1..] else s; t == "inf" || t == "Inf"
    ensures Split(s).None?
  {
    hide Split;
    var t := if s != "" && IsSign(s[0]) then s[1..] else s;
    assert t[0] == 'i' || t[0] == 'I';
    NotNumber(s, t);
  }

  lemma NotNumber(s: string, t: string)
    requires SignSpan(s).1 == t && t != "" && !IsDigit(t[0]) && t[0] != '.'
    ensures Split(s).None?
  {
    hide SplitExponent, Span;
    SpanStops(t);
  }

  lemma SpanStops(t: string)
    requires t != "" && !IsDigit(t[0])
    ensures Span(t) == ("", t)
  {
  }
}
