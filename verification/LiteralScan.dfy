/**
SplitLiteral of src/pxf/bigfloat.cc: one pass over the characters, a saturating exponent,
and the zeros at both ends of the digits dropped.
 */
module LiteralScan {
  import opened Powers
  import opened DecimalText
  import opened Options
  import opened Literals
  import opened LimbArith

  /** A literal taken apart: its magnitude is digits * 10^exp10. */
  datatype Literal = Literal(negative: bool, digits: string, exp10: int)

  const SATURATED: int := 0x80_0000_0000_0000

  /** The exponent's digits, stopping where no further digit can matter. */
  function Saturating(s: string): (e: int)
    requires AllDigits(s)
    ensures 0 <= e <= SATURATED * 10
  {
    if s == "" then 0
    else
      var e := Saturating(s[..|s| - 1]);
      if e < SATURATED then e * 10 + DigitValue(s[|s| - 1]) else SATURATED * 10
  }

  /** The exponent is exact unless it is beyond the saturation point. */
  lemma {:induction false} SaturatingIs(s: string)
    requires AllDigits(s)
    ensures Saturating(s) == DecValue(s) || (Saturating(s) == SATURATED * 10 <= DecValue(s))
    decreases |s|
  {
    if s != "" {
      var t := s[..|s| - 1];
      assert s == t + [s[|s| - 1]];
      DecSnoc(t, s[|s| - 1]);
      SaturatingIs(t);
    }
  }

  function ScannedExponent(e: Exponent): int
    requires WellFormedExponent(e)
  {
    if e.NoExponent? then 0
    else if e.sign == "-" then -Saturating(e.digits)
    else Saturating(e.digits)
  }

  /** How the parts of a literal end up in a Literal. */
  ghost predicate TakenApart(p: Parts, lit: Literal)
    requires WellFormed(p)
  {
    && lit.negative == (p.sign == "-")
    && AllDigits(lit.digits)
    && (lit.digits == "" <==> DecValue(Significant(p)) == 0)
    && (lit.digits == "" ==> lit.exp10 == 0)
    && (lit.digits != "" ==>
          && lit.digits[0] != '0' && lit.digits[|lit.digits| - 1] != '0'
          && |lit.digits| <= |Significant(p)|
          && var zeros := lit.exp10 + |p.frac| - ScannedExponent(p.exponent);
             && 0 <= zeros <= |Significant(p)|
             && DecValue(Significant(p)) == DecValue(lit.digits) * Pow(10, zeros))
  }

  /** The end of the run of digits from i. */
  method DigitRun(s: string, i: nat) returns (j: nat)
    requires i <= |s|
    ensures i <= j <= |s| && Span(s[i..]) == (s[i..j], s[j..])
  {
    j := i;
    while j < |s| && IsDigit(s[j])
      invariant i <= j <= |s| && AllDigits(s[i..j])
    {
      assert s[i..j + 1] == s[i..j] + [s[j]];
      j := j + 1;
    }
    assert s[i..] == s[i..j] + s[j..];
    SpanConcat(s[i..j], s[j..]);
  }

  /** One digit more. */
  lemma NextSaturating(s: string, i: nat, j: nat)
    requires i <= j < |s| && AllDigits(s[i..j]) && IsDigit(s[j])
    ensures AllDigits(s[i..j + 1])
    ensures var e := Saturating(s[i..j]);
            Saturating(s[i..j + 1]) == if e < SATURATED then e * 10 + DigitValue(s[j]) else SATURATED * 10
  {
    assert s[i..j + 1] == s[i..j] + [s[j]];
    assert s[i..j + 1][..j - i] == s[i..j];
  }

  method ScanExponentDigits(s: string, i: nat) returns (e: I64, j: nat)
    requires i <= |s|
    ensures i <= j <= |s| && Span(s[i..]) == (s[i..j], s[j..])
    ensures e == Saturating(s[i..j])
  {
    hide Saturating, Span, AllDigits, IsDigit;
    e := 0;
    j := i;
    SaturatingNone(s[i..i]);
    while j < |s| && IsDigit(s[j])
      invariant i <= j <= |s| && AllDigits(s[i..j])
      invariant e == Saturating(s[i..j])
    {
      NextSaturating(s, i, j);
      if e < SATURATED {
        e := e * 10 + DigitValue(s[j]);
      } else {
        e := SATURATED * 10;
        j := j + 1;
        break;
      }
      j := j + 1;
    }
    // The digits after the exponent saturated do not change it.
    while j < |s| && IsDigit(s[j])
      invariant i <= j <= |s| && AllDigits(s[i..j])
      invariant e == Saturating(s[i..j])
      invariant j < |s| && IsDigit(s[j]) ==> e == SATURATED * 10
    {
      NextSaturating(s, i, j);
      j := j + 1;
    }
    assert s[i..] == s[i..j] + s[j..];
    SpanConcat(s[i..j], s[j..]);
  }

  lemma SaturatingNone(s: string)
    requires s == ""
    ensures AllDigits(s) && Saturating(s) == 0
  {
  }

  /** The exponent part, if any, to the end of the literal. */
  method ScanExponent(s: string, i: nat) returns (ok: bool, exp: I64)
    requires i <= |s|
    ensures ok <==> SplitExponent(s[i..]).Some?
    ensures ok ==> exp == ScannedExponent(SplitExponent(s[i..]).value)
    ensures -SATURATED * 10 <= exp <= SATURATED * 10
  {
    hide Span, Saturating;
    if i == |s| {
      return true, 0;
    }
    if !IsMark(s[i]) {
      return false, 0;
    }
    var from := i + 1;
    var neg := false;
    assert s[i..][1..] == s[from..];
    if from < |s| && IsSign(s[from]) {
      neg := s[from] == '-';
      assert s[from..][1..] == s[from + 1..] && s[from..][..1] == [s[from]];
      from := from + 1;
    }
    var magnitude, end := ScanExponentDigits(s, from);
    ok := !(end == from || end != |s|);
    exp := if neg then -magnitude else magnitude;
  }

  method ScanSign(s: string) returns (negative: bool, i: nat)
    ensures i <= |s| && SignSpan(s) == (s[..i], s[i..]) && negative == (s[..i] == "-")
  {
    negative, i := false, 0;
    if i < |s| && IsSign(s[i]) {
      negative := s[i] == '-';
      i := 1;
    }
    assert s[0..] == s;
  }

  /** The sign, the digits either side of the point and how many are after it, and where they end. */
  method ScanHead(s: string) returns (ok: bool, negative: bool, digits: string, fracDigits: nat, i: nat)
    ensures ok <==> SplitHead(s).Some?
    ensures ok ==> var h := SplitHead(s).value;
                   && i <= |s| && s[i..] == h.rest && negative == (h.sign == "-")
                   && digits == h.whole + h.frac && fracDigits == |h.frac|
  {
    hide Span, SplitHead, SignSpan, AllDigits, OptSign;
    digits, fracDigits := "", 0;
    var start;
    negative, start := ScanSign(s);
    i := DigitRun(s, start);
    HeadIs(s, s[..start], s[start..], s[start..i], s[i..]);
    if i == start && !(i + 1 < |s| && s[i] == '.' && IsDigit(s[i + 1])) {
      NoDigits(s[i..]);
      ok := false;
      return;
    }
    ok := true;
    digits := s[start..i];
    if i < |s| && s[i] == '.' {
      var from := i + 1;
      assert s[i..][1..] == s[from..];
      i := DigitRun(s, from);
      FirstDigit(s[from..]);
      digits := digits + s[from..i];
      fracDigits := i - from;
    }
  }

  method SplitLiteral(s: string) returns (ok: bool, lit: Literal)
    requires |s| <= 0x4000_0000_0000_0000
    ensures ok <==> Split(s).Some?
    ensures ok ==> TakenApart(Split(s).value, lit)
  {
    hide SplitHead, SplitExponent, ScannedExponent, DecValue, Pow;
    lit := Literal(false, "", 0);
    var head, negative, digits, fracDigits, i := ScanHead(s);
    if !head {
      return false, lit;
    }
    var tail, e := ScanExponent(s, i);
    if !tail {
      return false, lit;
    }
    var exp10: I64 := e - fracDigits;
    var stripped, zeros := StripZeros(digits);
    lit := if stripped == "" then Literal(negative, "", 0) else Literal(negative, stripped, exp10 + zeros);
    ok := true;
  }

  /** The head of a literal from its sign and its first run of digits. */
  lemma HeadIs(s: string, sign: string, t: string, whole: string, u: string)
    requires SignSpan(s) == (sign, t) && Span(t) == (whole, u)
    ensures SplitHead(s) == if u != "" && u[0] == '.'
                            then (var r := Span(u[1..]);
                                  if whole == "" && r.0 == "" then None else Some(Head(sign, whole, true, r.0, r.1)))
                            else if whole == "" then None else Some(Head(sign, whole, false, "", u))
  {
  }

  lemma NoDigits(u: string)
    requires !(|u| > 1 && u[0] == '.' && IsDigit(u[1]))
    ensures u != "" && u[0] == '.' ==> Span(u[1..]).0 == ""
  {
  }

  lemma FirstDigit(t: string)
    ensures t != "" && IsDigit(t[0]) ==> Span(t).0 != ""
  {
  }

  /** The digits from the first to the last that is not zero, and how many zeros were after it. */
  method StripZeros(digits: string) returns (stripped: string, zeros: nat)
    requires AllDigits(digits)
    ensures AllDigits(stripped) && |stripped| <= |digits| && zeros <= |digits|
    ensures stripped == "" <==> DecValue(digits) == 0
    ensures stripped != "" ==>
              && stripped[0] != '0' && stripped[|stripped| - 1] != '0'
              && DecValue(digits) == DecValue(stripped) * Pow(10, zeros)
  {
    hide DecValue, Pow;
    var first := 0;
    while first < |digits| && digits[first] == '0'
      invariant 0 <= first <= |digits|
      invariant forall k :: 0 <= k < first ==> digits[k] == '0'
    {
      first := first + 1;
    }
    StripFront(digits, first);
    if first == |digits| {
      return "", 0;
    }
    var last := |digits| - 1;
    while digits[last] == '0'
      invariant first <= last < |digits|
      invariant forall k :: last < k < |digits| ==> digits[k] == '0'
      decreases last
    {
      last := last - 1;
    }
    zeros := |digits| - 1 - last;
    stripped := digits[first..last + 1];
    StripBack(digits, first, last);
  }

  lemma StripFront(digits: string, first: nat)
    requires AllDigits(digits) && first <= |digits|
    requires forall k :: 0 <= k < first ==> digits[k] == '0'
    ensures DecValue(digits) == DecValue(digits[first..])
    ensures first == |digits| ==> DecValue(digits) == 0
  {
    hide DecValue;
    assert digits == Zeros(first) + digits[first..];
    DecZeros(first, digits[first..]);
    DecEmpty();
  }

  lemma StripBack(digits: string, first: nat, last: nat)
    requires AllDigits(digits) && first <= last < |digits| && digits[first] != '0'
    requires forall k :: last < k < |digits| ==> digits[k] == '0'
    ensures var stripped := digits[first..last + 1];
            DecValue(digits[first..]) == DecValue(stripped) * Pow(10, |digits| - 1 - last) > 0
  {
    hide DecValue, Pow;
    var stripped, zeros := digits[first..last + 1], |digits| - 1 - last;
    assert digits[first..] == stripped + Zeros(zeros);
    DecZeros(zeros, stripped);
    DecLower(stripped);
    MulGrows(DecValue(stripped), Pow(10, zeros));
  }
}
