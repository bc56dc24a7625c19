/**
The numeric literal grammar of a BigFloat: a sign, digits around an optional point, an
optional exponent. Parts is a literal taken apart; Text puts it together. The scanner of
src/pxf/bigfloat.cc accepts exactly the texts of well-formed parts.
 */
module Literals {
  import opened Options
  import opened Reals
  import opened DecimalText

  datatype Exponent = NoExponent | Exponent(mark: char, sign: string, digits: string)

  /** sign, integer digits, whether there is a point, fraction digits, and the exponent. */
  datatype Parts = Parts(sign: string, whole: string, point: bool, frac: string, exponent: Exponent)

  predicate IsSign(c: char) {
    c == '-' || c == '+'
  }

  predicate IsMark(c: char) {
    c == 'e' || c == 'E'
  }

  /** No sign or one. */
  predicate OptSign(s: string) {
    s == "" || (|s| == 1 && IsSign(s[0]))
  }

  predicate WellFormedExponent(e: Exponent) {
    e.NoExponent? || (IsMark(e.mark) && OptSign(e.sign) && AllDigits(e.digits) && e.digits != "")
  }

  predicate WellFormed(p: Parts) {
    && OptSign(p.sign) && AllDigits(p.whole) && AllDigits(p.frac)
    && (p.whole != "" || p.frac != "")
    && (!p.point ==> p.frac == "")
    && WellFormedExponent(p.exponent)
  }

  function ExponentText(e: Exponent): string {
    if e.NoExponent? then "" else [e.mark] + (e.sign + e.digits)
  }

  /** The point and what follows it. */
  function TailText(p: Parts): string {
    if p.point then "." + (p.frac + ExponentText(p.exponent)) else ExponentText(p.exponent)
  }

  function Text(p: Parts): string {
    p.sign + (p.whole + TailText(p))
  }

  // ---- What a literal denotes ----

  function Significant(p: Parts): (s: string)
    requires WellFormed(p)
    ensures AllDigits(s)
  {
    p.whole + p.frac
  }

  /** The power of ten the exponent part states. */
  function StatedExponent(e: Exponent): int
    requires WellFormedExponent(e)
  {
    if e.NoExponent? then 0
    else if e.sign == "-" then -(DecValue(e.digits) as int)
    else DecValue(e.digits)
  }

  /** d * 10^x. */
  ghost function Decimal(d: nat, x: int): real {
    (d as real) * Exp(10, x)
  }

  /** The exact magnitude of a literal. */
  ghost function Magnitude(p: Parts): real
    requires WellFormed(p)
  {
    Decimal(DecValue(Significant(p)), StatedExponent(p.exponent) - |p.frac|)
  }

  // ---- Taking a literal apart ----

  /** A run of digits and what follows it. */
  function Span(s: string): (r: (string, string))
    ensures s == r.0 + r.1 && AllDigits(r.0) && (r.1 == "" || !IsDigit(r.1[0]))
  {
    if s != "" && IsDigit(s[0]) then
      var r := Span(s[1..]);
      ([s[0]] + r.0, r.1)
    else ("", s)
  }

  lemma {:induction false} SpanConcat(d: string, r: string)
    requires AllDigits(d) && (r == "" || !IsDigit(r[0]))
    ensures Span(d + r) == (d, r)
    decreases |d|
  {
    if d == "" {
      assert d + r == r;
    } else {
      assert (d + r)[1..] == d[1..] + r;
      SpanConcat(d[1..], r);
      assert d == [d[0]] + d[1..];
    }
  }

  function SignSpan(s: string): (r: (string, string))
    ensures s == r.0 + r.1 && OptSign(r.0)
  {
    if s != "" && IsSign(s[0]) then (s[..1], s[1..]) else ("", s)
  }

  lemma SignConcat(g: string, r: string)
    requires OptSign(g) && (r == "" || !IsSign(r[0]))
    ensures SignSpan(g + r) == (g, r)
  {
    if g == "" {
      assert g + r == r;
    } else {
      assert (g + r)[..1] == g && (g + r)[1..] == r;
    }
  }

  /** What may follow the digits: nothing, or an exponent to the end. */
  function SplitExponent(s: string): (r: Option<Exponent>)
    ensures r.Some? ==> WellFormedExponent(r.value) && ExponentText(r.value) == s
  {
    if s == "" then Some(NoExponent)
    else if IsMark(s[0]) then
      var (sign, t) := SignSpan(s[1..]);
      var (digits, rest) := Span(t);
      if digits == "" || rest != "" then None
      else Some(Exponent(s[0], sign, digits))
    else None
  }

  lemma {:induction false} SplitExponentText(e: Exponent)
    requires WellFormedExponent(e)
    ensures SplitExponent(ExponentText(e)) == Some(e)
  {
    if e.Exponent? {
      assert ExponentText(e)[1..] == e.sign + e.digits;
      SignConcat(e.sign, e.digits);
      assert e.digits + "" == e.digits;
      SpanConcat(e.digits, "");
    }
  }

  /** A literal up to its exponent, and the rest. */
  datatype Head = Head(sign: string, whole: string, point: bool, frac: string, rest: string)

  function SplitHead(s: string): (r: Option<Head>)
    ensures r.Some? ==>
              var h := r.value;
              && OptSign(h.sign) && AllDigits(h.whole) && AllDigits(h.frac) && (h.whole != "" || h.frac != "")
              && (!h.point ==> h.frac == "")
              && s == h.sign + (h.whole + (if h.point then "." + (h.frac + h.rest) else h.rest))
  {
    var (sign, t) := SignSpan(s);
    var (whole, u) := Span(t);
    if u != "" && u[0] == '.' then
      var (frac, rest) := Span(u[1..]);
      if whole == "" && frac == "" then None
      else
        assert u == "." + u[1..];
        Some(Head(sign, whole, true, frac, rest))
    else if whole == "" then None
    else Some(Head(sign, whole, false, "", u))
  }

  function Split(s: string): (r: Option<Parts>)
    ensures r.Some? ==> WellFormed(r.value) && Text(r.value) == s
  {
    match SplitHead(s)
    case None => None
    case Some(h) =>
      match SplitExponent(h.rest)
      case None => None
      case Some(e) => Some(Parts(h.sign, h.whole, h.point, h.frac, e))
  }

  lemma ExponentStart(e: Exponent)
    requires WellFormedExponent(e)
    ensures ExponentText(e) == "" || IsMark(ExponentText(e)[0])
  {
  }

  /** Every well-formed literal is taken apart into what it was put together from. */
  lemma {:induction false} SplitText(p: Parts)
    requires WellFormed(p)
    ensures Split(Text(p)) == Some(p)
  {
    hide Span, SignSpan, SplitExponent, ExponentText, WellFormedExponent;
    var u := TailText(p);
    SplitExponentText(p.exponent);
    ExponentStart(p.exponent);
    SignConcat(p.sign, p.whole + u);
    SpanConcat(p.whole, u);
    if p.point {
      assert u[1..] == p.frac + ExponentText(p.exponent);
      SpanConcat(p.frac, ExponentText(p.exponent));
    }
  }
}
