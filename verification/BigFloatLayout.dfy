/**
How FormatBigFloatLiteral lays out N significant digits: C's %g with trailing zeros removed.
The layout is a literal of the reader's grammar whose magnitude is the digits' value.
 */
module BigFloatLayout {
  import opened Powers
  import opened DecimalText
  import opened Reals
  import opened Literals
  import opened BigFloatParse

  /** At least two digits. */
  function TwoDigits(n: nat): (s: string)
    ensures s != "" && AllDigits(s)
  {
    if n < 10 then "0" + Dec(n) else Dec(n)
  }

  lemma TwoDigitsValue(n: nat)
    ensures DecValue(TwoDigits(n)) == n
  {
    DecOf(n);
    DecZeros(1, Dec(n));
    assert Zeros(1) == "0";
  }

  /** d is d[0].d[1].. * 10^x, and n the digit count asked for. */
  function Layout(sign: string, d: string, x: int, n: nat): (p: Parts)
    requires OptSign(sign) && AllDigits(d) && d != ""
    ensures WellFormed(p) && p.sign == sign
  {
    if x < -4 || x >= n then
      Parts(sign, d[..1], |d| > 1, d[1..],
            Exponent('e', if x < 0 then "-" else "+", TwoDigits(if x < 0 then -x else x)))
    else if x < 0 then
      Parts(sign, "0", true, Zeros(-x - 1) + d, NoExponent)
    else if |d| <= x + 1 then
      Parts(sign, d + Zeros(x + 1 - |d|), false, "", NoExponent)
    else
      Parts(sign, d[..x + 1], true, d[x + 1..], NoExponent)
  }

  lemma {:induction false} LayoutMagnitude(sign: string, d: string, x: int, n: nat)
    requires OptSign(sign) && AllDigits(d) && d != ""
    ensures Magnitude(Layout(sign, d, x, n)) == Decimal(DecValue(d), x - |d| + 1)
  {
    hide DecValue, Decimal;
    var p := Layout(sign, d, x, n);
    if x < -4 || x >= n {
      TwoDigitsValue(if x < 0 then -x else x);
      assert Significant(p) == d;
    } else if x < 0 {
      assert Significant(p) == Zeros(-x) + d;
      DecZeros(-x, d);
    } else if |d| <= x + 1 {
      assert Significant(p) == d + Zeros(x + 1 - |d|);
      DecZeros(x + 1 - |d|, d);
      DecimalShift(DecValue(d), 0, x + 1 - |d|);
    } else {
      assert Significant(p) == d;
    }
  }

  /** Moving k zeros between the digits and the exponent. */
  lemma {:induction false} DecimalShift(d: nat, e: int, k: nat)
    ensures Decimal(d * Pow(10, k), e) == Decimal(d, e + k)
  {
    hide Exp, Pow;
    ExpSplit(10, e + k, k, e);
    ExpNat(10, k);
    MulReal(d, Pow(10, k));
    assert Decimal(d * Pow(10, k), e) == ((d as real) * Exp(10, k)) * Exp(10, e);
  }

  // ---- How many digits a reader counts ----

  lemma {:induction false} CountTrueLe(s: string)
    ensures CountDigits(s, true) <= CountDigits(s, false)
  {
    if s != "" {
      CountTrueLe(s[1..]);
    }
  }

  lemma {:induction false} CountConcat(d: string, t: string, leading: bool)
    requires AllDigits(d)
    ensures CountDigits(d + t, leading) <= |d| + CountDigits(t, false)
  {
    if d == "" {
      assert d + t == t;
      CountTrueLe(t);
    } else {
      assert (d + t)[0] == d[0] && (d + t)[1..] == d[1..] + t;
      CountConcat(d[1..], t, leading && d[0] == '0');
      CountTrueLe(d[1..] + t);
    }
  }

  lemma {:induction false} CountZeros(k: nat, t: string)
    ensures CountDigits(Zeros(k) + t, true) == CountDigits(t, true)
    decreases k
  {
    if k == 0 {
      assert Zeros(k) + t == t;
    } else {
      assert (Zeros(k) + t)[1..] == Zeros(k - 1) + t;
      CountZeros(k - 1, t);
    }
  }

  lemma CountSkip(c: char, t: string, leading: bool)
    requires c == '.' || IsSign(c)
    ensures CountDigits([c] + t, leading) == CountDigits(t, leading)
  {
    assert ([c] + t)[1..] == t;
  }

  /** A layout counts no more digits than were asked for. */
  lemma {:induction false} LayoutCount(sign: string, d: string, x: int, n: nat)
    requires OptSign(sign) && AllDigits(d) && d != "" && |d| <= n
    ensures CountDigits(Text(Layout(sign, d, x, n)), true) <= n
  {
    hide CountDigits;
    var p := Layout(sign, d, x, n);
    var rest := p.whole + TailText(p);
    if sign != "" {
      assert sign == [sign[0]];
      CountSkip(sign[0], rest, true);
    } else {
      assert sign + rest == rest;
    }
    if x < -4 || x >= n {
      CountExponent(p.exponent);
      CountConcat(p.whole, TailText(p), true);
      if p.point {
        CountSkip('.', p.frac + ExponentText(p.exponent), false);
        CountConcat(p.frac, ExponentText(p.exponent), false);
      }
    } else if x < 0 {
      assert ExponentText(p.exponent) == "";
      var z := -x - 1;
      assert p.frac + "" == p.frac;
      assert rest == Zeros(1) + ("." + (Zeros(z) + d));
      CountZeros(1, "." + (Zeros(z) + d));
      CountSkip('.', Zeros(z) + d, true);
      CountZeros(z, d);
      CountAll(d);
    } else if |d| <= x + 1 {
      assert rest == p.whole;
      CountAll(p.whole);
    } else {
      assert p.frac + "" == p.frac;
      assert rest == p.whole + ("." + p.frac);
      CountConcat(p.whole, "." + p.frac, true);
      CountSkip('.', p.frac, false);
      CountAll(p.frac);
      CountFalseAll(p.frac);
    }
  }

  lemma CountExponent(e: Exponent)
    requires WellFormedExponent(e)
    ensures CountDigits(ExponentText(e), false) == 0
  {
  }

  lemma CountAll(d: string)
    requires AllDigits(d)
    ensures CountDigits(d, true) <= |d|
  {
    CountConcat(d, "", true);
    assert d + "" == d;
  }

  lemma CountFalseAll(d: string)
    requires AllDigits(d)
    ensures CountDigits(d, false) <= |d|
  {
    CountConcat(d, "", false);
    assert d + "" == d;
  }

  // ---- Length, and where the suffix starts ----

  lemma {:induction false} DecLength(n: nat, k: nat)
    requires n < Pow(10, k) && k > 0
    ensures |Dec(n)| <= k
  {
    hide Pow;
    if n > 0 {
      DecOf(n);
      DecLower(Dec(n));
      if |Dec(n)| > k {
        PowMonotone(10, k, |Dec(n)| - 1);
      }
    }
  }

  lemma {:induction false} LayoutLength(sign: string, d: string, x: int, n: nat)
    requires OptSign(sign) && AllDigits(d) && d != "" && |d| <= n
    requires -10000000000 < x < 10000000000
    ensures |Text(Layout(sign, d, x, n))| <= n + 20
  {
    hide Dec, Pow;
    TenToTen();
    DecLength(if x < 0 then -x else x, 10);
  }

  lemma TenToTen()
    ensures Pow(10, 10) == 10000000000
  {
    PowAdd(10, 5, 5);
    assert Pow(10, 5) == 100000;
  }

  predicate NoSuffix(s: string) {
    forall i :: 0 <= i < |s| ==> s[i] != 'p'
  }

  lemma NoSuffixConcat(s: string, t: string)
    requires NoSuffix(s) && NoSuffix(t)
    ensures NoSuffix(s + t)
  {
  }

  /** No literal of the grammar contains the letter that starts a precision suffix. */
  lemma {:induction false} TextHasNoSuffix(p: Parts)
    requires WellFormed(p)
    ensures NoSuffix(Text(p))
  {
    var e := ExponentText(p.exponent);
    if !p.exponent.NoExponent? {
      NoSuffixConcat(p.exponent.sign, p.exponent.digits);
      NoSuffixConcat([p.exponent.mark], p.exponent.sign + p.exponent.digits);
    }
    assert NoSuffix(e);
    NoSuffixConcat(p.frac, e);
    NoSuffixConcat(".", p.frac + e);
    hide NoSuffix;
    NoSuffixConcat(p.whole, TailText(p));
    NoSuffixConcat(p.sign, p.whole + TailText(p));
  }
}
