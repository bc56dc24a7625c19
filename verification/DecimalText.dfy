/** Decimal digits as text. */
module DecimalText {
  import opened Powers
  import opened BigEndian

  predicate IsDigit(c: char) {
    '0' <= c <= '9'
  }

  predicate AllDigits(s: string) {
    forall i :: 0 <= i < |s| ==> IsDigit(s[i])
  }

  function DigitValue(c: char): (d: nat)
    requires IsDigit(c)
    ensures d < 10
  {
    c as int - '0' as int
  }

  function DigitChar(d: nat): (c: char)
    requires d < 10
    ensures IsDigit(c) && DigitValue(c) == d
  {
    ('0' as int + d) as char
  }

  /** The digits of s as numbers. */
  function Values(s: string): (r: seq<nat>)
    requires AllDigits(s)
    ensures |r| == |s|
    ensures forall i :: 0 <= i < |s| ==> r[i] == DigitValue(s[i]) < 10
  {
    seq(|s|, i requires 0 <= i < |s| => DigitValue(s[i]))
  }

  /** The number s spells in decimal; 0 for no digits. */
  function DecValue(s: string): nat
    requires AllDigits(s)
  {
    Num(10, Values(s))
  }

  lemma DecEmpty()
    ensures DecValue("") == 0
  {
  }

  lemma DecSnoc(s: string, c: char)
    requires AllDigits(s) && IsDigit(c)
    ensures AllDigits(s + [c]) && DecValue(s + [c]) == DecValue(s) * 10 + DigitValue(c)
  {
    assert Values(s + [c]) == Values(s) + [DigitValue(c)];
    NumSnoc(10, Values(s), DigitValue(c));
  }

  function Zeros(n: nat): (s: string)
    ensures |s| == n && AllDigits(s)
    ensures forall i :: 0 <= i < n ==> s[i] == '0'
  {
    seq(n, _ => '0')
  }

  lemma DecZeros(n: nat, s: string)
    requires AllDigits(s)
    ensures AllDigits(Zeros(n) + s) && DecValue(Zeros(n) + s) == DecValue(s)
    ensures AllDigits(s + Zeros(n)) && DecValue(s + Zeros(n)) == DecValue(s) * Pow(10, n)
  {
    assert Values(Zeros(n) + s) == seq(n, _ => 0) + Values(s);
    assert Values(s + Zeros(n)) == Values(s) + seq(n, _ => 0);
    NumZeros(10, n, Values(s));
  }

  /** The zeros a run of digits starts with. */
  function LeadingZeros(s: string): (k: nat)
    ensures k <= |s| && s[..k] == Zeros(k) && (k < |s| ==> s[k] != '0')
  {
    if s != "" && s[0] == '0' then
      assert s[..1 + LeadingZeros(s[1..])] == "0" + s[1..][..LeadingZeros(s[1..])];
      1 + LeadingZeros(s[1..])
    else 0
  }

  lemma DecBound(s: string)
    requires AllDigits(s)
    ensures DecValue(s) < Pow(10, |s|)
  {
    NumBound(10, Values(s));
  }

  lemma DecLower(s: string)
    requires AllDigits(s) && s != "" && s[0] != '0'
    ensures DecValue(s) >= Pow(10, |s| - 1)
  {
    NumLower(10, Values(s));
  }

  /** n in decimal, with no leading zero but for zero itself. */
  function Dec(n: nat): (s: string)
    ensures s != "" && AllDigits(s) && (n > 0 ==> s[0] != '0')
  {
    if n < 10 then [DigitChar(n)] else Dec(n / 10) + [DigitChar(n % 10)]
  }

  lemma {:induction false} DecOf(n: nat)
    ensures DecValue(Dec(n)) == n
    decreases n
  {
    if n < 10 {
      DecSnoc("", DigitChar(n));
      assert "" + [DigitChar(n)] == [DigitChar(n)];
      assert DecValue("") == 0;
    } else {
      DecOf(n / 10);
      DecSnoc(Dec(n / 10), DigitChar(n % 10));
    }
  }

  /** A text of digits without a leading zero is the number's decimal form. */
  lemma {:induction false} DecUnique(s: string)
    requires AllDigits(s) && s != "" && s[0] != '0'
    ensures s == Dec(DecValue(s))
  {
    var t := Dec(DecValue(s));
    DecOf(DecValue(s));
    DecLower(s);
    NumUnique(10, Values(s), Values(t));
    assert |s| == |t|;
    forall i | 0 <= i < |s|
      ensures s[i] == t[i]
    {
      assert Values(s)[i] == Values(t)[i];
    }
  }
}
