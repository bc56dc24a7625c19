/**
Numeric literals and the tokens src/pxf/lexer.cc makes of them: every literal of the grammar is one token,
and every number token but a signed infinity is a literal, up to an exponent without digits.
 */
module NumberTokens {
  import opened BigEndian
  import DecimalText
  import opened Literals
  import opened StringText
  import opened Tokens

  // ---- Text as bytes ----

  predicate IsAscii(s: string) {
    forall i :: 0 <= i < |s| ==> s[i] < 128 as char
  }

  function Ascii(s: string): (r: seq<Byte>)
    requires IsAscii(s)
    ensures |r| == |s| && forall i :: 0 <= i < |s| ==> r[i] == s[i] as int
  {
    seq(|s|, i requires 0 <= i < |s| => s[i] as int)
  }

  lemma AsciiConcat(s: string, t: string)
    requires IsAscii(s) && IsAscii(t)
    ensures IsAscii(s + t) && Ascii(s + t) == Ascii(s) + Ascii(t)
  {
  }

  lemma DigitsAscii(s: string)
    requires DecimalText.AllDigits(s)
    ensures IsAscii(s) && forall i :: 0 <= i < |s| ==> IsDigit(Ascii(s)[i])
  {
  }

  // ---- Runs ----

  lemma {:induction false} RunIs(k: Class, s: seq<Byte>, i: nat, e: nat)
    requires i <= e <= |s| && (forall j :: i <= j < e ==> In(k, s[j])) && (e < |s| ==> !In(k, s[e]))
    ensures Run(k, s, i) == e
    decreases e - i
  {
    if i < e {
      RunIs(k, s, i + 1, e);
    }
  }

  /** A run of digits after a, and what follows it. */
  lemma DigitRun(a: seq<Byte>, d: string, t: seq<Byte>)
    requires DecimalText.AllDigits(d) && IsAscii(d) && (t != [] ==> !IsDigit(t[0]))
    ensures Run(Digits, a + Ascii(d) + t, |a|) == |a| + |d|
  {
    DigitsAscii(d);
    var s := a + Ascii(d) + t;
    forall j | |a| <= j < |a| + |d|
      ensures In(Digits, s[j])
    {
      assert s[j] == Ascii(d)[j - |a|];
    }
    RunIs(Digits, s, |a|, |a| + |d|);
  }

  // ---- The tail of a literal ----

  /** Bytes after which a number goes on, or another token starts where it would have gone on. */
  predicate Continues(c: int) {
    IsDigit(c) || c == DOT || IsExponent(c) || c == LETTER_P || c == MINUS || IsDurationUnit(c) || c == 0xC2
  }

  /** No precision, or p and its digits. */
  function Suffix(prec: string): (r: seq<Byte>)
    requires DecimalText.AllDigits(prec) && IsAscii(prec)
  {
    if prec == "" then [] else [LETTER_P] + Ascii(prec)
  }

  lemma AtAfter(a: seq<Byte>, b: seq<Byte>, i: nat)
    ensures At(a + b, |a| + i) == At(b, i)
  {
  }

  lemma NoPrecision(kind: Kind, v: seq<Byte>, t: seq<Byte>)
    requires At(t, 0) != LETTER_P
    ensures WithPrecision(kind, v + t, |v|) == Token(kind, v, [], |v|)
  {
    hide Run, At;
    AtAfter(v, t, 0);
    assert (v + t)[..|v|] == v;
  }

  lemma SomePrecision(kind: Kind, v: seq<Byte>, prec: string, t: seq<Byte>)
    requires DecimalText.AllDigits(prec) && IsAscii(prec) && prec != "" && !IsDigit(At(t, 0))
    ensures WithPrecision(kind, v + ([LETTER_P] + Ascii(prec)) + t, |v|)
            == Token(kind, v, Ascii(prec), |v| + 1 + |prec|)
  {
    hide Run, At, IsDigit, Ascii;
    var s := v + ([LETTER_P] + Ascii(prec)) + t;
    PrecisionThere(v, prec, t);
    assert s == (v + [LETTER_P]) + Ascii(prec) + t;
    NotDigit(t);
    DigitRun(v + [LETTER_P], prec, t);
    assert s[..|v|] == v && s[|v| + 1..|v| + 1 + |prec|] == Ascii(prec);
  }

  lemma NotDigit(t: seq<Byte>)
    requires !IsDigit(At(t, 0))
    ensures t != [] ==> !IsDigit(t[0])
  {
  }

  lemma PrecisionThere(v: seq<Byte>, prec: string, t: seq<Byte>)
    requires DecimalText.AllDigits(prec) && IsAscii(prec) && prec != ""
    ensures var s := v + ([LETTER_P] + Ascii(prec)) + t; At(s, |v|) == LETTER_P && IsDigit(At(s, |v| + 1))
  {
    DigitsAscii(prec);
    var s := v + ([LETTER_P] + Ascii(prec)) + t;
    assert s[|v|] == LETTER_P && s[|v| + 1] == Ascii(prec)[0];
  }

  lemma PrecisionLexes(kind: Kind, v: seq<Byte>, prec: string, t: seq<Byte>)
    requires DecimalText.AllDigits(prec) && IsAscii(prec) && !Continues(At(t, 0))
    ensures WithPrecision(kind, v + (Suffix(prec) + t), |v|) == Token(kind, v, Ascii(prec), |v| + |Suffix(prec)|)
  {
    hide At, WithPrecision;
    if prec == "" {
      assert Suffix(prec) + t == t;
      NoPrecision(kind, v, t);
    } else {
      SomePrecision(kind, v, prec, t);
      assert v + (Suffix(prec) + t) == v + ([LETTER_P] + Ascii(prec)) + t;
    }
  }

  // ---- The exponent ----

  lemma ExponentAscii(e: Exponent)
    requires WellFormedExponent(e)
    ensures IsAscii(ExponentText(e))
    ensures e.Exponent? ==> Ascii(ExponentText(e)) == [e.mark as int] + Ascii(e.sign) + Ascii(e.digits)
  {
    if e.Exponent? {
      AsciiConcat(e.sign, e.digits);
      AsciiConcat([e.mark], e.sign + e.digits);
    }
  }

  /** What may come after the digits of a literal: its suffix and what follows it. */
  predicate Stops(r: seq<Byte>) {
    !IsDigit(At(r, 0)) && At(r, 0) != DOT && !IsExponent(At(r, 0)) && At(r, 0) != MINUS
    && !IsDurationUnit(At(r, 0)) && At(r, 0) != 0xC2
  }

  lemma SuffixStops(prec: string, t: seq<Byte>)
    requires DecimalText.AllDigits(prec) && IsAscii(prec) && !Continues(At(t, 0))
    ensures Stops(Suffix(prec) + t)
  {
    if prec == "" {
      assert Suffix(prec) + t == t;
    } else {
      assert (Suffix(prec) + t)[0] == LETTER_P;
    }
  }

  lemma {:induction false} ExponentLexes(a: seq<Byte>, e: Exponent, r: seq<Byte>)
    requires WellFormedExponent(e) && IsAscii(ExponentText(e)) && Stops(r)
    ensures ExponentEnd(a + Ascii(ExponentText(e)) + r, |a|) == |a| + |ExponentText(e)|
  {
    hide Run, At;
    var s := a + Ascii(ExponentText(e)) + r;
    if e.NoExponent? {
      assert s == a + r;
      AtAfter(a, r, 0);
    } else {
      ExponentAscii(e);
      DigitsAscii(e.digits);
      ExponentHead(a, e, r);
      var b := a + [e.mark as int] + Ascii(e.sign);
      assert s == b + Ascii(e.digits) + r;
      NotDigit(r);
      DigitRun(b, e.digits, r);
    }
  }

  /** Its mark, and whether a sign follows. */
  lemma ExponentHead(a: seq<Byte>, e: Exponent, r: seq<Byte>)
    requires WellFormedExponent(e) && e.Exponent? && IsAscii(ExponentText(e))
    ensures var s := a + Ascii(ExponentText(e)) + r;
            && IsExponent(At(s, |a|))
            && (At(s, |a| + 1) == PLUS || At(s, |a| + 1) == MINUS <==> e.sign != "")
  {
    DigitsAscii(e.digits);
    var x := Ascii(ExponentText(e));
    var s := a + x + r;
    assert s[|a|] == x[0] && s[|a| + 1] == x[1];
    assert x[1] == ExponentText(e)[1] as int;
    assert ExponentText(e)[1] == (e.sign + e.digits)[0];
  }

  // ---- Point, fraction and exponent ----

  /** The first byte of an exponent, or of what follows it, is none that a fraction or duration goes on with. */
  lemma TailStarts(e: Exponent, r: seq<Byte>)
    requires WellFormedExponent(e) && IsAscii(ExponentText(e)) && Stops(r)
    ensures var c := At(Ascii(ExponentText(e)) + r, 0);
            && !IsDigit(c) && c != DOT && !IsDurationUnit(c) && c != 0xC2 && c != MINUS
            && (IsExponent(c) <==> e.Exponent?)
  {
    var x := Ascii(ExponentText(e));
    if e.NoExponent? {
      assert x + r == r;
    } else {
      assert (x + r)[0] == x[0] == ExponentText(e)[0] as int;
    }
  }

  lemma {:induction false} PointLexes(rules: Rules, a: seq<Byte>, frac: string, e: Exponent, r: seq<Byte>)
    requires DecimalText.AllDigits(frac) && IsAscii(frac) && WellFormedExponent(e) && IsAscii(ExponentText(e))
             && Stops(r)
    ensures var s := a + [DOT] + Ascii(frac) + Ascii(ExponentText(e)) + r;
            AfterDigits(rules, s, |a|) == WithPrecision(Float, s, |a| + 1 + |frac| + |ExponentText(e)|)
  {
    hide Run, At, ExponentEnd, WithPrecision, DurationToken, Ascii, ExponentText, IsDigit, IsDurationUnit;
    var y := Ascii(ExponentText(e)) + r;
    var b := a + [DOT];
    var s := b + Ascii(frac) + Ascii(ExponentText(e)) + r;
    assert s == b + Ascii(frac) + y;
    TailStarts(e, r);
    NotDigit(y);
    DigitRun(b, frac, y);
    ExponentLexes(b + Ascii(frac), e, r);
    AtPoint(a, frac, y);
    AtAfter(b + Ascii(frac), y, 0);
  }

  lemma AtPoint(a: seq<Byte>, frac: string, y: seq<Byte>)
    requires DecimalText.AllDigits(frac) && IsAscii(frac) && !IsDigit(At(y, 0))
    ensures var s := a + [DOT] + Ascii(frac) + y;
            At(s, |a|) == DOT && (IsDigit(At(s, |a| + 1)) <==> frac != "") && !IsDurationUnit(DOT)
  {
    DigitsAscii(frac);
    var b := a + [DOT];
    var s := b + Ascii(frac) + y;
    assert s[|a|] == DOT;
    if frac == "" {
      assert s == b + y;
      AtAfter(b, y, 0);
    } else {
      assert s[|b|] == Ascii(frac)[0];
    }
  }

  lemma {:induction false} NoPointLexes(rules: Rules, a: seq<Byte>, e: Exponent, r: seq<Byte>)
    requires WellFormedExponent(e) && IsAscii(ExponentText(e)) && Stops(r)
    ensures var s := a + Ascii(ExponentText(e)) + r;
            AfterDigits(rules, s, |a|)
            == WithPrecision(if e.Exponent? then Float else Int, s, |a| + |ExponentText(e)|)
  {
    hide Run, At, ExponentEnd, WithPrecision, DurationToken, Ascii, ExponentText, IsDigit, IsDurationUnit, IsExponent;
    var y := Ascii(ExponentText(e)) + r;
    assert a + Ascii(ExponentText(e)) + r == a + y;
    TailStarts(e, r);
    AtAfter(a, y, 0);
    ExponentLexes(a, e, r);
    NoText(e);
  }

  lemma NoText(e: Exponent)
    ensures e.NoExponent? ==> ExponentText(e) == ""
  {
  }

  // ---- The whole literal ----

  /** What the lexer takes for a number: digits before the point, and no plus sign. */
  predicate Lexical(p: Parts) {
    WellFormed(p) && p.whole != "" && p.sign != "+"
  }

  predicate IsFloat(p: Parts) {
    p.point || p.exponent.Exponent?
  }

  lemma TextAscii(p: Parts)
    requires WellFormed(p)
    ensures IsAscii(p.sign) && IsAscii(p.whole) && IsAscii(p.frac) && IsAscii(ExponentText(p.exponent))
    ensures IsAscii(TailText(p)) && IsAscii(Text(p))
    ensures Ascii(Text(p)) == Ascii(p.sign) + Ascii(p.whole) + Ascii(TailText(p))
    ensures Ascii(TailText(p)) == (if p.point then [DOT] + Ascii(p.frac) else []) + Ascii(ExponentText(p.exponent))
  {
    hide ExponentText, WellFormedExponent;
    ExponentAscii(p.exponent);
    DigitsAscii(p.whole);
    DigitsAscii(p.frac);
    AsciiConcat(p.frac, ExponentText(p.exponent));
    AsciiConcat(".", p.frac + ExponentText(p.exponent));
    assert Ascii(".") == [DOT];
    AsciiConcat(p.whole, TailText(p));
    AsciiConcat(p.sign, p.whole + TailText(p));
  }

  /** Past its sign and whole digits. */
  lemma {:induction false} TailLexes(rules: Rules, a: seq<Byte>, p: Parts, r: seq<Byte>)
    requires WellFormed(p) && IsAscii(TailText(p)) && Stops(r)
    ensures var s := a + Ascii(TailText(p)) + r;
            AfterDigits(rules, s, |a|) == WithPrecision(if IsFloat(p) then Float else Int, s, |a| + |TailText(p)|)
  {
    hide AfterDigits, WithPrecision, Ascii, ExponentText;
    TextAscii(p);
    var x := Ascii(ExponentText(p.exponent));
    var s := a + Ascii(TailText(p)) + r;
    if p.point {
      PointLexes(rules, a, p.frac, p.exponent, r);
      assert s == a + [DOT] + Ascii(p.frac) + x + r;
    } else {
      NoPointLexes(rules, a, p.exponent, r);
      assert [] + x == x;
    }
  }

  lemma WholeEnds(p: Parts, r: seq<Byte>)
    requires WellFormed(p) && IsAscii(TailText(p)) && Stops(r)
    ensures var c := At(Ascii(TailText(p)) + r, 0); !IsDigit(c) && c != MINUS
  {
    TextAscii(p);
    TailStarts(p.exponent, r);
    var y := Ascii(TailText(p)) + r;
    if p.point {
      assert y[0] == DOT;
    } else {
      assert y == Ascii(ExponentText(p.exponent)) + r;
    }
  }

  lemma {:induction false} NumberLexes(rules: Rules, p: Parts, r: seq<Byte>)
    requires Lexical(p) && IsAscii(Text(p)) && Stops(r)
    ensures var s := Ascii(Text(p)) + r;
            s != [] && NumberToken(rules, s) == WithPrecision(if IsFloat(p) then Float else Int, s, |Text(p)|)
            && (s[0] == MINUS || IsDigit(s[0]))
  {
    hide Run, At, AfterDigits, WithPrecision, NumberToken, SignedInf, IsDigit, TailText, Text, Ascii;
    TextAscii(p);
    var a := Ascii(p.sign) + Ascii(p.whole);
    var y := Ascii(TailText(p)) + r;
    var s := Ascii(Text(p)) + r;
    assert s == a + Ascii(TailText(p)) + r == Ascii(p.sign) + Ascii(p.whole) + y;
    WholeEnds(p, r);
    NotDigit(y);
    DigitRun(Ascii(p.sign), p.whole, y);
    TailLexes(rules, a, p, r);
    AtAfter(a, y, 0);
    FirstBytes(p, y);
    if p.sign == "" {
      PlainNumber(rules, s);
    } else {
      SignedNumber(rules, s);
    }
  }

  lemma SignedNumber(rules: Rules, s: seq<Byte>)
    requires s != [] && s[0] == MINUS && IsDigit(At(s, 1)) && !SignedInf(s)
    ensures NumberToken(rules, s) == AfterDigits(rules, s, Run(Digits, s, 1))
  {
    hide AfterDigits;
  }

  lemma PlainNumber(rules: Rules, s: seq<Byte>)
    requires s != [] && IsDigit(s[0]) && At(s, Run(Digits, s, 0)) != MINUS
    ensures NumberToken(rules, s) == AfterDigits(rules, s, Run(Digits, s, 0))
  {
    hide AfterDigits;
  }

  lemma FirstBytes(p: Parts, y: seq<Byte>)
    requires Lexical(p) && IsAscii(p.sign) && IsAscii(p.whole)
    ensures var s := Ascii(p.sign) + Ascii(p.whole) + y;
            && s != [] && (p.sign == "" ==> IsDigit(s[0]))
            && (p.sign != "" ==> s[0] == MINUS && IsDigit(At(s, 1)) && !SignedInf(s))
  {
    DigitsAscii(p.whole);
    var s := Ascii(p.sign) + Ascii(p.whole) + y;
    if p.sign == "" {
      assert s[0] == Ascii(p.whole)[0];
    } else {
      assert s[0] == Ascii(p.sign)[0] && s[1] == Ascii(p.whole)[0];
      if |s| >= 4 {
        assert s[1..4][0] == s[1];
      }
    }
  }

  /** A literal, its precision if it has one, and no byte that it could go on with: one token of exactly that. */
  lemma LiteralLexes(rules: Rules, p: Parts, prec: string, t: seq<Byte>)
    requires Lexical(p) && DecimalText.AllDigits(prec) && !Continues(At(t, 0))
    ensures IsAscii(Text(p)) && IsAscii(prec)
    ensures Lex(rules, Ascii(Text(p)) + (Suffix(prec) + t))
            == Token(if IsFloat(p) then Float else Int, Ascii(Text(p)), Ascii(prec), |Text(p)| + |Suffix(prec)|)
  {
    hide NumberToken, WithPrecision, At, Ascii, Text;
    TextAscii(p);
    DigitsAscii(prec);
    SuffixStops(prec, t);
    NumberLexes(rules, p, Suffix(prec) + t);
    PrecisionLexes(if IsFloat(p) then Float else Int, Ascii(Text(p)), prec, t);
    LexNumber(rules, Ascii(Text(p)) + (Suffix(prec) + t));
  }

  lemma LexNumber(rules: Rules, s: seq<Byte>)
    requires s != [] && (s[0] == MINUS || IsDigit(s[0]))
    ensures Lex(rules, s) == NumberToken(rules, s)
  {
    hide NumberToken;
  }

  // ---- And no others ----

  predicate DigitBytes(s: seq<Byte>) {
    forall i :: 0 <= i < |s| ==> IsDigit(s[i])
  }

  /** The bytes of a number token: a literal whose exponent may lack its digits, and that may have a second fraction. */
  datatype Looks = Looks(sign: seq<Byte>, whole: seq<Byte>, fracs: seq<seq<Byte>>, mark: seq<Byte>, digits: seq<Byte>)

  predicate Admitted(n: Looks) {
    && (n.sign == [] || n.sign == [MINUS]) && n.whole != [] && DigitBytes(n.whole)
    && |n.fracs| <= 2 && (forall i :: 0 <= i < |n.fracs| ==> DigitBytes(n.fracs[i]))
    && (|n.fracs| == 2 ==> n.fracs[0] != [])
    && (n.mark == [] || (IsExponent(n.mark[0]) && (|n.mark| == 1 || n.mark[1..] == [PLUS] || n.mark[1..] == [MINUS])))
    && DigitBytes(n.digits) && (n.mark == [] ==> n.digits == [])
  }

  function Points(fracs: seq<seq<Byte>>): seq<Byte> {
    if fracs == [] then [] else [DOT] + fracs[0] + Points(fracs[1..])
  }

  function Looked(n: Looks): seq<Byte> {
    n.sign + n.whole + Points(n.fracs) + (n.mark + n.digits)
  }

  lemma {:induction false} RunOfDigits(s: seq<Byte>, i: nat)
    requires i <= |s|
    ensures DigitBytes(s[i..Run(Digits, s, i)])
    decreases |s| - i
  {
    if i < |s| && In(Digits, s[i]) {
      RunOfDigits(s, i + 1);
      assert s[i..Run(Digits, s, i)] == [s[i]] + s[i + 1..Run(Digits, s, i + 1)];
    }
  }

  /** The mark and digits that end at ExponentEnd. */
  lemma ExponentLooks(s: seq<Byte>, i: nat) returns (mark: seq<Byte>, digits: seq<Byte>)
    requires i <= |s|
    ensures s[i..ExponentEnd(s, i)] == mark + digits && DigitBytes(digits)
    ensures mark == [] || (IsExponent(mark[0]) && (|mark| == 1 || mark[1..] == [PLUS] || mark[1..] == [MINUS]))
    ensures mark == [] ==> digits == []
    ensures mark == [] <==> !IsExponent(At(s, i))
  {
    if IsExponent(At(s, i)) {
      var j := if At(s, i + 1) == PLUS || At(s, i + 1) == MINUS then i + 2 else i + 1;
      RunOfDigits(s, j);
      mark, digits := s[i..j], s[j..Run(Digits, s, j)];
      assert mark[0] == s[i] && mark[1..] == s[i + 1..j];
      if j == i + 2 {
        assert s[i + 1..j] == [s[i + 1]];
      }
    } else {
      mark, digits := [], [];
    }
  }

  /** A fraction at i, if there is one. */
  lemma PointLooks(s: seq<Byte>, i: nat) returns (e: nat, frac: seq<Byte>)
    requires i < |s| && s[i] == DOT
    ensures e == Run(Digits, s, i + 1) <= |s| && s[i..e] == [DOT] + frac && DigitBytes(frac)
    ensures frac != [] <==> IsDigit(At(s, i + 1))
  {
    RunOfDigits(s, i + 1);
    e := Run(Digits, s, i + 1);
    frac := s[i + 1..e];
    assert s[i..e] == [s[i]] + s[i + 1..e];
    if IsDigit(At(s, i + 1)) {
      assert e > i + 1;
    }
  }

  lemma OnePoint(f: seq<Byte>)
    ensures Points([f]) == [DOT] + f && Points([]) == []
  {
    assert [f][1..] == [];
    assert [DOT] + f + [] == [DOT] + f;
  }

  lemma TwoPoints(f: seq<Byte>, g: seq<Byte>)
    ensures Points([f, g]) == ([DOT] + f) + ([DOT] + g)
  {
    assert [f, g][1..] == [g];
    OnePoint(g);
  }

  /** The fractions and the exponent after the whole digits, where they make a float. */
  lemma {:induction false} FloatLooks(s: seq<Byte>, e: nat)
    returns (fracs: seq<seq<Byte>>, mark: seq<Byte>, digits: seq<Byte>, end: nat)
    requires e <= |s|
    ensures var frac := At(s, e) == DOT && IsDigit(At(s, e + 1));
            var f := if frac then Run(Digits, s, e + 1) else e;
            end == FloatEnd(s, f) && e <= end <= |s|
    ensures s[e..end] == Points(fracs) + (mark + digits)
    ensures |fracs| <= 2 && (forall i :: 0 <= i < |fracs| ==> DigitBytes(fracs[i])) && (|fracs| == 2 ==> fracs[0] != [])
    ensures mark == [] || (IsExponent(mark[0]) && (|mark| == 1 || mark[1..] == [PLUS] || mark[1..] == [MINUS]))
    ensures DigitBytes(digits) && (mark == [] ==> digits == [])
    ensures fracs == [] <==> At(s, e) != DOT
    ensures fracs == [] ==> (mark == [] <==> !IsExponent(At(s, e)))
  {
    hide Run, ExponentEnd, DigitBytes, IsDigit, IsExponent, Points;
    var at := e;
    fracs := [];
    OnePoint([]);
    if At(s, e) == DOT {
      var g, frac := PointLooks(s, e);
      fracs := [frac];
      OnePoint(frac);
      at := g;
      if IsDigit(At(s, e + 1)) && At(s, g) == DOT {
        var h, more := PointLooks(s, g);
        fracs := [frac, more];
        TwoPoints(frac, more);
        assert s[e..h] == s[e..g] + s[g..h];
        at := h;
      }
    }
    assert s[e..at] == Points(fracs);
    mark, digits := ExponentLooks(s, at);
    end := ExponentEnd(s, at);
    assert s[e..end] == s[e..at] + s[at..end];
  }

  /** A number token is a signed infinity, or has such looks; it is a float exactly with a point or an exponent. */
  lemma {:induction false} NumberTokenLooks(rules: Rules, s: seq<Byte>) returns (n: Looks)
    requires var tok := Lex(rules, s);
             (tok.kind.Int? || tok.kind.Float?) && tok.value != [PLUS] + INF && tok.value != [MINUS] + INF
    ensures var tok := Lex(rules, s);
            && Admitted(n) && tok.value == Looked(n) && DigitBytes(tok.precision)
            && (tok.kind.Float? <==> n.fracs != [] || n.mark != [])
            && tok.size == |tok.value| + (if tok.precision == [] then 0 else 1 + |tok.precision|) <= |s|
            && s[..tok.size] == tok.value + (if tok.precision == [] then [] else [LETTER_P] + tok.precision)
  {
    hide Lex, NumberToken, AfterDigits;
    var start := NumberStarts(rules, s);
    var e := Run(Digits, s, start);
    RunOfDigits(s, start);
    n := AfterLooks(rules, s, start, e);
  }

  /** Where the digits of a number token start. */
  lemma NumberStarts(rules: Rules, s: seq<Byte>) returns (start: nat)
    requires var tok := Lex(rules, s);
             (tok.kind.Int? || tok.kind.Float?) && tok.value != [PLUS] + INF && tok.value != [MINUS] + INF
    ensures start < |s| && IsDigit(s[start]) && (s[..start] == [] || s[..start] == [MINUS])
    ensures Lex(rules, s) == AfterDigits(rules, s, Run(Digits, s, start))
  {
    hide AfterDigits, TimestampToken, StringToken, TripleString, BytesToken, LineComment, BlockComment, Directive;
    hide IdentToken, Run;
    NotNumber(rules, s);
    if s[0] == PLUS || s[0] == MINUS {
      NotInfinity(rules, s);
      start := 1;
      assert s[..1] == [s[0]];
    } else {
      start := 0;
      NotTime(rules, s);
    }
  }

  lemma NotInfinity(rules: Rules, s: seq<Byte>)
    requires s != [] && NumberToken(rules, s).value != [s[0]] + INF && (s[0] == PLUS || s[0] == MINUS)
    ensures !SignedInf(s)
  {
    assert |s| >= 4 ==> s[..4] == [s[0]] + s[1..4];
  }

  lemma NotTime(rules: Rules, s: seq<Byte>)
    requires s != []
    ensures var e := Run(Digits, s, 0); var tok := TimestampToken(rules, s, e); !tok.kind.Int? && !tok.kind.Float?
  {
  }

  lemma NotNumber(rules: Rules, s: seq<Byte>)
    requires Lex(rules, s).kind.Int? || Lex(rules, s).kind.Float?
    ensures s != [] && (s[0] == MINUS || s[0] == PLUS || IsDigit(s[0])) && Lex(rules, s) == NumberToken(rules, s)
  {
    hide NumberToken, StringRest, Find, Run, BytesEnd, DecodeRune;
  }

  lemma {:induction false} AfterLooks(rules: Rules, s: seq<Byte>, start: nat, e: nat) returns (n: Looks)
    requires start < e <= |s| && DigitBytes(s[start..e]) && (s[..start] == [] || s[..start] == [MINUS])
    requires var tok := AfterDigits(rules, s, e); tok.kind.Int? || tok.kind.Float?
    ensures var tok := AfterDigits(rules, s, e);
            && Admitted(n) && tok.value == Looked(n) && DigitBytes(tok.precision)
            && (tok.kind.Float? <==> n.fracs != [] || n.mark != [])
            && tok.size == |tok.value| + (if tok.precision == [] then 0 else 1 + |tok.precision|) <= |s|
            && s[..tok.size] == tok.value + (if tok.precision == [] then [] else [LETTER_P] + tok.precision)
  {
    hide Run, FloatEnd, DigitBytes, IsDigit, IsExponent, WithPrecision, Points, AtDurationUnit, DurationToken;
    var fracs, mark, digits, end := FloatLooks(s, e);
    var frac := At(s, e) == DOT && IsDigit(At(s, e + 1));
    var f := if frac then Run(Digits, s, e + 1) else e;
    NotDuration(rules, s, f);
    if frac || At(s, f) == DOT || IsExponent(At(s, f)) {
      n := Looks(s[..start], s[start..e], fracs, mark, digits);
      PrecisionLooks(Float, s, end);
      ThreeParts(s, start, e, end);
    } else {
      n := Looks(s[..start], s[start..e], [], [], []);
      PrecisionLooks(Int, s, e);
      OnePoint([]);
      NoDigitBytes();
      assert s[..e] == s[..start] + s[start..e] + [] + ([] + []);
    }
  }

  lemma ThreeParts(s: seq<Byte>, i: nat, j: nat, k: nat)
    requires i <= j <= k <= |s|
    ensures s[..k] == s[..i] + s[i..j] + s[j..k]
  {
  }

  lemma NotDuration(rules: Rules, s: seq<Byte>, f: nat)
    requires f <= |s|
    ensures !DurationToken(rules, s, f).kind.Int? && !DurationToken(rules, s, f).kind.Float?
  {
  }

  lemma PrecisionLooks(kind: Kind, s: seq<Byte>, e: nat)
    requires e <= |s|
    ensures var tok := WithPrecision(kind, s, e);
            && tok.kind == kind && tok.value == s[..e] && DigitBytes(tok.precision)
            && tok.size == e + (if tok.precision == [] then 0 else 1 + |tok.precision|) <= |s|
            && s[..tok.size] == s[..e] + (if tok.precision == [] then [] else [LETTER_P] + tok.precision)
  {
    if At(s, e) == LETTER_P && IsDigit(At(s, e + 1)) {
      RunOfDigits(s, e + 1);
      var f := Run(Digits, s, e + 1);
      assert f > e + 1;
      assert s[..f] == s[..e] + ([s[e]] + s[e + 1..f]);
    }
  }

  lemma NoDigitBytes()
    ensures DigitBytes([])
  {
  }

  /** Both happen: a second fraction, and an exponent without digits. */
  lemma LooseNumbers(rules: Rules)
    ensures IsAscii("1.5.25") && Lex(rules, Ascii("1.5.25")) == Token(Float, Ascii("1.5.25"), [], 6)
    ensures IsAscii("1e") && Lex(rules, Ascii("1e")) == Token(Float, Ascii("1e"), [], 2)
  {
    hide Run;
    var s := Ascii("1.5.25");
    assert s == [0x31, 0x2E, 0x35, 0x2E, 0x32, 0x35];
    RunIs(Digits, s, 0, 1);
    RunIs(Digits, s, 2, 3);
    RunIs(Digits, s, 4, 6);
    assert s[..6] == s;
    LexNumber(rules, s);
    var e := Ascii("1e");
    assert e == [0x31, 0x65];
    RunIs(Digits, e, 0, 1);
    RunIs(Digits, e, 2, 2);
    assert e[..2] == e;
    LexNumber(rules, e);
  }
}
