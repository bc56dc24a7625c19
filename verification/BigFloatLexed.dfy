/**
What FormatBigFloatLiteral of src/pxf/bigfloat.cc writes is one token of src/pxf/lexer.cc: a number with its
precision.
 */
module BigFloatLexed {
  import opened BigEndian
  import DecimalText
  import opened Literals
  import opened Precision
  import opened BigFloatParse
  import opened BigFloatFormat
  import opened BigFloatShape
  import opened Tokens
  import opened NumberTokens

  lemma WrittenLexical(f: BigFloatFields, p: Parts)
    requires f.prec > 0 && LaidOutAs(f, p)
    ensures Lexical(p)
  {
    hide LaidOutAs, Mantissa, BigFloatPrecDigits, Magnitude;
    if Mantissa(f) == 0 {
      ZeroLexical(f);
      LaidOutZero(f, p);
    } else {
      LaidOutShaped(f, p);
      LaidOutSign(f, p);
    }
  }

  lemma ZeroLexical(f: BigFloatFields)
    ensures Lexical(ZeroParts(f))
  {
  }

  lemma LaidOutZero(f: BigFloatFields, p: Parts)
    requires f.prec > 0 && LaidOutAs(f, p) && Mantissa(f) == 0
    ensures p == ZeroParts(f)
  {
  }

  lemma LaidOutSign(f: BigFloatFields, p: Parts)
    requires f.prec > 0 && LaidOutAs(f, p)
    ensures p.sign == SignOf(f)
  {
    hide Mantissa, Spells, BigFloatPrecDigits;
  }

  /** The token has the literal for its value and the precision for its precision, and takes the whole text. */
  lemma {:induction false} WrittenLexes(rules: Rules, f: BigFloatFields, maxDigits: int, maxExponent: int, r: Formatted,
                                        t: seq<Byte>)
    requires FormatsAs(f, maxDigits, maxExponent, r) && r.Written? && !Continues(At(t, 0))
    ensures IsAscii(r.text)
    ensures var tok := Lex(rules, Ascii(r.text) + t);
            && (tok.kind.Int? || tok.kind.Float?) && tok.size == |r.text|
            && if f.prec == 0 then tok.value == Ascii(r.text) && tok.precision == []
               else && IsAscii(DecimalText.Dec(f.prec)) && tok.precision == Ascii(DecimalText.Dec(f.prec))
                    && Ascii(r.text) == tok.value + [LETTER_P] + tok.precision
  {
    hide Writes, FirstLimit, Text, DecimalText.Dec, LaidOutAs, Lex, At, Ascii;
    if f.prec == 0 {
      var p := ZeroParts(f);
      ZeroLexical(f);
      LiteralLexes(rules, p, "", t);
      assert Ascii(Text(p)) + ([] + t) == Ascii(Text(p)) + t;
      NoAscii();
    } else {
      var p :| Writes(f, p) && LaidOutAs(f, p) && r.text == Text(p) + ("p" + DecimalText.Dec(f.prec));
      var d := DecimalText.Dec(f.prec);
      WrittenLexical(f, p);
      LiteralLexes(rules, p, d, t);
      AsciiConcat("p", d);
      AsciiConcat(Text(p), "p" + d);
      LetterP();
      var v := Ascii(Text(p));
      assert v + (([LETTER_P] + Ascii(d)) + t) == Ascii(r.text) + t;
      assert Ascii(r.text) == v + [LETTER_P] + Ascii(d);
    }
  }

  lemma NoAscii()
    ensures Ascii("") == []
  {
  }

  lemma LetterP()
    ensures Ascii("p") == [LETTER_P]
  {
  }
}
