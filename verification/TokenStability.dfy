/**
Tokens that the rest of a stream cannot change: src/pxf/dataset_reader.cc, Complete, over the
lexer of src/pxf/lexer.cc.
 */
module TokenStability {
  import opened BigEndian
  import opened StringText
  import opened Tokens

  /** One byte long, whatever follows. */
  predicate OneByte(k: Kind) {
    k.Newline? || k.LBrace? || k.RBrace? || k.LBracket? || k.RBracket? || k.LParen? || k.RParen?
    || k.Equals? || k.Colon? || k.Comma?
  }

  /** The byte after the token is there, and the one after that where the lexer may look at it: after . p / and C2. */
  predicate NextKnown(s: seq<Byte>, e: nat) {
    && e < |s|
    && (s[e] == DOT || s[e] == LETTER_P || s[e] == SLASH || s[e] == 0xC2 ==> e + 1 < |s|)
  }

  /** Whether the token at the front of s is taken while the stream is still open. */
  predicate Complete(tok: Token, s: seq<Byte>)
    requires tok.size <= |s|
  {
    if OneByte(tok.kind) then true
    else if tok.kind.Illegal? then tok.size + 4 <= |s|
    else if At(s, 0) >= 0x80 then tok.size + 4 <= |s|
    else if tok.size >= |s| then
      if tok.kind.Str? || tok.kind.Bytes? then s[..tok.size] != [QUOTE, QUOTE]
      else tok.kind.Comment? && |s| >= 2 && s[..2] == [SLASH, STAR]
    else NextKnown(s, tok.size)
  }

  // ---- Scans that ended are the same with more bytes ----

  lemma {:induction false} RunStable(k: Class, s: seq<Byte>, i: nat, t: seq<Byte>)
    requires Run(k, s, i) < |s|
    ensures Run(k, s + t, i) == Run(k, s, i)
    decreases |s| - i
  {
    hide In;
    assert (s + t)[i] == s[i];
    if In(k, s[i]) {
      RunStable(k, s, i + 1, t);
    }
  }

  lemma {:induction false} FindStable(pat: seq<Byte>, s: seq<Byte>, i: nat, t: seq<Byte>)
    requires pat != [] && Find(pat, s, i).Some?
    ensures Find(pat, s + t, i) == Find(pat, s, i)
    decreases |s| - i
  {
    var e := i + |pat|;
    assert e <= |s|;
    assert (s + t)[i..e] == s[i..e];
    if s[i..e] != pat {
      FindStable(pat, s, i + 1, t);
    }
  }

  lemma {:induction false} BytesEndStable(rules: Rules, s: seq<Byte>, i: nat, t: seq<Byte>)
    requires 2 <= i <= |s| && BytesEnd(rules, s, i) < |s|
    ensures BytesEnd(rules, s + t, i) == BytesEnd(rules, s, i)
    decreases |s| - i
  {
    hide TooLong;
    assert (s + t)[i] == s[i];
    if BytesEnd(rules, s, i) != i {
      BytesEndStable(rules, s, i + 1, t);
    }
  }

  lemma {:induction false} TimeEndStable(s: seq<Byte>, i: nat, t: seq<Byte>)
    requires i <= |s| && NextKnown(s, TimeEnd(s, i))
    ensures TimeEnd(s + t, i) == TimeEnd(s, i)
    decreases |s| - i
  {
    hide EndsRun;
    assert (s + t)[i] == s[i];
    if i + 1 < |s| {
      assert At(s + t, i + 1) == At(s, i + 1);
    }
    if TimeEnd(s, i) != i {
      assert i + 1 < |s|;
      TimeEndStable(s, i + 1, t);
    }
  }

  lemma StepStable(s: seq<Byte>, i: nat, t: seq<Byte>)
    requires i < |s| && (DurationStep(s, i) > 0 || NextKnown(s, i))
    ensures DurationStep(s + t, i) == DurationStep(s, i)
  {
    assert At(s + t, i) == At(s, i);
    if i + 1 < |s| {
      assert At(s + t, i + 1) == At(s, i + 1);
    }
  }

  lemma {:induction false} DurationEndStable(s: seq<Byte>, i: nat, t: seq<Byte>)
    requires i <= |s| && NextKnown(s, DurationEnd(s, i))
    ensures DurationEnd(s + t, i) == DurationEnd(s, i)
    decreases |s| - i
  {
    hide DurationStep, NextKnown;
    var n := DurationStep(s, i);
    assert DurationEnd(s, i) < |s| by { Bounded(s, DurationEnd(s, i)); }
    StepStable(s, i, t);
    if n != 0 {
      DurationEndStable(s, i + n, t);
    }
  }

  lemma Bounded(s: seq<Byte>, e: nat)
    requires NextKnown(s, e)
    ensures e < |s|
  {
  }

  lemma ReadHexStable(s: seq<Byte>, n: nat, t: seq<Byte>)
    requires |s| >= n
    ensures ReadHex(s + t, n) == ReadHex(s, n)
  {
    assert (s + t)[..n] == s[..n];
  }

  // ---- Tokens whose end is known are the same with more bytes ----

  lemma LineCommentStable(s: seq<Byte>, t: seq<Byte>)
    requires LineComment(s).size < |s|
    ensures LineComment(s + t) == LineComment(s)
  {
    var e := LineComment(s).size;
    RunStable(InLine, s, 0, t);
    assert (s + t)[..e] == s[..e];
  }

  lemma BlockCommentStable(s: seq<Byte>, t: seq<Byte>)
    requires |s| >= 2 && BlockComment(s).kind.Comment?
    ensures BlockComment(s + t) == BlockComment(s)
  {
    var e := BlockComment(s).size;
    FindStable(COMMENT_END, s, 2, t);
    assert (s + t)[..e] == s[..e];
  }

  lemma TripleStable(rules: Rules, s: seq<Byte>, t: seq<Byte>)
    requires |s| >= 3 && TripleString(rules, s).kind.Str?
    ensures TripleString(rules, s + t) == TripleString(rules, s)
  {
    FindStable(TRIPLE, s, 3, t);
    var e := Find(TRIPLE, s, 3).value;
    assert (s + t)[3..e] == s[3..e];
  }

  lemma BytesStable(rules: Rules, s: seq<Byte>, t: seq<Byte>)
    requires |s| >= 2 && (BytesToken(rules, s).kind.Bytes? || BytesToken(rules, s).size < |s|)
    ensures BytesToken(rules, s + t) == BytesToken(rules, s)
  {
    hide TooLong;
    var e := BytesEnd(rules, s, 2);
    BytesEndStable(rules, s, 2, t);
    assert (s + t)[e] == s[e];
    assert (s + t)[2..e] == s[2..e];
  }

  lemma DirectiveStable(s: seq<Byte>, t: seq<Byte>)
    requires s != [] && Directive(s).size < |s|
    ensures Directive(s + t) == Directive(s)
  {
    hide DirectiveKind;
    var e := Run(IdentParts, s, 1);
    RunStable(IdentParts, s, 1, t);
    assert (s + t)[1..e] == s[1..e];
    assert (s + t)[..e] == s[..e];
  }

  lemma IdentStable(s: seq<Byte>, t: seq<Byte>)
    requires IdentToken(s).size < |s|
    ensures IdentToken(s + t) == IdentToken(s)
  {
    hide IdentKind;
    var e := Run(IdentParts, s, 0);
    RunStable(IdentParts, s, 0, t);
    assert (s + t)[..e] == s[..e];
  }

  lemma PrecisionStable(kind: Kind, s: seq<Byte>, e: nat, t: seq<Byte>)
    requires e <= |s| && NextKnown(s, WithPrecision(kind, s, e).size)
    ensures WithPrecision(kind, s + t, e) == WithPrecision(kind, s, e)
  {
    hide IsDigit;
    assert At(s + t, e) == At(s, e);
    if At(s, e) == LETTER_P {
      assert e + 1 < |s|;
      assert At(s + t, e + 1) == At(s, e + 1);
      var f := Run(Digits, s, e + 1);
      if IsDigit(At(s, e + 1)) {
        RunStable(Digits, s, e + 1, t);
        assert (s + t)[e + 1..f] == s[e + 1..f];
      }
    }
    assert (s + t)[..e] == s[..e];
  }

  lemma PrecisionFits(kind: Kind, s: seq<Byte>, e: nat)
    requires e <= |s|
    ensures e <= WithPrecision(kind, s, e).size <= |s|
  {
  }

  lemma FloatEndStable(s: seq<Byte>, i: nat, t: seq<Byte>)
    requires i <= |s| && FloatEnd(s, i) < |s|
    ensures FloatEnd(s + t, i) == FloatEnd(s, i)
  {
    hide IsExponent;
    assert At(s + t, i) == At(s, i);
    var f := if At(s, i) == DOT then Run(Digits, s, i + 1) else i;
    if At(s, i) == DOT {
      RunStable(Digits, s, i + 1, t);
    }
    assert At(s + t, f) == At(s, f);
    if IsExponent(At(s, f)) {
      assert At(s + t, f + 1) == At(s, f + 1);
      RunStable(Digits, s, if At(s, f + 1) == PLUS || At(s, f + 1) == MINUS then f + 2 else f + 1, t);
    }
  }

  lemma TimestampStable(rules: Rules, s: seq<Byte>, i: nat, t: seq<Byte>)
    requires i <= |s| && NextKnown(s, TimestampToken(rules, s, i).size)
    ensures TimestampToken(rules, s + t, i) == TimestampToken(rules, s, i)
  {
    hide NextKnown;
    var e := TimeEnd(s, i);
    TimeEndStable(s, i, t);
    assert (s + t)[..e] == s[..e];
  }

  lemma DurationStable(rules: Rules, s: seq<Byte>, i: nat, t: seq<Byte>)
    requires i <= |s| && NextKnown(s, DurationToken(rules, s, i).size)
    ensures DurationToken(rules, s + t, i) == DurationToken(rules, s, i)
  {
    hide NextKnown;
    var e := DurationEnd(s, i);
    DurationEndStable(s, i, t);
    assert (s + t)[..e] == s[..e];
  }

  /** Whether a fraction follows, and where it ends. */
  lemma FractionStable(rules: Rules, s: seq<Byte>, e: nat, t: seq<Byte>)
    requires e <= |s| && AfterDigits(rules, s, e).size < |s|
    ensures e < |s| && At(s + t, e) == At(s, e)
    ensures At(s, e) == DOT ==> At(s + t, e + 1) == At(s, e + 1)
    ensures At(s, e) == DOT && IsDigit(At(s, e + 1)) ==>
              Run(Digits, s, e + 1) < |s| && Run(Digits, s + t, e + 1) == Run(Digits, s, e + 1)
  {
    hide Run, DurationEnd, WithPrecision;
    var frac := At(s, e) == DOT && IsDigit(At(s, e + 1));
    var f := if frac then Run(Digits, s, e + 1) else e;
    PrecisionFits(Float, s, FloatEnd(s, f));
    PrecisionFits(Int, s, f);
    if frac {
      RunStable(Digits, s, e + 1, t);
    }
  }

  lemma UnitStable(s: seq<Byte>, f: nat, t: seq<Byte>)
    requires NextKnown(s, f) || (f + 1 < |s|)
    ensures AtDurationUnit(s + t, f) == AtDurationUnit(s, f) && At(s + t, f) == At(s, f)
  {
    assert At(s + t, f) == At(s, f);
    if f + 1 < |s| {
      assert At(s + t, f + 1) == At(s, f + 1);
    }
  }

  lemma AfterDigitsStable(rules: Rules, s: seq<Byte>, e: nat, t: seq<Byte>)
    requires e <= |s| && NextKnown(s, AfterDigits(rules, s, e).size)
    ensures AfterDigits(rules, s + t, e) == AfterDigits(rules, s, e)
  {
    hide NextKnown, DurationToken, WithPrecision, FloatEnd, AtDurationUnit, IsDigit, IsExponent, Run, At;
    var n := AfterDigits(rules, s, e).size;
    Bounded(s, n);
    FractionStable(rules, s, e, t);
    var frac := At(s, e) == DOT && IsDigit(At(s, e + 1));
    var f := if frac then Run(Digits, s, e + 1) else e;
    assert f <= n by { SizeFits(rules, s, f); }
    UnitStable(s, f, t);
    if AtDurationUnit(s, f) {
      DurationStable(rules, s, f, t);
    } else if frac || At(s, f) == DOT || IsExponent(At(s, f)) {
      PrecisionFits(Float, s, FloatEnd(s, f));
      FloatEndStable(s, f, t);
      PrecisionStable(Float, s, FloatEnd(s, f), t);
    } else {
      PrecisionStable(Int, s, f, t);
    }
  }

  lemma SizeFits(rules: Rules, s: seq<Byte>, f: nat)
    requires f <= |s|
    ensures f <= DurationToken(rules, s, f).size
    ensures f <= WithPrecision(Float, s, FloatEnd(s, f)).size && f <= WithPrecision(Int, s, f).size
  {
    PrecisionFits(Float, s, FloatEnd(s, f));
    PrecisionFits(Int, s, f);
  }

  lemma DigitsFit(rules: Rules, s: seq<Byte>, e: nat)
    requires e <= |s|
    ensures e <= AfterDigits(rules, s, e).size <= |s|
  {
    hide DurationEnd, Run, WithPrecision, FloatEnd;
    var frac := At(s, e) == DOT && IsDigit(At(s, e + 1));
    var f := if frac then Run(Digits, s, e + 1) else e;
    PrecisionFits(Float, s, FloatEnd(s, f));
    PrecisionFits(Int, s, f);
  }

  lemma NumberStable(rules: Rules, s: seq<Byte>, t: seq<Byte>)
    requires s != [] && NextKnown(s, NumberToken(rules, s).size)
    requires NumberToken(rules, s).kind.Illegal? ==> NumberToken(rules, s).size + 4 <= |s|
    ensures NumberToken(rules, s + t) == NumberToken(rules, s)
  {
    hide AfterDigits, TimestampToken, IsIdentPart;
    var n := NumberToken(rules, s).size;
    assert (s + t)[0] == s[0];
    if s[0] == PLUS || s[0] == MINUS {
      assert |s| >= 2 && At(s + t, 1) == At(s, 1);
      if |s| > 4 {
        assert (s + t)[1..4] == s[1..4] && (s + t)[4] == s[4];
        assert SignedInf(s + t) == SignedInf(s);
      }
      var e := Run(Digits, s, 1);
      DigitsFit(rules, s, e);
      if SignedInf(s) {
        assert |s| > 4;
        assert (s + t)[..4] == s[..4];
      } else if s[0] == MINUS && IsDigit(At(s, 1)) {
        assert s[1] != INF[0] && (s + t)[1] != INF[0];
        assert !SignedInf(s + t);
        RunStable(Digits, s, 1, t);
        AfterDigitsStable(rules, s, e, t);
      }
    } else {
      var e := Run(Digits, s, 0);
      DigitsFit(rules, s, e);
      RunStable(Digits, s, 0, t);
      assert At(s + t, e) == At(s, e);
      if e == 4 && At(s, e) == MINUS {
        TimestampStable(rules, s, e, t);
      } else {
        AfterDigitsStable(rules, s, e, t);
      }
    }
  }
}
