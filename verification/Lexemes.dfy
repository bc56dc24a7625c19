/**
The lexical grammar of PXF, each token written out: src/pxf/lexer.cc, Lexer::Next, reads every lexeme as the
one token it stands for, and a text of lexemes, one to a line, as their tokens in order.
 */
module Lexemes {
  import opened Options
  import opened BigEndian
  import DecimalText
  import opened Literals
  import opened StringText
  import opened Tokens
  import opened NumberTokens
  import StringTokens
  import TokensTaken
  import KeyedCanon

  // ---- Names ----

  /** A letter or underscore, and then those, digits and dots. */
  predicate IsName(s: string) {
    s != "" && KeyedCanon.IdentStart(s[0]) && NameParts(s)
  }

  predicate NameParts(s: string) {
    forall i :: 0 <= i < |s| ==> KeyedCanon.IdentPart(s[i])
  }

  lemma NameAscii(s: string)
    requires NameParts(s)
    ensures IsAscii(s) && forall i :: 0 <= i < |s| ==> IsIdentPart(Ascii(s)[i])
  {
  }

  function NameKind(s: string): Kind {
    if s == "true" || s == "false" then Bool else if s == "null" then Null else Ident
  }

  /** A run of name bytes after a, and what follows it. */
  lemma NameRun(a: seq<Byte>, name: string, t: seq<Byte>)
    requires NameParts(name) && IsAscii(name) && !IsIdentPart(At(t, 0))
    ensures Run(IdentParts, a + Ascii(name) + t, |a|) == |a| + |name|
  {
    NameAscii(name);
    var s := a + Ascii(name) + t;
    forall j | |a| <= j < |a| + |name|
      ensures In(IdentParts, s[j])
    {
      assert s[j] == Ascii(name)[j - |a|];
    }
    RunIs(IdentParts, s, |a|, |a| + |name|);
  }

  lemma AsciiSame(s: string, t: string)
    requires IsAscii(s) && IsAscii(t)
    ensures Ascii(s) == Ascii(t) <==> s == t
  {
    if Ascii(s) == Ascii(t) {
      forall i | 0 <= i < |s|
        ensures s[i] == t[i]
      {
        assert Ascii(s)[i] == Ascii(t)[i];
      }
    }
  }

  lemma NameKindIs(name: string)
    requires IsAscii(name)
    ensures IdentKind(Ascii(name)) == NameKind(name)
  {
    AsciiSame(name, "true");
    AsciiSame(name, "false");
    AsciiSame(name, "null");
    assert Ascii("true") == [0x74, 0x72, 0x75, 0x65];
    assert Ascii("false") == [0x66, 0x61, 0x6C, 0x73, 0x65];
    assert Ascii("null") == [0x6E, 0x75, 0x6C, 0x6C];
  }

  lemma NameLexes(rules: Rules, name: string, t: seq<Byte>)
    requires IsName(name) && !IsIdentPart(At(t, 0)) && !(name == "b" && At(t, 0) == QUOTE)
    ensures IsAscii(name)
    ensures Lex(rules, Ascii(name) + t) == Token(NameKind(name), Ascii(name), [], |name|)
  {
    NameAscii(name);
    var s := Ascii(name) + t;
    NameFirst(rules, name, t);
    NameRun([], name, t);
    assert [] + Ascii(name) + t == s;
    assert s[..|name|] == Ascii(name);
    NameKindIs(name);
  }

  lemma NameFirst(rules: Rules, name: string, t: seq<Byte>)
    requires IsName(name) && IsAscii(name) && !(name == "b" && At(t, 0) == QUOTE)
    ensures Lex(rules, Ascii(name) + t) == IdentToken(Ascii(name) + t)
  {
    hide IdentToken;
    NameAscii(name);
    var s := Ascii(name) + t;
    assert s[0] == name[0] as int;
    if name[0] == 'b' {
      if |name| > 1 {
        assert At(s, 1) == name[1] as int;
      } else {
        assert name == "b" && At(s, 1) == At(t, 0);
      }
    }
  }

  /** A name that a keyed block may hold without quotes is one that lexes as an identifier, and no other. */
  lemma SafeNamesLex(rules: Rules, name: string)
    requires IsAscii(name)
    ensures KeyedCanon.IdentifierSafe(name) <==> Lex(rules, Ascii(name)) == Token(Ident, Ascii(name), [], |name|)
  {
    if IsName(name) {
      NameLexes(rules, name, []);
      assert Ascii(name) + [] == Ascii(name);
    } else if Lex(rules, Ascii(name)) == Token(Ident, Ascii(name), [], |name|) {
      IdentIsName(rules, name);
    }
  }

  lemma IdentIsName(rules: Rules, name: string)
    requires IsAscii(name) && Lex(rules, Ascii(name)) == Token(Ident, Ascii(name), [], |name|)
    ensures IsName(name)
  {
    var s := Ascii(name);
    OnlyIdent(rules, s);
    RunWithin(IdentParts, s, 0);
    assert s[..Run(IdentParts, s, 0)] == s;
    forall i | 0 <= i < |name|
      ensures KeyedCanon.IdentPart(name[i])
    {
      assert IsIdentPart(s[i]) && s[i] == name[i] as int;
    }
    assert s[0] == name[0] as int;
  }

  lemma OnlyIdent(rules: Rules, s: seq<Byte>)
    requires Lex(rules, s).kind.Ident?
    ensures s != [] && IsIdentStart(s[0]) && Lex(rules, s) == IdentToken(s)
  {
    hide IdentToken, NumberToken, StringRest, Find, Run, BytesEnd, DecodeRune;
    if s != [] && (s[0] == MINUS || s[0] == PLUS || IsDigit(s[0])) {
      TokensTaken.NumberKinds(rules, s);
    }
  }

  lemma {:induction false} RunWithin(k: Class, s: seq<Byte>, i: nat)
    requires i <= |s|
    ensures forall j :: i <= j < Run(k, s, i) ==> In(k, s[j])
    decreases |s| - i
  {
    if i < |s| && In(k, s[i]) {
      RunWithin(k, s, i + 1);
    }
  }

  // ---- Directives ----

  function DirectiveToken(name: string): (r: Token)
    requires IsAscii(name)
  {
    if name == "type" then Token(AtType, Ascii("@type"), [], 5)
    else if name == "dataset" then Token(AtDataset, Ascii("@dataset"), [], 8)
    else if name == "proto" then Token(AtProto, Ascii("@proto"), [], 6)
    else Token(AtDirective, Ascii(name), [], 1 + |name|)
  }

  lemma DirectiveLexes(rules: Rules, name: string, t: seq<Byte>)
    requires NameParts(name) && name != "" && !IsIdentPart(At(t, 0))
    ensures IsAscii(name)
    ensures Lex(rules, [AT] + Ascii(name) + t) == DirectiveToken(name)
  {
    hide Run;
    NameAscii(name);
    var s := [AT] + Ascii(name) + t;
    NameRun([AT], name, t);
    assert s[0] == AT;
    assert s[1..1 + |name|] == Ascii(name) && s[..1 + |name|] == [AT] + Ascii(name);
    DirectiveNames(name);
  }

  lemma DirectiveNames(name: string)
    requires IsAscii(name)
    ensures DirectiveKind(Ascii(name)) == if name == "type" then AtType else if name == "dataset" then AtDataset
                                          else if name == "proto" then AtProto else AtDirective
    ensures name == "type" ==> [AT] + Ascii(name) == Ascii("@type")
    ensures name == "dataset" ==> [AT] + Ascii(name) == Ascii("@dataset")
    ensures name == "proto" ==> [AT] + Ascii(name) == Ascii("@proto")
  {
    AsciiSame(name, "type");
    AsciiSame(name, "dataset");
    AsciiSame(name, "proto");
    assert Ascii("type") == [0x74, 0x79, 0x70, 0x65];
    assert Ascii("dataset") == [0x64, 0x61, 0x74, 0x61, 0x73, 0x65, 0x74];
    assert Ascii("proto") == [0x70, 0x72, 0x6F, 0x74, 0x6F];
  }

  // ---- Comments, raw strings and bytes ----

  lemma LineLexes(rules: Rules, slashes: bool, text: seq<Byte>, t: seq<Byte>)
    requires NEWLINE !in text && (t != [] ==> t[0] == NEWLINE)
    ensures var note := (if slashes then [SLASH, SLASH] else [HASH]) + text;
            Lex(rules, note + t) == Token(Comment, note, [], |note|)
  {
    hide Run;
    var note := (if slashes then [SLASH, SLASH] else [HASH]) + text;
    var s := note + t;
    assert s[0] == note[0] && (slashes ==> At(s, 1) == SLASH);
    forall j | 0 <= j < |note|
      ensures In(InLine, s[j])
    {
      assert s[j] == note[j];
    }
    RunIs(InLine, s, 0, |note|);
    assert s[..|note|] == note;
  }

  /** pat is nowhere in text + pat but at its end. */
  predicate OnlyLast(text: seq<Byte>, pat: seq<Byte>) {
    forall i :: 0 <= i < |text| ==> !OccursAt(text + pat, pat, i)
  }

  predicate OccursAt(s: seq<Byte>, pat: seq<Byte>, i: nat) {
    i + |pat| <= |s| && s[i..i + |pat|] == pat
  }

  lemma {:induction false} FindIs(pat: seq<Byte>, a: seq<Byte>, text: seq<Byte>, t: seq<Byte>, i: nat)
    requires pat != [] && OnlyLast(text, pat) && i <= |text|
    ensures Find(pat, a + text + pat + t, |a| + i) == Some(|a| + |text|)
    decreases |text| - i
  {
    var s := a + text + pat + t;
    assert s[|a| + i..|a| + i + |pat|] == (text + pat)[i..i + |pat|];
    if i < |text| {
      assert !OccursAt(text + pat, pat, i);
      FindIs(pat, a, text, t, i + 1);
    } else {
      assert (text + pat)[i..i + |pat|] == pat;
    }
  }

  lemma BlockLexes(rules: Rules, text: seq<Byte>, t: seq<Byte>)
    requires OnlyLast(text, COMMENT_END)
    ensures var note := [SLASH, STAR] + text + COMMENT_END;
            Lex(rules, note + t) == Token(Comment, note, [], |note|)
  {
    hide Find;
    var note := [SLASH, STAR] + text + COMMENT_END;
    var s := note + t;
    FindIs(COMMENT_END, [SLASH, STAR], text, t, 0);
    assert s[0] == SLASH && s[1] == STAR && s[..|note|] == note;
  }

  lemma RawLexes(rules: Rules, text: seq<Byte>, t: seq<Byte>)
    requires OnlyLast(text, TRIPLE)
    ensures Lex(rules, TRIPLE + text + TRIPLE + t) == Token(Str, rules.dedent(text), [], |text| + 6)
  {
    hide Find;
    var s := TRIPLE + text + TRIPLE + t;
    FindIs(TRIPLE, TRIPLE, text, t, 0);
    assert s[0] == QUOTE && s[1] == QUOTE && s[2] == QUOTE && s[3..3 + |text|] == text;
  }

  /** Four characters stand for three bytes. */
  predicate WithinLimit(rules: Rules, chars: nat) {
    rules.maxBytes <= 0 || chars / 4 * 3 <= rules.maxBytes
  }

  lemma {:induction false} BytesEndIs(rules: Rules, s: seq<Byte>, i: nat, e: nat)
    requires 2 <= i <= e < |s| && s[e] == QUOTE && WithinLimit(rules, e - 2)
    requires forall j :: i <= j < e ==> s[j] != QUOTE && s[j] != NEWLINE
    ensures BytesEnd(rules, s, i) == e
    decreases e - i
  {
    assert (i - 2) / 4 <= (e - 2) / 4;
    if i < e {
      BytesEndIs(rules, s, i + 1, e);
    }
  }

  lemma BytesLex(rules: Rules, text: seq<Byte>, t: seq<Byte>)
    requires QUOTE !in text && NEWLINE !in text && WithinLimit(rules, |text|) && rules.base64(text)
    ensures Lex(rules, [LETTER_B, QUOTE] + text + [QUOTE] + t) == Token(Bytes, text, [], |text| + 3)
  {
    hide BytesEnd;
    var s := [LETTER_B, QUOTE] + text + [QUOTE] + t;
    var e := 2 + |text|;
    assert s[0] == LETTER_B && s[1] == QUOTE && s[e] == QUOTE && s[2..e] == text;
    forall j | 2 <= j < e
      ensures s[j] != QUOTE && s[j] != NEWLINE
    {
      assert s[j] == text[j - 2];
    }
    BytesEndIs(rules, s, 2, e);
  }

  // ---- Timestamps and durations ----

  /** Four digits, a dash, and no byte that ends a run, nor two that open a comment. */
  predicate TimeText(text: seq<Byte>) {
    && |text| >= 5 && DigitBytes(text[..4]) && text[4] == MINUS
    && forall i :: 0 <= i < |text| ==> !EndsRun(text[i]) && !CommentAt(text, i)
  }

  predicate CommentAt(text: seq<Byte>, i: nat) {
    At(text, i) == SLASH && (At(text, i + 1) == SLASH || At(text, i + 1) == STAR)
  }

  lemma {:induction false} TimeEndIs(text: seq<Byte>, t: seq<Byte>, i: nat)
    requires TimeText(text) && i <= |text| && (t != [] ==> EndsRun(t[0]))
    ensures TimeEnd(text + t, i) == |text|
    decreases |text| - i
  {
    var s := text + t;
    if i < |text| {
      assert s[i] == text[i] && !EndsRun(text[i]) && !CommentAt(text, i);
      if i + 1 < |text| {
        assert s[i + 1] == text[i + 1];
      } else if t != [] {
        assert s[i + 1] == t[0];
      }
      assert !TimeStops(s, i);
      TimeEndIs(text, t, i + 1);
    } else if t != [] {
      assert s[i] == t[0];
    }
  }

  lemma TimeLexes(rules: Rules, text: seq<Byte>, t: seq<Byte>)
    requires TimeText(text) && rules.timestamp(text) && (t != [] ==> EndsRun(t[0]))
    ensures Lex(rules, text + t) == Token(Timestamp, text, [], |text|)
  {
    hide Run, TimeEnd, AfterDigits, EndsRun;
    var s := text + t;
    assert s[..4] == text[..4];
    forall j | 0 <= j < 4 ensures In(Digits, s[j]) { assert s[j] == text[..4][j]; }
    assert s[4] == text[4];
    RunIs(Digits, s, 0, 4);
    TimeEndIs(text, t, 4);
    assert s[..|text|] == text;
    LexNumber(rules, s);
  }

  /** The bytes of a duration past its first number: digits, small letters, points before a digit, micro signs. */
  predicate UnitBytes(u: seq<Byte>) {
    forall i :: 0 <= i < |u| ==> UnitByte(u, i)
  }

  predicate UnitByte(u: seq<Byte>, i: nat)
    requires i < |u|
  {
    || IsDigit(u[i]) || IsLowerAlpha(u[i]) || (u[i] == DOT && IsDigit(At(u, i + 1)))
    || (u[i] == 0xC2 && At(u, i + 1) == 0xB5) || (u[i] == 0xB5 && i > 0 && u[i - 1] == 0xC2)
  }

  /** A duration does not go on with c. */
  predicate EndsDuration(c: int) {
    !IsDigit(c) && !IsLowerAlpha(c) && c != DOT && c != 0xC2
  }

  lemma {:induction false} DurationEndIs(a: seq<Byte>, u: seq<Byte>, t: seq<Byte>, i: nat)
    requires UnitBytes(u) && i <= |u| && (i > 0 ==> u[i - 1] != 0xC2) && EndsDuration(At(t, 0))
    ensures DurationEnd(a + u + t, |a| + i) == |a| + |u|
    decreases |u| - i
  {
    hide DurationEnd;
    var s := a + u + t;
    UnitStep(a, u, t, i);
    DurationStepIs(s, |a| + i);
    if i < |u| {
      assert UnitByte(u, i);
      if u[i] == 0xC2 {
        DurationEndIs(a, u, t, i + 2);
      } else {
        DurationEndIs(a, u, t, i + 1);
      }
    }
  }

  lemma DurationStepIs(s: seq<Byte>, i: nat)
    requires i <= |s|
    ensures DurationEnd(s, i) == if DurationStep(s, i) == 0 then i else DurationEnd(s, i + DurationStep(s, i))
  {
  }

  lemma UnitStep(a: seq<Byte>, u: seq<Byte>, t: seq<Byte>, i: nat)
    requires UnitBytes(u) && i <= |u| && (i > 0 ==> u[i - 1] != 0xC2) && EndsDuration(At(t, 0))
    ensures DurationStep(a + u + t, |a| + i) == if i == |u| then 0 else if u[i] == 0xC2 then 2 else 1
    ensures i < |u| && u[i] == 0xC2 ==> i + 2 <= |u| && u[i + 1] == 0xB5
  {
    var s := a + u + t;
    if i < |u| {
      assert UnitByte(u, i);
      assert At(s, |a| + i) == u[i];
      if i + 1 < |u| {
        assert At(s, |a| + i + 1) == u[i + 1];
      }
    } else {
      assert s == (a + u) + t;
      AtAfter(a + u, t, 0);
    }
  }

  /** A number, perhaps with a fraction, a unit, and what else a duration may hold. */
  predicate SpanParts(sign: string, whole: string, frac: string, u: seq<Byte>) {
    && (sign == "" || sign == "-") && whole != "" && DecimalText.AllDigits(whole) && DecimalText.AllDigits(frac)
    && UnitBytes(u) && (IsDurationUnit(At(u, 0)) || At(u, 0) == 0xC2)
  }

  function SpanText(sign: string, whole: string, frac: string, u: seq<Byte>): seq<Byte>
    requires IsAscii(sign) && IsAscii(whole) && IsAscii(frac)
  {
    Ascii(sign) + Ascii(whole) + (if frac == "" then [] else [DOT] + Ascii(frac)) + u
  }

  lemma {:induction false} SpanLexes(
      rules: Rules, sign: string, whole: string, frac: string, u: seq<Byte>, t: seq<Byte>)
    requires SpanParts(sign, whole, frac, u) && EndsDuration(At(t, 0))
    ensures IsAscii(sign) && IsAscii(whole) && IsAscii(frac)
    ensures var text := SpanText(sign, whole, frac, u);
            rules.duration(text) ==> Lex(rules, text + t) == Token(Duration, text, [], |text|)
  {
    hide Run, At, AfterDigits, DurationEnd, UnitBytes, NumberToken, SignedInf, IsDigit, IsDurationUnit, Ascii, Lex;
    DigitsAscii(whole);
    DigitsAscii(frac);
    var text := SpanText(sign, whole, frac, u);
    var b := Ascii(sign) + Ascii(whole);
    var f := if frac == "" then [] else [DOT] + Ascii(frac);
    var y := f + u + t;
    var s := text + t;
    assert s == b + y;
    UnitFirst(u, t);
    SpanFirst(frac, u, t);
    NotDigit(y);
    DigitRun(Ascii(sign), whole, y);
    FirstBytes(Parts(sign, whole, false, "", NoExponent), y);
    AtAfter(b, y, 0);
    if sign == "" {
      PlainNumber(rules, s);
    } else {
      SignedNumber(rules, s);
    }
    LexNumber(rules, s);
    SpanAfter(rules, b, frac, u, t);
    assert s == b + f + u + t;
  }

  lemma UnitFirst(u: seq<Byte>, t: seq<Byte>)
    requires UnitBytes(u) && (IsDurationUnit(At(u, 0)) || At(u, 0) == 0xC2)
    ensures u != [] && At(u + t, 0) == u[0] && !IsDigit(u[0]) && u[0] != DOT && u[0] != MINUS
    ensures IsDurationUnit(u[0]) || (u[0] == 0xC2 && At(u + t, 1) == 0xB5)
  {
    assert UnitByte(u, 0);
    assert (u + t)[0] == u[0];
    if u[0] == 0xC2 {
      assert (u + t)[1] == u[1];
    }
  }

  lemma SpanFirst(frac: string, u: seq<Byte>, t: seq<Byte>)
    requires DecimalText.AllDigits(frac) && IsAscii(frac) && u != [] && !IsDigit(u[0]) && u[0] != MINUS
    ensures var y := (if frac == "" then [] else [DOT] + Ascii(frac)) + u + t;
            !IsDigit(At(y, 0)) && At(y, 0) != MINUS && (At(y, 0) == DOT ==> frac != "" || u[0] == DOT)
  {
    var y := (if frac == "" then [] else [DOT] + Ascii(frac)) + u + t;
    if frac == "" {
      assert y == u + t;
      assert y[0] == u[0];
    } else {
      assert y[0] == DOT;
    }
  }

  /** After the whole digits: the fraction, and the rest to its end. */
  lemma {:induction false} SpanAfter(rules: Rules, b: seq<Byte>, frac: string, u: seq<Byte>, t: seq<Byte>)
    requires DecimalText.AllDigits(frac) && IsAscii(frac) && UnitBytes(u) && EndsDuration(At(t, 0))
    requires u != [] && At(u + t, 0) == u[0] && !IsDigit(u[0]) && u[0] != DOT
    requires IsDurationUnit(u[0]) || (u[0] == 0xC2 && At(u + t, 1) == 0xB5)
    ensures var f := if frac == "" then [] else [DOT] + Ascii(frac);
            var s := b + f + u + t;
            AfterDigits(rules, s, |b|) == DurationToken(rules, s, |b| + |f|)
    ensures var f := if frac == "" then [] else [DOT] + Ascii(frac);
            var s := b + f + u + t;
            DurationEnd(s, |b| + |f|) == |b + f + u| && s[..|b + f + u|] == b + f + u
  {
    hide Run, At, DurationEnd, UnitBytes, IsDigit, IsDurationUnit, Ascii, DurationToken, WithPrecision, EndsDuration;
    var f := if frac == "" then [] else [DOT] + Ascii(frac);
    var s := b + f + u + t;
    DurationEndIs(b + f, u, t, 0);
    assert s == (b + f) + (u + t);
    AtAfter(b + f, u + t, 0);
    AtAfter(b + f, u + t, 1);
    if frac != "" {
      assert s == b + [DOT] + Ascii(frac) + (u + t);
      AtPoint(b, frac, u + t);
      NotDigit(u + t);
      DigitRun(b + [DOT], frac, u + t);
    } else {
      assert b + f == b;
    }
    DotNoUnit();
  }

  lemma DotNoUnit()
    ensures !IsDurationUnit(DOT)
  {
  }

  // ---- Marks ----

  function MarkKind(c: char): Option<Kind> {
    match c
    case '{' => Some(LBrace) case '}' => Some(RBrace)
    case '[' => Some(LBracket) case ']' => Some(RBracket)
    case '(' => Some(LParen) case ')' => Some(RParen)
    case '=' => Some(Equals) case ':' => Some(Colon) case ',' => Some(Comma)
    case _ => None
  }

  lemma MarkLexes(rules: Rules, c: char, t: seq<Byte>)
    requires MarkKind(c).Some?
    ensures Lex(rules, [c as int] + t) == Token(MarkKind(c).value, [c as int], [], 1)
  {
    assert ([c as int] + t)[0] == c as int;
  }

  lemma InfinityLexes(rules: Rules, negative: bool, t: seq<Byte>)
    requires !IsIdentPart(At(t, 0))
    ensures var text := Ascii(if negative then "-inf" else "+inf");
            Lex(rules, text + t) == Token(Float, text, [], 4)
  {
    hide AfterDigits, TimestampToken;
    var text := Ascii(if negative then "-inf" else "+inf");
    var s := text + t;
    assert s[0] == text[0] && s[1..4] == INF && s[..4] == text;
    if |s| > 4 {
      assert s[4] == t[0];
    }
  }

  // ---- Every token, written out ----

  datatype Lexeme =
    | Mark(c: char)
    | Name(name: string)
    | AtName(name: string)
    | Number(p: Parts, precision: string)
    | Infinity(negative: bool)
    | Quotation(bytes: seq<Byte>)
    | RawText(text: seq<Byte>)
    | Base64(text: seq<Byte>)
    | Time(text: seq<Byte>)
    | Span(sign: string, whole: string, frac: string, unit: seq<Byte>)
    | LineNote(slashes: bool, text: seq<Byte>)
    | BlockNote(text: seq<Byte>)

  predicate Good(rules: Rules, x: Lexeme) {
    match x
    case Mark(c) => MarkKind(c).Some?
    case Name(name) => IsName(name)
    case AtName(name) => NameParts(name) && name != ""
    case Number(p, precision) => Lexical(p) && DecimalText.AllDigits(precision)
    case Infinity(_) => true
    case Quotation(_) => true
    case RawText(text) => OnlyLast(text, TRIPLE)
    case Base64(text) => QUOTE !in text && NEWLINE !in text && WithinLimit(rules, |text|) && rules.base64(text)
    case Time(text) => TimeText(text) && rules.timestamp(text)
    case Span(sign, whole, frac, u) =>
      SpanParts(sign, whole, frac, u) && SpanAscii(sign, whole, frac) && rules.duration(SpanText(sign, whole, frac, u))
    case LineNote(_, text) => NEWLINE !in text
    case BlockNote(text) => OnlyLast(text, COMMENT_END)
  }

  predicate SpanAscii(sign: string, whole: string, frac: string) {
    IsAscii(sign) && IsAscii(whole) && IsAscii(frac)
  }

  /** Its bytes. */
  function Spelled(rules: Rules, x: Lexeme): (r: seq<Byte>)
    requires Good(rules, x)
  {
    match x
    case Mark(c) => [c as int]
    case Name(name) => NameAscii(name); Ascii(name)
    case AtName(name) => NameAscii(name); [AT] + Ascii(name)
    case Number(p, precision) => TextAscii(p); DigitsAscii(precision); Ascii(Text(p)) + Suffix(precision)
    case Infinity(negative) => Ascii(if negative then "-inf" else "+inf")
    case Quotation(bytes) => Emitted(bytes)
    case RawText(text) => TRIPLE + text + TRIPLE
    case Base64(text) => [LETTER_B, QUOTE] + text + [QUOTE]
    case Time(text) => text
    case Span(sign, whole, frac, u) => SpanText(sign, whole, frac, u)
    case LineNote(slashes, text) => (if slashes then [SLASH, SLASH] else [HASH]) + text
    case BlockNote(text) => [SLASH, STAR] + text + COMMENT_END
  }

  /** Its token. */
  function TokenOf(rules: Rules, x: Lexeme): Token
    requires Good(rules, x)
  {
    var size := |Spelled(rules, x)|;
    match x
    case Mark(c) => Token(MarkKind(c).value, [c as int], [], size)
    case Name(name) => Token(NameKind(name), Spelled(rules, x), [], size)
    case AtName(name) => NameAscii(name); DirectiveToken(name)
    case Number(p, precision) =>
      TextAscii(p);
      DigitsAscii(precision);
      Token(if IsFloat(p) then Float else Int, Ascii(Text(p)), Ascii(precision), size)
    case Infinity(_) => Token(Float, Spelled(rules, x), [], size)
    case Quotation(bytes) => Token(Str, bytes, [], size)
    case RawText(text) => Token(Str, rules.dedent(text), [], size)
    case Base64(text) => Token(Bytes, text, [], size)
    case Time(text) => Token(Timestamp, text, [], size)
    case Span(_, _, _, _) => Token(Duration, Spelled(rules, x), [], size)
    case LineNote(_, _) => Token(Comment, Spelled(rules, x), [], size)
    case BlockNote(_) => Token(Comment, Spelled(rules, x), [], size)
  }

  /** What may stand right after it. */
  predicate MayFollow(x: Lexeme, t: seq<Byte>) {
    match x
    case Name(name) => !IsIdentPart(At(t, 0)) && !(name == "b" && At(t, 0) == QUOTE)
    case AtName(_) => !IsIdentPart(At(t, 0))
    case Number(_, _) => !Continues(At(t, 0))
    case Infinity(_) => !IsIdentPart(At(t, 0))
    case Quotation(bytes) => bytes == [] && t != [] ==> t[0] != QUOTE
    case Time(_) => t != [] ==> EndsRun(t[0])
    case Span(_, _, _, _) => EndsDuration(At(t, 0))
    case LineNote(_, _) => t != [] ==> t[0] == NEWLINE
    case _ => true
  }

  lemma LexemeLexes(rules: Rules, x: Lexeme, t: seq<Byte>)
    requires Good(rules, x) && MayFollow(x, t)
    ensures Lex(rules, Spelled(rules, x) + t) == TokenOf(rules, x)
  {
    hide Lex, Emitted, OnlyLast, SpanText, TimeText, SpanParts, At, Text;
    match x {
      case Mark(c) => MarkLexes(rules, c, t);
      case Name(name) => NameLexes(rules, name, t);
      case AtName(name) =>
        DirectiveLexes(rules, name, t);
      case Number(p, precision) =>
        LiteralLexes(rules, p, precision, t);
        var v := Ascii(Text(p));
        assert v + (Suffix(precision) + t) == v + Suffix(precision) + t;
      case Infinity(negative) => InfinityLexes(rules, negative, t);
      case Quotation(bytes) => StringTokens.EmittedLexes(rules, bytes, t);
      case RawText(text) => RawLexes(rules, text, t);
      case Base64(text) => BytesLex(rules, text, t);
      case Time(text) => TimeLexes(rules, text, t);
      case Span(sign, whole, frac, u) => SpanLexes(rules, sign, whole, frac, u, t);
      case LineNote(slashes, text) => LineLexes(rules, slashes, text, t);
      case BlockNote(text) => BlockLexes(rules, text, t);
    }
  }

  // ---- A text of lexemes ----

  /** The tokens of a text, to its end or to one that is illegal. */
  function Tokenize(rules: Rules, s: seq<Byte>): seq<Token>
    decreases |s|
  {
    var (start, tok) := NextToken(rules, s, 0);
    if tok.kind.EOF? then []
    else if tok.kind.Illegal? || tok.size == 0 || start + tok.size > |s| then [tok]
    else [tok] + Tokenize(rules, s[start + tok.size..])
  }

  datatype Line = Line(indent: seq<Byte>, x: Lexeme)

  predicate GoodLines(rules: Rules, ls: seq<Line>) {
    forall i :: 0 <= i < |ls| ==>
      Good(rules, ls[i].x) && forall k :: 0 <= k < |ls[i].indent| ==> IsSpace(ls[i].indent[k])
  }

  function LinesText(rules: Rules, ls: seq<Line>): seq<Byte>
    requires GoodLines(rules, ls)
  {
    if ls == [] then []
    else ls[0].indent + (Spelled(rules, ls[0].x) + ([NEWLINE] + LinesText(rules, ls[1..])))
  }

  function LinesTokens(rules: Rules, ls: seq<Line>): seq<Token>
    requires GoodLines(rules, ls)
  {
    if ls == [] then []
    else [TokenOf(rules, ls[0].x), Token(Newline, [], [], 1)] + LinesTokens(rules, ls[1..])
  }

  lemma NewlineFollows(x: Lexeme, t: seq<Byte>)
    ensures MayFollow(x, [NEWLINE] + t)
  {
    assert ([NEWLINE] + t)[0] == NEWLINE;
  }

  /** A lexeme starts with no space, and its token takes all of it. */
  lemma LexemeStarts(rules: Rules, x: Lexeme)
    requires Good(rules, x)
    ensures var s := Spelled(rules, x);
            s != [] && !IsSpace(s[0]) && TokenOf(rules, x).size == |s|
    ensures !TokenOf(rules, x).kind.EOF? && !TokenOf(rules, x).kind.Illegal?
  {
    hide OnlyLast;
    match x {
      case Name(name) => NameAscii(name);
      case Number(p, precision) => NumberStart(p, precision);
      case Span(sign, whole, frac, u) => SpanStart(sign, whole, frac, u);
      case Time(text) => assert text[..4][0] == text[0];
      case Quotation(bytes) => QuotationStart(bytes);
      case _ =>
    }
  }

  lemma QuotationStart(bytes: seq<Byte>)
    ensures Emitted(bytes) != [] && Emitted(bytes)[0] == QUOTE
  {
  }

  lemma NumberStart(p: Parts, precision: string)
    requires Lexical(p) && DecimalText.AllDigits(precision)
    ensures IsAscii(Text(p)) && IsAscii(precision)
    ensures Ascii(Text(p)) != [] && !IsSpace(Ascii(Text(p))[0])
  {
    TextAscii(p);
    DigitsAscii(precision);
    FirstBytes(p, Ascii(TailText(p)));
  }

  lemma SpanStart(sign: string, whole: string, frac: string, u: seq<Byte>)
    requires SpanParts(sign, whole, frac, u) && SpanAscii(sign, whole, frac)
    ensures var s := SpanText(sign, whole, frac, u); s != [] && !IsSpace(s[0])
  {
    var y := (if frac == "" then [] else [DOT] + Ascii(frac)) + u;
    FirstBytes(Parts(sign, whole, false, "", NoExponent), y);
    assert SpanText(sign, whole, frac, u) == Ascii(sign) + Ascii(whole) + y;
  }

  lemma IndentSkipped(rules: Rules, indent: seq<Byte>, s: seq<Byte>)
    requires (forall k :: 0 <= k < |indent| ==> IsSpace(indent[k])) && s != [] && !IsSpace(s[0])
    ensures NextToken(rules, indent + s, 0) == (|indent|, Lex(rules, s))
  {
    hide Lex, Run;
    var all := indent + s;
    forall k | 0 <= k < |indent| ensures In(Spaces, all[k]) { assert all[k] == indent[k]; }
    assert all[|indent|] == s[0];
    RunIs(Spaces, all, 0, |indent|);
    assert all[|indent|..] == s;
  }

  lemma TokenizeFirst(rules: Rules, indent: seq<Byte>, s: seq<Byte>, t: seq<Byte>, tok: Token)
    requires (forall k :: 0 <= k < |indent| ==> IsSpace(indent[k])) && s != [] && !IsSpace(s[0])
    requires Lex(rules, s + t) == tok && tok.size == |s| && !tok.kind.EOF? && !tok.kind.Illegal?
    ensures Tokenize(rules, indent + (s + t)) == [tok] + Tokenize(rules, t)
  {
    hide Lex, NextToken, IsSpace, Tokenize;
    assert (s + t)[0] == s[0];
    IndentSkipped(rules, indent, s + t);
    TokenizeStep(rules, indent + (s + t), |indent|, tok);
    assert (indent + (s + t))[|indent| + |s|..] == t;
  }

  lemma TokenizeStep(rules: Rules, s: seq<Byte>, start: nat, tok: Token)
    requires NextToken(rules, s, 0) == (start, tok) && !tok.kind.EOF? && !tok.kind.Illegal?
    requires tok.size > 0 && start + tok.size <= |s|
    ensures Tokenize(rules, s) == [tok] + Tokenize(rules, s[start + tok.size..])
  {
    hide NextToken;
  }

  /** A text of lexemes, one to a line and indented as one likes, has their tokens in order. */
  lemma {:induction false} LinesLex(rules: Rules, ls: seq<Line>)
    requires GoodLines(rules, ls)
    ensures Tokenize(rules, LinesText(rules, ls)) == LinesTokens(rules, ls)
    decreases |ls|
  {
    hide Lex, Spelled, TokenOf, Good, Tokenize, MayFollow;
    if ls == [] {
      NoTokens(rules);
    } else {
      var x, rest := ls[0].x, LinesText(rules, ls[1..]);
      var s := Spelled(rules, x);
      NewlineFollows(x, rest);
      LexemeLexes(rules, x, [NEWLINE] + rest);
      LexemeStarts(rules, x);
      TokenizeFirst(rules, ls[0].indent, s, [NEWLINE] + rest, TokenOf(rules, x));
      NewlineLexes(rules, rest);
      TokenizeFirst(rules, [], [NEWLINE], rest, Token(Newline, [], [], 1));
      assert [] + ([NEWLINE] + rest) == [NEWLINE] + rest;
      LinesLex(rules, ls[1..]);
    }
  }

  lemma NoTokens(rules: Rules)
    ensures Tokenize(rules, []) == []
  {
    var none: seq<Byte> := [];
    assert none[0..] == none;
  }

  lemma NewlineLexes(rules: Rules, t: seq<Byte>)
    ensures Lex(rules, [NEWLINE] + t) == Token(Newline, [], [], 1) && !IsSpace(NEWLINE)
  {
    assert ([NEWLINE] + t)[0] == NEWLINE;
  }
}
