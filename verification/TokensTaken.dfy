/**
What a reader of an open stream takes: src/pxf/dataset_reader.cc, Complete.
The tokens taken from the bytes so far are the tokens of the whole stream.
 */
module TokensTaken {
  import opened BigEndian
  import opened StringText
  import opened Tokens
  import opened TokenStability
  import opened StringStability

  /** A token has a byte at least, and ends within the bytes. */
  lemma LexFits(rules: Rules, s: seq<Byte>)
    ensures Lex(rules, s).size <= |s|
    ensures s != [] ==> 0 < Lex(rules, s).size && !Lex(rules, s).kind.EOF?
  {
    hide Run, Find, StringRest, BytesEnd, TooLong, TimeEnd, AfterDigits, IdentKind, DirectiveKind, DecodeRune;
    if s != [] {
      DigitsFit(rules, s, Run(Digits, s, 1));
      DigitsFit(rules, s, Run(Digits, s, 0));
      FirstInRun(Digits, s);
      FirstInRun(IdentParts, s);
      FirstInRun(InLine, s);
      NumberKinds(rules, s);
      NameKinds(s);
    }
  }

  lemma FirstInRun(k: Class, s: seq<Byte>)
    requires s != []
    ensures In(k, s[0]) ==> 0 < Run(k, s, 0)
  {
  }

  lemma StrayStable(s: seq<Byte>, t: seq<Byte>)
    requires |s| >= 4
    ensures StrayWidth(s + t) == StrayWidth(s)
  {
    assert forall i :: 0 <= i < 4 ==> (s + t)[i] == s[i];
  }

  /** The first bytes, which say what kind of token it is. */
  lemma Heads(s: seq<Byte>, t: seq<Byte>)
    ensures |s| > 0 ==> (s + t)[0] == s[0]
    ensures |s| > 1 ==> At(s + t, 1) == At(s, 1)
    ensures |s| > 2 ==> At(s + t, 2) == At(s, 2)
  {
  }

  lemma StringTokenStable(s: seq<Byte>, t: seq<Byte>)
    requires s != [] && StringToken(s).kind.Str?
    ensures StringToken(s + t) == StringToken(s)
  {
    hide StringRest;
    StringStable(s[1..], t);
    assert (s + t)[1..] == s[1..] + t;
  }

  /** One quote is not a string; two and no third are the empty one. */
  lemma ShortStrings(s: seq<Byte>)
    ensures |s| == 1 ==> StringToken(s) == Bad(1)
    ensures |s| == 2 && s[0] == QUOTE && s[1] == QUOTE ==>
              StringToken(s) == Token(Str, [], [], 2) && s[..2] == [QUOTE, QUOTE]
  {
    if |s| == 2 {
      assert s[1..] == [s[1]];
    }
  }

  /** A string that is taken is not the two quotes that a third could follow. */
  lemma QuotesKnown(rules: Rules, s: seq<Byte>)
    requires s != [] && s[0] == QUOTE && Lex(rules, s).size <= |s|
    requires Complete(Lex(rules, s), s) && (At(s, 1) == QUOTE ==> At(s, 2) != QUOTE)
    ensures |s| > 1 && (At(s, 1) == QUOTE ==> |s| > 2)
  {
    hide TripleString, NextKnown, StringRest, StringToken;
    ShortStrings(s);
    assert Lex(rules, s) == StringToken(s);
  }

  /** A token that names its own end has the byte after it, unless it is an error that has four. */
  lemma EndKnown(tok: Token, s: seq<Byte>)
    requires tok.size <= |s| && Complete(tok, s) && At(s, 0) < 0x80
    requires !OneByte(tok.kind) && !tok.kind.Str? && !tok.kind.Bytes? && !tok.kind.Comment?
    ensures NextKnown(s, tok.size)
  {
  }

  /** The kinds that names and numbers have. */
  lemma NameKinds(s: seq<Byte>)
    requires s != []
    ensures var k := Directive(s).kind; k.AtType? || k.AtDataset? || k.AtProto? || k.AtDirective? || k.Illegal?
    ensures var k := IdentToken(s).kind; k.Bool? || k.Null? || k.Ident?
  {
  }

  lemma NumberKinds(rules: Rules, s: seq<Byte>)
    requires s != []
    ensures var k := NumberToken(rules, s).kind;
            k.Int? || k.Float? || k.Timestamp? || k.Duration? || k.Illegal?
  {
    hide Run, TimeEnd, DurationEnd, FloatEnd;
  }

  /** What a token is, by its first bytes. */
  datatype Start = Line | Block | Three | Simple | Literal | Named | Numeric | Word | Stray

  function StartOf(s: seq<Byte>): Start
    requires s != []
  {
    var c := s[0];
    if c == HASH || (c == SLASH && At(s, 1) == SLASH) then Line
    else if c == SLASH && At(s, 1) == STAR then Block
    else if c == QUOTE then if At(s, 1) == QUOTE && At(s, 2) == QUOTE then Three else Simple
    else if c == LETTER_B && At(s, 1) == QUOTE then Literal
    else if c == AT then Named
    else if c == MINUS || c == PLUS || IsDigit(c) then Numeric
    else if IsIdentStart(c) then Word
    else Stray
  }

  lemma ByStart(rules: Rules, s: seq<Byte>)
    requires s != [] && Punctuation(s[0]).None?
    ensures Lex(rules, s) == match StartOf(s)
              case Line => LineComment(s)
              case Block => BlockComment(s)
              case Three => TripleString(rules, s)
              case Simple => StringToken(s)
              case Literal => BytesToken(rules, s)
              case Named => Directive(s)
              case Numeric => NumberToken(rules, s)
              case Word => IdentToken(s)
              case Stray => Bad(StrayWidth(s))
  {
    hide LineComment, BlockComment, TripleString, StringToken, BytesToken, Directive, NumberToken, IdentToken,
         StrayWidth;
  }

  /** The bytes that say which token it is are there. */
  lemma StartKnown(rules: Rules, s: seq<Byte>, t: seq<Byte>)
    requires s != [] && Lex(rules, s).size <= |s| && Complete(Lex(rules, s), s)
    ensures StartOf(s + t) == StartOf(s) && (s + t)[0] == s[0]
  {
    hide Punctuation, LineComment, BlockComment, TripleString, StringToken, BytesToken, Directive, NumberToken,
         IdentToken, StrayWidth, NextKnown;
    Heads(s, t);
    if s[0] == QUOTE {
      if At(s, 1) != QUOTE || At(s, 2) != QUOTE {
        QuotesKnown(rules, s);
      }
    } else if s[0] == SLASH || s[0] == LETTER_B {
      SecondKnown(rules, s);
    }
  }

  lemma SecondKnown(rules: Rules, s: seq<Byte>)
    requires s != [] && (s[0] == SLASH || s[0] == LETTER_B)
    requires Lex(rules, s).size <= |s| && Complete(Lex(rules, s), s)
    ensures |s| > 1
  {
    hide Run;
    LexFits(rules, s);
    NameKinds(s);
  }

  /** Every token that is taken, but a simple string that is an error, is decided. */
  lemma Decided(rules: Rules, s: seq<Byte>, t: seq<Byte>)
    requires s != [] && Lex(rules, s).size <= |s| && Complete(Lex(rules, s), s)
    requires StartOf(s).Simple? ==> !Lex(rules, s).kind.Illegal?
    ensures Lex(rules, s + t) == Lex(rules, s)
  {
    hide LineComment, BlockComment, TripleString, StringToken, BytesToken, Directive, NumberToken, IdentToken;
    hide Punctuation, StrayWidth, NextKnown, StartOf, Complete, Lex;
    StartKnown(rules, s, t);
    if Punctuation(s[0]).Some? {
      Punctuated(rules, s, t);
    } else {
      ByStart(rules, s);
      ByStart(rules, s + t);
      match StartOf(s)
      case Line => LineDecided(rules, s, t);
      case Block => BlockDecided(rules, s, t);
      case Three => ThreeDecided(rules, s, t);
      case Simple => SimpleKind(s); StringTokenStable(s, t);
      case Literal => LiteralDecided(rules, s, t);
      case Named => NamedDecided(rules, s, t);
      case Numeric => NumericDecided(rules, s, t);
      case Word => WordDecided(rules, s, t);
      case Stray => StrayDecided(rules, s, t);
    }
  }

  lemma Punctuated(rules: Rules, s: seq<Byte>, t: seq<Byte>)
    requires s != [] && Punctuation(s[0]).Some?
    ensures Lex(rules, s + t) == Lex(rules, s)
  {
    assert (s + t)[0] == s[0];
  }

  lemma SimpleKind(s: seq<Byte>)
    requires s != []
    ensures StringToken(s).kind.Str? || StringToken(s).kind.Illegal?
  {
  }

  lemma LineDecided(rules: Rules, s: seq<Byte>, t: seq<Byte>)
    requires s != [] && StartOf(s).Line? && LineComment(s).size <= |s| && Complete(LineComment(s), s)
    ensures LineComment(s + t) == LineComment(s)
  {
    hide Run;
    assert |s| >= 2 ==> s[..2] != [SLASH, STAR] by {
      if |s| >= 2 {
        assert s[..2][0] == s[0] && s[..2][1] == s[1];
      }
    }
    LineCommentStable(s, t);
  }

  lemma BlockDecided(rules: Rules, s: seq<Byte>, t: seq<Byte>)
    requires s != [] && StartOf(s).Block? && BlockComment(s).size <= |s| && Complete(BlockComment(s), s)
    ensures BlockComment(s + t) == BlockComment(s)
  {
    hide Find;
    BlockCommentStable(s, t);
  }

  lemma ThreeDecided(rules: Rules, s: seq<Byte>, t: seq<Byte>)
    requires s != [] && StartOf(s).Three? && TripleString(rules, s).size <= |s| && Complete(TripleString(rules, s), s)
    ensures TripleString(rules, s + t) == TripleString(rules, s)
  {
    hide Find;
    TripleStable(rules, s, t);
  }

  lemma LiteralDecided(rules: Rules, s: seq<Byte>, t: seq<Byte>)
    requires s != [] && StartOf(s).Literal? && BytesToken(rules, s).size <= |s| && Complete(BytesToken(rules, s), s)
    ensures BytesToken(rules, s + t) == BytesToken(rules, s)
  {
    hide BytesEnd, TooLong;
    BytesStable(rules, s, t);
  }

  lemma NamedDecided(rules: Rules, s: seq<Byte>, t: seq<Byte>)
    requires s != [] && StartOf(s).Named? && Directive(s).size <= |s| && Complete(Directive(s), s)
    ensures Directive(s + t) == Directive(s)
  {
    hide Directive, Complete;
    NameKinds(s);
    EndKnown(Directive(s), s);
    DirectiveStable(s, t);
  }

  lemma WordDecided(rules: Rules, s: seq<Byte>, t: seq<Byte>)
    requires s != [] && StartOf(s).Word? && IdentToken(s).size <= |s| && Complete(IdentToken(s), s)
    ensures IdentToken(s + t) == IdentToken(s)
  {
    hide IdentToken, Complete;
    NameKinds(s);
    EndKnown(IdentToken(s), s);
    IdentStable(s, t);
  }

  lemma NumericDecided(rules: Rules, s: seq<Byte>, t: seq<Byte>)
    requires s != [] && StartOf(s).Numeric? && NumberToken(rules, s).size <= |s| && Complete(NumberToken(rules, s), s)
    ensures NumberToken(rules, s + t) == NumberToken(rules, s)
  {
    hide NumberToken;
    NumberKinds(rules, s);
    EndKnown(NumberToken(rules, s), s);
    NumberStable(rules, s, t);
  }

  lemma StrayDecided(rules: Rules, s: seq<Byte>, t: seq<Byte>)
    requires s != [] && StartOf(s).Stray? && StrayWidth(s) <= |s| && Complete(Bad(StrayWidth(s)), s)
    ensures StrayWidth(s + t) == StrayWidth(s)
  {
    hide StrayWidth, StartOf;
    StrayStable(s, t);
  }

  // ---- The theorems ----

  /**
  A token that is taken while the stream is open, and is not an error, is the token that any longer
  stream has there, with the same end.
   */
  lemma TakenStable(rules: Rules, s: seq<Byte>, t: seq<Byte>)
    requires Lex(rules, s).size <= |s| && Complete(Lex(rules, s), s)
    requires !Lex(rules, s).kind.EOF? && !Lex(rules, s).kind.Illegal?
    ensures Lex(rules, s + t) == Lex(rules, s)
  {
    hide Lex, Complete;
    NothingThere(rules, s);
    Decided(rules, s, t);
  }

  lemma NothingThere(rules: Rules, s: seq<Byte>)
    ensures s == [] ==> Lex(rules, s) == Token(EOF, [], [], 0)
  {
  }

  /** The bytes end inside an eight-digit escape, one that can still be read, of the string they start. */
  predicate CutInString(s: seq<Byte>) {
    s != [] && StartOf(s).Simple? && CutRune(s[1..])
  }

  /**
  An error that is taken while the stream is open is one in every longer stream exactly when the bytes
  do not end inside such an escape.
   */
  lemma ErrorStays(rules: Rules, s: seq<Byte>)
    requires Lex(rules, s).size <= |s| && Lex(rules, s).kind.Illegal? && Complete(Lex(rules, s), s)
    ensures (forall t :: Lex(rules, s + t).kind.Illegal?) <==> !CutInString(s)
  {
    hide Lex, Complete, StartOf, CutDigits, Completable;
    if CutInString(s) {
      var t := Zeros(8 - |CutDigits(s[1..]).value|) + [QUOTE];
      ErrorGoes(rules, s, t);
      assert !Lex(rules, s + t).kind.Illegal?;
    } else {
      forall t ensures Lex(rules, s + t).kind.Illegal? {
        ErrorKept(rules, s, t);
      }
    }
  }

  lemma ErrorKept(rules: Rules, s: seq<Byte>, t: seq<Byte>)
    requires Lex(rules, s).size <= |s| && Lex(rules, s).kind.Illegal? && Complete(Lex(rules, s), s)
    requires !CutInString(s)
    ensures Lex(rules, s + t).kind.Illegal?
  {
    hide Lex, StartOf, CutRune, StringRest, NextKnown;
    assert s != [] by { NothingThere(rules, s); }
    if StartOf(s).Simple? {
      SimpleError(rules, s);
      StartKnown(rules, s, t);
      ByStart(rules, s + t) by { Quotes(s + t); }
      FailureStays(s[1..], t);
      assert (s + t)[1..] == s[1..] + t;
    } else {
      Decided(rules, s, t);
    }
  }

  lemma Quotes(s: seq<Byte>)
    requires s != [] && StartOf(s).Simple?
    ensures s[0] == QUOTE && Punctuation(s[0]).None?
  {
  }

  lemma SimpleError(rules: Rules, s: seq<Byte>)
    requires s != [] && StartOf(s).Simple? && Lex(rules, s).kind.Illegal? && Lex(rules, s).size + 4 <= |s|
    ensures StringRest(s[1..]).NotClosed? && StringRest(s[1..]).size + 4 <= |s[1..]|
  {
    hide StringRest, StartOf, Lex;
    ByStart(rules, s) by { Quotes(s); }
  }

  lemma ErrorGoes(rules: Rules, s: seq<Byte>, t: seq<Byte>)
    requires Lex(rules, s).size <= |s| && Lex(rules, s).kind.Illegal? && Complete(Lex(rules, s), s)
    requires CutInString(s)
    requires t == Zeros(8 - |CutDigits(s[1..]).value|) + [QUOTE]
    ensures Lex(rules, s + t).kind.Str? && Lex(rules, s + t).size == |s + t|
  {
    hide Lex, StartOf, CutDigits, Completable, StringRest, NextKnown, Complete;
    StartKnown(rules, s, t);
    ByStart(rules, s + t) by { Quotes(s + t); }
    CutStringReads(s[1..]);
    assert (s + t)[1..] == s[1..] + t;
  }

  // ---- In the input ----

  /** The token at or after pos has a byte at least, and ends within the input. */
  lemma FromNext(rules: Rules, input: seq<Byte>, pos: nat)
    requires pos <= |input|
    ensures var (start, tok) := NextToken(rules, input, pos);
            tok.size <= |input| - start && (!tok.kind.EOF? ==> 0 < tok.size)
  {
    hide Lex, Run;
    var (start, tok) := NextToken(rules, input, pos);
    LexFits(rules, input[start..]);
    NothingThere(rules, input[start..]);
  }

  /** A token that is taken at pos is there however the input goes on. */
  lemma NextStable(rules: Rules, input: seq<Byte>, pos: nat, t: seq<Byte>)
    requires pos <= |input|
    requires var (start, tok) := NextToken(rules, input, pos);
             tok.size <= |input[start..]| && Complete(tok, input[start..]) && !tok.kind.EOF? && !tok.kind.Illegal?
    ensures NextToken(rules, input + t, pos) == NextToken(rules, input, pos)
  {
    hide Lex, Complete;
    var (start, tok) := NextToken(rules, input, pos);
    var s := input[start..];
    NothingThere(rules, s);
    RunStable(Spaces, input, pos, t);
    assert (input + t)[start..] == s + t;
    TakenStable(rules, s, t);
  }

  lemma NextErrorStays(rules: Rules, input: seq<Byte>, pos: nat, t: seq<Byte>)
    requires pos <= |input|
    requires var (start, tok) := NextToken(rules, input, pos);
             && tok.size <= |input[start..]| && Complete(tok, input[start..]) && tok.kind.Illegal?
             && !CutInString(input[start..])
    ensures var (start, tok) := NextToken(rules, input + t, pos);
            start == NextToken(rules, input, pos).0 && tok.kind.Illegal?
  {
    hide Lex, Complete, CutInString;
    var (start, tok) := NextToken(rules, input, pos);
    var s := input[start..];
    NothingThere(rules, s);
    RunStable(Spaces, input, pos, t);
    assert (input + t)[start..] == s + t;
    ErrorKept(rules, s, t);
  }

  /** Where the input ends inside an escape that can still be read, the rest of it and a quote make a string. */
  lemma NextErrorGoes(rules: Rules, input: seq<Byte>, pos: nat) returns (t: seq<Byte>)
    requires pos <= |input|
    requires var (start, tok) := NextToken(rules, input, pos);
             && tok.size <= |input[start..]| && Complete(tok, input[start..]) && tok.kind.Illegal?
             && CutInString(input[start..])
    ensures var (start, tok) := NextToken(rules, input + t, pos);
            && start == NextToken(rules, input, pos).0 && tok.kind.Str? && start + tok.size == |input + t|
  {
    hide Lex, Complete, StartOf, CutDigits, Completable;
    var (start, tok) := NextToken(rules, input, pos);
    var s := input[start..];
    NothingThere(rules, s);
    t := Zeros(8 - |CutDigits(s[1..]).value|) + [QUOTE];
    RunStable(Spaces, input, pos, t);
    assert (input + t)[start..] == s + t;
    ErrorGoes(rules, s, t);
  }

  // ---- A stream that ends inside an escape ----

  /** The string of one rune, U+1F600 as an eight-digit escape: its bytes up to the fifth digit, and all. */
  function CutExample(): seq<Byte> { [QUOTE, BACKSLASH, 0x55, 0x30, 0x30, 0x30, 0x31, 0x46] }

  function WholeExample(): seq<Byte> { CutExample() + [0x36, 0x30, 0x30, QUOTE] }

  /** The first is taken as an error, though with the rest it is a string. */
  lemma ErrorTakenEarly(rules: Rules)
    ensures Lex(rules, CutExample()) == Bad(3) && Complete(Bad(3), CutExample())
    ensures Lex(rules, WholeExample()).kind.Str?
  {
    hide EncodeRune, Num, HexVals;
    var s := CutExample();
    var digits := s[3..];
    assert s[1..][1..][1..] == digits;
    assert EscapeAt(s[1..][1..]) == RuneEscape(digits, 8) == BadEscape(1) by {
      assert s[1..][1..][0] == 0x55;
    }
    assert StringRest(s[1..]) == NotClosed(2) by {
      assert s[1..][0] == BACKSLASH;
    }
    WholeRead(rules);
  }

  lemma WholeRead(rules: Rules)
    ensures Lex(rules, WholeExample()).kind.Str?
  {
    hide EncodeRune;
    var s := WholeExample();
    var digits := [0x30, 0x30, 0x30, 0x31, 0x46, 0x36, 0x30, 0x30];
    assert s[1..][1..][1..] == digits + [QUOTE];
    assert (digits + [QUOTE])[..8] == digits;
    assert HexVals(digits) == [0, 0, 0, 1, 15, 6, 0, 0];
    ExampleValue();
    assert RuneEscape(digits + [QUOTE], 8) == Escape(EncodeRune(0x1F600), 9);
    assert s[1..][1..][0] == 0x55;
    assert EscapeAt(s[1..][1..]) == Escape(EncodeRune(0x1F600), 9);
    assert s[1..][0] == BACKSLASH;
    assert s[1..][10..] == [QUOTE];
    assert StringRest([QUOTE]) == Closed([], 1);
    assert StringRest(s[1..]).Closed?;
  }

  lemma ExampleValue()
    ensures Num(16, [0, 0, 0, 1, 15, 6, 0, 0]) == 0x1F600
  {
    hide Num;
    NumEmpty(16);
    NumSnoc(16, [], 0);
    NumSnoc(16, [0], 0);
    NumSnoc(16, [0, 0], 0);
    NumSnoc(16, [0, 0, 0], 1);
    NumSnoc(16, [0, 0, 0, 1], 15);
    NumSnoc(16, [0, 0, 0, 1, 15], 6);
    NumSnoc(16, [0, 0, 0, 1, 15, 6], 0);
    NumSnoc(16, [0, 0, 0, 1, 15, 6, 0], 0);
    assert [] + [0] == [0] && [0] + [0] == [0, 0] && [0, 0] + [0] == [0, 0, 0];
    assert [0, 0, 0] + [1] == [0, 0, 0, 1] && [0, 0, 0, 1] + [15] == [0, 0, 0, 1, 15];
    assert [0, 0, 0, 1, 15] + [6] == [0, 0, 0, 1, 15, 6] && [0, 0, 0, 1, 15, 6] + [0] == [0, 0, 0, 1, 15, 6, 0];
    assert [0, 0, 0, 1, 15, 6, 0] + [0] == [0, 0, 0, 1, 15, 6, 0, 0];
  }
}
