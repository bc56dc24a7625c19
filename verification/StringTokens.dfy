/**
A string literal is one token: what src/detail/go_quote.cc and src/pxf/encode.cc write, the lexer of
src/pxf/lexer.cc reads as a single string token with the bytes that were written, and nothing after it.
 */
module StringTokens {
  import opened BigEndian
  import opened StringText
  import opened StringRoundTrip
  import opened Tokens

  /** A literal, whose text after the first quote closes with value v, and no third quote where the string is empty. */
  lemma LiteralLexes(rules: Rules, text: seq<Byte>, tail: seq<Byte>, v: seq<Byte>)
    requires |text| >= 2 && text[0] == QUOTE && StringRest(text[1..] + tail) == Closed(v, |text| - 1)
    requires text[1] == QUOTE ==> |text| == 2 && (tail == [] || tail[0] != QUOTE)
    ensures Lex(rules, text + tail) == Token(Str, v, [], |text|)
  {
    hide StringRest;
    var s := text + tail;
    assert s[0] == QUOTE && At(s, 1) == text[1];
    assert At(s, 1) == QUOTE ==> At(s, 2) != QUOTE;
    assert s[1..] == text[1..] + tail;
  }

  /** Whatever follows, unless it is a quote right after the empty string. */
  lemma QuotedLexes(rules: Rules, s: seq<Byte>, isPrint: int -> bool, tail: seq<Byte>)
    requires PrintTable(isPrint) && (s == [] && tail != [] ==> tail[0] != QUOTE)
    ensures Lex(rules, Quoted(s, isPrint) + tail) == Token(Str, s, [], |Quoted(s, isPrint)|)
  {
    hide StringRest, Lex, QuotePiece, EmitBody;
    QuotedReads(s, isPrint, tail);
    if s != [] {
      BodyStarts(s, isPrint);
    }
    LiteralLexes(rules, Quoted(s, isPrint), tail, s);
  }

  lemma EmittedLexes(rules: Rules, s: seq<Byte>, tail: seq<Byte>)
    requires s == [] && tail != [] ==> tail[0] != QUOTE
    ensures Lex(rules, Emitted(s) + tail) == Token(Str, s, [], |Emitted(s)|)
  {
    hide StringRest, Lex, EmitByte, QuoteBody;
    EmittedReads(s, tail);
    if s != [] {
      BodyStarts(s, _ => false);
    }
    LiteralLexes(rules, Emitted(s), tail, s);
  }

  /** Alone, the literal is the whole of the text: its token, and then the end. */
  lemma QuotedIsOneToken(rules: Rules, s: seq<Byte>, isPrint: int -> bool)
    requires PrintTable(isPrint)
    ensures var text := Quoted(s, isPrint);
            && NextToken(rules, text, 0) == (0, Token(Str, s, [], |text|))
            && NextToken(rules, text, |text|) == (|text|, Token(EOF, [], [], 0))
  {
    hide Lex, QuoteBody;
    var text := Quoted(s, isPrint);
    QuotedLexes(rules, s, isPrint, []);
    OneToken(rules, text, Token(Str, s, [], |text|));
  }

  lemma EmittedIsOneToken(rules: Rules, s: seq<Byte>)
    ensures var text := Emitted(s);
            && NextToken(rules, text, 0) == (0, Token(Str, s, [], |text|))
            && NextToken(rules, text, |text|) == (|text|, Token(EOF, [], [], 0))
  {
    hide Lex, EmitBody;
    var text := Emitted(s);
    EmittedLexes(rules, s, []);
    OneToken(rules, text, Token(Str, s, [], |text|));
  }

  lemma OneToken(rules: Rules, text: seq<Byte>, tok: Token)
    requires text != [] && text[0] == QUOTE && Lex(rules, text + []) == tok
    ensures NextToken(rules, text, 0) == (0, tok)
    ensures NextToken(rules, text, |text|) == (|text|, Token(EOF, [], [], 0))
  {
    assert text + [] == text && text[0..] == text && text[|text|..] == [];
    assert Run(Spaces, text, 0) == 0 && Run(Spaces, text, |text|) == |text|;
    assert Lex(rules, []) == Token(EOF, [], [], 0);
  }
}
