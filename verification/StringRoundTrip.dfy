/**
Lexing what is quoted: both writers of string literals, src/detail/go_quote.cc and
src/pxf/encode.cc, are undone by the reader in src/pxf/lexer.cc, on every byte string.
 */
module StringRoundTrip {
  import opened Powers
  import opened BigEndian
  import opened Utf8
  import opened StringText

  /** A quoted newline would end the literal: the table of printable runes must not hold it. */
  ghost predicate PrintTable(isPrint: int -> bool) {
    !isPrint(NEWLINE)
  }

  // ---- One piece ----

  /** A backslash and an escape of |e| bytes that stands for b. */
  lemma EscapeReads(e: seq<Byte>, b: seq<Byte>, tail: seq<Byte>)
    requires EscapeAt(e + tail) == Escape(b, |e|)
    ensures StringRest([BACKSLASH] + e + tail) == Before(b, 1 + |e|, StringRest(tail))
  {
    hide EscapeAt;
    var s := [BACKSLASH] + e + tail;
    assert s[1..] == e + tail;
    assert s[1 + |e|..] == tail;
  }

  predicate Plain(c: Byte) {
    c != QUOTE && c != BACKSLASH && c != NEWLINE
  }

  lemma {:induction false} PlainReads(raw: seq<Byte>, tail: seq<Byte>)
    requires forall i :: 0 <= i < |raw| ==> Plain(raw[i])
    ensures StringRest(raw + tail) == Before(raw, |raw|, StringRest(tail))
  {
    hide EscapeAt;
    if raw == [] {
      assert raw + tail == tail;
      var r := StringRest(tail);
      assert r.Closed? ==> raw + r.value == r.value;
    } else {
      PlainReads(raw[1..], tail);
      assert Plain(raw[0]);
      assert (raw + tail)[0] == raw[0] && (raw + tail)[1..] == raw[1..] + tail;
      var r := StringRest(tail);
      assert r.Closed? ==> [raw[0]] + (raw[1..] + r.value) == raw + r.value;
    }
  }

  /** An escape of one letter. */
  lemma LetterReads(c: Byte, b: Byte, tail: seq<Byte>)
    requires EscapeAt([c] + tail) == Escape([b], 1)
    ensures StringRest([BACKSLASH, c] + tail) == Before([b], 2, StringRest(tail))
  {
    hide EscapeAt, StringRest;
    EscapeReads([c], [b], tail);
    assert [BACKSLASH] + [c] + tail == [BACKSLASH, c] + tail;
  }

  /** \xhh. */
  lemma HexByteReads(v: Byte, tail: seq<Byte>)
    ensures StringRest([BACKSLASH, 0x78] + Hex(v, 2) + tail) == Before([v], 4, StringRest(tail))
  {
    hide StringRest, ReadHex, Hex;
    HexWidths();
    HexReads(v, 2, tail);
    var e := [0x78] + Hex(v, 2);
    assert (e + tail)[1..] == Hex(v, 2) + tail && (e + tail)[0] == 0x78;
    EscapeReads(e, [v], tail);
    assert [BACKSLASH] + e + tail == [BACKSLASH, 0x78] + Hex(v, 2) + tail;
  }

  /** \uhhhh and \Uhhhhhhhh. */
  lemma RuneReads(letter: Byte, n: nat, r: int, tail: seq<Byte>)
    requires (letter == 0x75 && n == 4) || (letter == 0x55 && n == 8)
    requires ValidRune(r) && r < Pow(16, n)
    ensures StringRest([BACKSLASH, letter] + Hex(r, n) + tail) == Before(EncodeRune(r), n + 2, StringRest(tail))
  {
    hide StringRest, ReadHex, Hex, EncodeRune;
    HexReads(r, n, tail);
    var e := [letter] + Hex(r, n);
    assert (e + tail)[1..] == Hex(r, n) + tail && (e + tail)[0] == letter;
    EscapeReads(e, EncodeRune(r), tail);
    assert [BACKSLASH] + e + tail == [BACKSLASH, letter] + Hex(r, n) + tail;
  }

  /** A rune's raw bytes: itself below 0x80, bytes from 0x80 up otherwise. */
  lemma EncodedPlain(r: int)
    requires ValidRune(r) && r != QUOTE && r != BACKSLASH && r != NEWLINE
    ensures forall i :: 0 <= i < |EncodeRune(r)| ==> Plain(EncodeRune(r)[i])
  {
  }

  lemma EscapedRuneReads(r: int, isPrint: int -> bool, tail: seq<Byte>)
    requires ValidRune(r) && PrintTable(isPrint)
    ensures var text := EscapedRune(r, EncodeRune(r), isPrint);
            StringRest(text + tail) == Before(EncodeRune(r), |text|, StringRest(tail))
  {
    hide StringRest, Hex, Before;
    HexWidths();
    if r == QUOTE || r == BACKSLASH {
      LetterReads(r, r, tail);
    } else if isPrint(r) {
      EncodedPlain(r);
      PlainReads(EncodeRune(r), tail);
    } else if r == 7 {
      LetterReads(0x61, 7, tail);
    } else if r == 8 {
      LetterReads(0x62, 8, tail);
    } else if r == 0x0C {
      LetterReads(0x66, 0x0C, tail);
    } else if r == NEWLINE {
      LetterReads(0x6E, NEWLINE, tail);
    } else if r == 0x0D {
      LetterReads(0x72, 0x0D, tail);
    } else if r == 9 {
      LetterReads(0x74, 9, tail);
    } else if r == 0x0B {
      LetterReads(0x76, 0x0B, tail);
    } else if r < 0x20 || r == 0x7F {
      HexByteReads(r, tail);
    } else if r < 0x10000 {
      RuneReads(0x75, 4, r, tail);
    } else {
      RuneReads(0x55, 8, r, tail);
    }
  }

  lemma PieceReads(s: seq<Byte>, isPrint: int -> bool, tail: seq<Byte>)
    requires s != [] && PrintTable(isPrint)
    ensures var (n, text) := QuotePiece(s, isPrint);
            StringRest(text + tail) == Before(s[..n], |text|, StringRest(tail))
  {
    hide StringRest, Hex, Before, EscapedRune, RuneLength;
    if s[0] < 0x80 {
      assert s[..1] == [s[0]] == EncodeRune(s[0]);
      EscapedRuneReads(s[0], isPrint, tail);
    } else {
      var (r, n) := DecodeRune(s);
      if n == 0 {
        assert s[..1] == [s[0]];
        HexByteReads(s[0], tail);
      } else {
        DecodedEncodes(s);
        EscapedRuneReads(r, isPrint, tail);
      }
    }
  }

  // ---- Whole literals ----

  lemma {:induction false} BodyReads(s: seq<Byte>, isPrint: int -> bool, tail: seq<Byte>)
    requires PrintTable(isPrint)
    ensures StringRest(QuoteBody(s, isPrint) + tail) == Before(s, |QuoteBody(s, isPrint)|, StringRest(tail))
    decreases |s|
  {
    hide StringRest, QuotePiece, Before;
    if s == [] {
      assert QuoteBody(s, isPrint) + tail == tail;
      NothingBefore(StringRest(tail));
    } else {
      var (n, text) := QuotePiece(s, isPrint);
      var rest := QuoteBody(s[n..], isPrint);
      BodyReads(s[n..], isPrint, tail);
      PieceReads(s, isPrint, rest + tail);
      assert QuoteBody(s, isPrint) + tail == text + (rest + tail);
      BeforeTwice(s[..n], |text|, s[n..], |rest|, StringRest(tail));
      assert s[..n] + s[n..] == s;
    }
  }

  lemma QuoteCloses(tail: seq<Byte>)
    ensures StringRest([QUOTE] + tail) == Closed([], 1)
  {
  }

  /**
  A quoted string, whatever follows it, lexes to the string it was made from and ends where the
  quoting ended.
   */
  lemma QuotedReads(s: seq<Byte>, isPrint: int -> bool, tail: seq<Byte>)
    requires PrintTable(isPrint)
    ensures var text := Quoted(s, isPrint);
            text[0] == QUOTE && StringRest(text[1..] + tail) == Closed(s, |text| - 1)
  {
    hide StringRest, QuoteBody;
    var body := QuoteBody(s, isPrint);
    BodyReads(s, isPrint, [QUOTE] + tail);
    QuoteCloses(tail);
    var text := Quoted(s, isPrint);
    assert text[1..] + tail == body + ([QUOTE] + tail);
    assert s + [] == s;
  }

  /** Without the condition on the table it fails: a newline written as itself is not read. */
  lemma PrintableNewlineFails(isPrint: int -> bool)
    requires !PrintTable(isPrint)
    ensures StringRest(Quoted([NEWLINE], isPrint)[1..]).NotClosed?
  {
    var text := Quoted([NEWLINE], isPrint);
    assert [NEWLINE][1..] == [];
    assert QuotePiece([NEWLINE], isPrint) == (1, [NEWLINE][..1]);
    assert text[1..][0] == NEWLINE;
  }

  // ---- EmitString ----

  lemma EmitByteReads(c: Byte, tail: seq<Byte>)
    ensures StringRest(EmitByte(c) + tail) == Before([c], |EmitByte(c)|, StringRest(tail))
  {
    hide StringRest, Before;
    if c == QUOTE || c == BACKSLASH {
      LetterReads(c, c, tail);
    } else if c == NEWLINE {
      LetterReads(0x6E, c, tail);
    } else if c == 9 {
      LetterReads(0x74, c, tail);
    } else if c == 0x0D {
      LetterReads(0x72, c, tail);
    } else if c < 0x20 {
      HexByteReads(c, tail);
      HexPair(c);
      assert [BACKSLASH, 0x78] + Hex(c, 2) == EmitByte(c);
    } else {
      PlainReads([c], tail);
    }
  }

  lemma HexPair(c: Byte)
    ensures Hex(c, 2) == [HexDigit(c / 16), HexDigit(c % 16)]
  {
    hide HexDigit;
    var hi, lo := c / 16, c % 16;
    assert hi / 16 == 0 && hi % 16 == hi;
    assert Hex(hi, 1) == Hex(0, 0) + [HexDigit(hi)];
    assert Hex(c, 2) == Hex(hi, 1) + [HexDigit(lo)];
  }

  lemma {:induction false} EmitBodyReads(s: seq<Byte>, tail: seq<Byte>)
    ensures StringRest(EmitBody(s) + tail) == Before(s, |EmitBody(s)|, StringRest(tail))
  {
    hide StringRest, Before, EmitByte;
    if s == [] {
      assert EmitBody(s) + tail == tail;
      NothingBefore(StringRest(tail));
    } else {
      var text, rest := EmitByte(s[0]), EmitBody(s[1..]);
      EmitBodyReads(s[1..], tail);
      EmitByteReads(s[0], rest + tail);
      assert EmitBody(s) + tail == text + (rest + tail);
      BeforeTwice([s[0]], |text|, s[1..], |rest|, StringRest(tail));
      assert [s[0]] + s[1..] == s;
    }
  }

  lemma EmittedReads(s: seq<Byte>, tail: seq<Byte>)
    ensures var text := Emitted(s);
            text[0] == QUOTE && StringRest(text[1..] + tail) == Closed(s, |text| - 1)
  {
    hide StringRest, EmitBody;
    EmitBodyReads(s, [QUOTE] + tail);
    QuoteCloses(tail);
    var text := Emitted(s);
    assert text[1..] + tail == EmitBody(s) + ([QUOTE] + tail);
    assert s + [] == s;
  }

  /** What is inside does not start with a quote, so that two quotes in a row are an empty string. */
  lemma BodyStarts(s: seq<Byte>, isPrint: int -> bool)
    requires s != []
    ensures var body := QuoteBody(s, isPrint); |body| > 0 && body[0] != QUOTE
    ensures |EmitBody(s)| > 0 && EmitBody(s)[0] != QUOTE
  {
    hide Hex, HexDigit, RuneLength;
    var (n, text) := QuotePiece(s, isPrint);
    assert |text| > 0 && text[0] != QUOTE by {
      if s[0] >= 0x80 && DecodeRune(s).1 > 0 {
        DecodedEncodes(s);
        assert s[..n][0] == s[0];
      }
    }
    assert QuoteBody(s, isPrint)[0] == text[0];
    assert EmitBody(s)[0] == EmitByte(s[0])[0];
  }
}
