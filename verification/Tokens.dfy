/**
The tokens of PXF text: what src/pxf/lexer.cc, Lexer::Next, gives for the bytes at its position,
outside the tolerant mode. Sizes count from the token's first byte.
 */
module Tokens {
  import opened Options
  import opened BigEndian
  import opened StringText

  datatype Kind =
    | EOF | Illegal | Newline | Comment | Ident | Str | Int | Float | Bool | Null | Bytes | Timestamp | Duration
    | LBrace | RBrace | LBracket | RBracket | LParen | RParen | Equals | Colon | Comma
    | AtType | AtDataset | AtProto | AtDirective

  /** A token's message, for an illegal one, is left out. */
  datatype Token = Token(kind: Kind, value: seq<Byte>, precision: seq<Byte>, size: nat)

  /** What the lexer asks of other components, and the limit on a bytes literal (none when not positive). */
  datatype Rules = Rules(
    timestamp: seq<Byte> -> bool, duration: seq<Byte> -> bool, base64: seq<Byte> -> bool,
    dedent: seq<Byte> -> seq<Byte>, maxBytes: int)

  const DOT: Byte := 0x2E
  const SLASH: Byte := 0x2F
  const STAR: Byte := 0x2A
  const HASH: Byte := 0x23
  const AT: Byte := 0x40
  const PLUS: Byte := 0x2B
  const MINUS: Byte := 0x2D
  const LETTER_B: Byte := 0x62
  const LETTER_P: Byte := 0x70
  const TRIPLE: seq<Byte> := [QUOTE, QUOTE, QUOTE]
  const COMMENT_END: seq<Byte> := [STAR, SLASH]
  const INF: seq<Byte> := [0x69, 0x6E, 0x66]

  function Bad(size: nat): Token { Token(Illegal, [], [], size) }

  /** Peek: the byte at i, 0 past the end. */
  function At(s: seq<Byte>, i: nat): int { if i < |s| then s[i] else 0 }

  predicate IsDigit(c: int) { 0x30 <= c <= 0x39 }
  predicate IsLowerAlpha(c: int) { 0x61 <= c <= 0x7A }
  predicate IsIdentStart(c: int) { IsLowerAlpha(c) || 0x41 <= c <= 0x5A || c == 0x5F }
  predicate IsIdentPart(c: int) { IsIdentStart(c) || IsDigit(c) || c == DOT }
  /** h m s n u. */
  predicate IsDurationUnit(c: int) { c == 0x68 || c == 0x6D || c == 0x73 || c == 0x6E || c == 0x75 }
  predicate IsSpace(c: int) { c == 0x20 || c == 9 || c == 0x0D }
  /** Space, newline, tab, return, comma, ] } ) #. */
  predicate EndsRun(c: int) {
    IsSpace(c) || c == NEWLINE || c == 0x2C || c == 0x5D || c == 0x7D || c == 0x29 || c == HASH
  }

  // ---- Runs ----

  datatype Class = Digits | IdentParts | InLine | Spaces

  predicate In(k: Class, c: int) {
    match k
    case Digits => IsDigit(c)
    case IdentParts => IsIdentPart(c)
    case InLine => c != NEWLINE
    case Spaces => IsSpace(c)
  }

  /** Where the bytes of the class that start at i end. */
  function Run(k: Class, s: seq<Byte>, i: nat): (e: nat)
    ensures i <= e && (i <= |s| ==> e <= |s|)
    decreases |s| - i
  {
    if i < |s| && In(k, s[i]) then Run(k, s, i + 1) else i
  }

  /** Where the first pat at i or after starts. */
  function Find(pat: seq<Byte>, s: seq<Byte>, i: nat): (r: Option<nat>)
    requires pat != []
    ensures r.Some? ==> i <= r.value && r.value + |pat| <= |s|
    decreases |s| - i
  {
    if i + |pat| > |s| then None
    else if s[i..i + |pat|] == pat then Some(i)
    else Find(pat, s, i + 1)
  }

  // ---- Comments, strings, bytes ----

  function LineComment(s: seq<Byte>): Token {
    var e := Run(InLine, s, 0);
    Token(Comment, s[..e], [], e)
  }

  /** s starts with two bytes that open a comment. */
  function BlockComment(s: seq<Byte>): Token
    requires |s| >= 2
  {
    match Find(COMMENT_END, s, 2)
    case Some(e) => Token(Comment, s[..e + 2], [], e + 2)
    case None => Bad(if |s| == 2 then 2 else |s| - 1)
  }

  function StringToken(s: seq<Byte>): Token
    requires s != []
  {
    match StringRest(s[1..])
    case Closed(v, k) => Token(Str, v, [], 1 + k)
    case NotClosed(k) => Bad(1 + k)
  }

  function TripleString(rules: Rules, s: seq<Byte>): Token
    requires |s| >= 3
  {
    match Find(TRIPLE, s, 3)
    case Some(e) => Token(Str, rules.dedent(s[3..e]), [], e + 3)
    case None => Bad(if |s| < 5 then 3 else |s| - 2)
  }

  /** More characters than the limit allows decoded: three bytes for four. */
  predicate TooLong(rules: Rules, chars: nat) {
    rules.maxBytes > 0 && chars / 4 * 3 > rules.maxBytes
  }

  /** Where a bytes literal's characters, from 2, stop: at its quote, at a newline, at the limit or at the end. */
  function BytesEnd(rules: Rules, s: seq<Byte>, i: nat): (e: nat)
    requires 2 <= i <= |s|
    ensures i <= e <= |s|
    decreases |s| - i
  {
    if i == |s| || TooLong(rules, i - 2) || s[i] == QUOTE || s[i] == NEWLINE then i else BytesEnd(rules, s, i + 1)
  }

  function BytesToken(rules: Rules, s: seq<Byte>): Token
    requires |s| >= 2
  {
    var e := BytesEnd(rules, s, 2);
    if e == |s| || TooLong(rules, e - 2) || s[e] != QUOTE then Bad(e)
    else if rules.base64(s[2..e]) then Token(Bytes, s[2..e], [], e + 1)
    else Bad(e + 1)
  }

  // ---- Names ----

  /** type, dataset, proto. */
  function DirectiveKind(name: seq<Byte>): Kind {
    if name == [0x74, 0x79, 0x70, 0x65] then AtType
    else if name == [0x64, 0x61, 0x74, 0x61, 0x73, 0x65, 0x74] then AtDataset
    else if name == [0x70, 0x72, 0x6F, 0x74, 0x6F] then AtProto
    else AtDirective
  }

  function Directive(s: seq<Byte>): Token
    requires s != []
  {
    var e := Run(IdentParts, s, 1);
    if e == 1 then Bad(1)
    else
      var kind := DirectiveKind(s[1..e]);
      Token(kind, if kind == AtDirective then s[1..e] else s[..e], [], e)
  }

  /** true, false, null. */
  function IdentKind(name: seq<Byte>): Kind {
    if name == [0x74, 0x72, 0x75, 0x65] || name == [0x66, 0x61, 0x6C, 0x73, 0x65] then Bool
    else if name == [0x6E, 0x75, 0x6C, 0x6C] then Null
    else Ident
  }

  function IdentToken(s: seq<Byte>): Token {
    var e := Run(IdentParts, s, 0);
    Token(IdentKind(s[..e]), s[..e], [], e)
  }

  // ---- Numbers ----

  /** A number of e bytes and the precision after it, if p and a digit follow. */
  function WithPrecision(kind: Kind, s: seq<Byte>, e: nat): Token
    requires e <= |s|
  {
    if At(s, e) == LETTER_P && IsDigit(At(s, e + 1)) then
      var f := Run(Digits, s, e + 1);
      Token(kind, s[..e], s[e + 1..f], f)
    else Token(kind, s[..e], [], e)
  }

  predicate IsExponent(c: int) { c == 0x65 || c == 0x45 }

  function ExponentEnd(s: seq<Byte>, i: nat): (e: nat)
    requires i <= |s|
    ensures i <= e <= |s|
  {
    if IsExponent(At(s, i)) then
      Run(Digits, s, if At(s, i + 1) == PLUS || At(s, i + 1) == MINUS then i + 2 else i + 1)
    else i
  }

  /** A fraction, or a bare dot, and an exponent. */
  function FloatEnd(s: seq<Byte>, i: nat): (e: nat)
    requires i <= |s|
    ensures i <= e <= |s|
  {
    ExponentEnd(s, if At(s, i) == DOT then Run(Digits, s, i + 1) else i)
  }

  /** Where a timestamp stops. */
  predicate TimeStops(s: seq<Byte>, i: nat) {
    i >= |s| || EndsRun(s[i]) || (s[i] == SLASH && (At(s, i + 1) == SLASH || At(s, i + 1) == STAR))
  }

  function TimeEnd(s: seq<Byte>, i: nat): (e: nat)
    requires i <= |s|
    ensures i <= e <= |s|
    decreases |s| - i
  {
    if TimeStops(s, i) then i else TimeEnd(s, i + 1)
  }

  function TimestampToken(rules: Rules, s: seq<Byte>, i: nat): Token
    requires i <= |s|
  {
    var e := TimeEnd(s, i);
    if rules.timestamp(s[..e]) then Token(Timestamp, s[..e], [], e) else Bad(e)
  }

  /** The two bytes of the micro sign. */
  predicate AtMicro(s: seq<Byte>, i: nat) { At(s, i) == 0xC2 && At(s, i + 1) == 0xB5 }

  predicate AtDurationUnit(s: seq<Byte>, i: nat) { IsDurationUnit(At(s, i)) || AtMicro(s, i) }

  /** How many bytes of a duration are at i: 0 where it stops. */
  function DurationStep(s: seq<Byte>, i: nat): (n: nat)
    ensures i + n <= |s| || n == 0
  {
    if IsDigit(At(s, i)) || IsLowerAlpha(At(s, i)) || (At(s, i) == DOT && IsDigit(At(s, i + 1))) then 1
    else if AtMicro(s, i) then 2
    else 0
  }

  function DurationEnd(s: seq<Byte>, i: nat): (e: nat)
    requires i <= |s|
    ensures i <= e <= |s|
    decreases |s| - i
  {
    if DurationStep(s, i) == 0 then i else DurationEnd(s, i + DurationStep(s, i))
  }

  function DurationToken(rules: Rules, s: seq<Byte>, i: nat): Token
    requires i <= |s|
  {
    var e := DurationEnd(s, i);
    if rules.duration(s[..e]) then Token(Duration, s[..e], [], e) else Bad(e)
  }

  /** Past the whole digits: a unit makes a duration, a fraction, exponent or bare dot a float. */
  function AfterDigits(rules: Rules, s: seq<Byte>, e: nat): Token
    requires e <= |s|
  {
    var frac := At(s, e) == DOT && IsDigit(At(s, e + 1));
    var f := if frac then Run(Digits, s, e + 1) else e;
    if AtDurationUnit(s, f) then DurationToken(rules, s, f)
    else if frac || At(s, f) == DOT || IsExponent(At(s, f)) then WithPrecision(Float, s, FloatEnd(s, f))
    else WithPrecision(Int, s, f)
  }

  predicate SignedInf(s: seq<Byte>) {
    |s| >= 4 && s[1..4] == INF && !(|s| > 4 && IsIdentPart(s[4]))
  }

  function NumberToken(rules: Rules, s: seq<Byte>): Token
    requires s != []
  {
    if s[0] == PLUS || s[0] == MINUS then
      if SignedInf(s) then Token(Float, s[..4], [], 4)
      else if s[0] == PLUS || !IsDigit(At(s, 1)) then Bad(1)
      else AfterDigits(rules, s, Run(Digits, s, 1))
    else
      var e := Run(Digits, s, 0);
      if e == 4 && At(s, e) == MINUS then TimestampToken(rules, s, e)
      else AfterDigits(rules, s, e)
  }

  // ---- All ----

  /** { } [ ] ( ) = : , and the newline. */
  function Punctuation(c: Byte): Option<Kind> {
    if c == NEWLINE then Some(Newline)
    else if c == 0x7B then Some(LBrace)
    else if c == 0x7D then Some(RBrace)
    else if c == 0x5B then Some(LBracket)
    else if c == 0x5D then Some(RBracket)
    else if c == 0x28 then Some(LParen)
    else if c == 0x29 then Some(RParen)
    else if c == 0x3D then Some(Equals)
    else if c == 0x3A then Some(Colon)
    else if c == 0x2C then Some(Comma)
    else None
  }

  /** A byte no token starts with: its whole rune, or the byte alone where it is none. */
  function StrayWidth(s: seq<Byte>): nat
    requires s != []
  {
    if s[0] < 0x80 || DecodeRune(s).1 == 0 then 1 else DecodeRune(s).1
  }

  /** The token at the front of s, which no space starts. */
  function Lex(rules: Rules, s: seq<Byte>): (tok: Token) {
    if s == [] then Token(EOF, [], [], 0)
    else
      var c := s[0];
      var p := Punctuation(c);
      if p.Some? then Token(p.value, if c == NEWLINE then [] else [c], [], 1)
      else if c == HASH || (c == SLASH && At(s, 1) == SLASH) then LineComment(s)
      else if c == SLASH && At(s, 1) == STAR then BlockComment(s)
      else if c == QUOTE then
        if At(s, 1) == QUOTE && At(s, 2) == QUOTE then TripleString(rules, s) else StringToken(s)
      else if c == LETTER_B && At(s, 1) == QUOTE then BytesToken(rules, s)
      else if c == AT then Directive(s)
      else if c == MINUS || c == PLUS || IsDigit(c) then NumberToken(rules, s)
      else if IsIdentStart(c) then IdentToken(s)
      else Bad(StrayWidth(s))
  }

  /** The token at or after pos, spaces skipped: where it starts, and it. */
  function NextToken(rules: Rules, input: seq<Byte>, pos: nat): (r: (nat, Token))
    requires pos <= |input|
    ensures pos <= r.0 <= |input|
  {
    var start := Run(Spaces, input, pos);
    (start, Lex(rules, input[start..]))
  }
}
