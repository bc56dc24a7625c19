/**
String literals: src/pxf/lexer.cc, LexString, with EncodeRune; src/detail/go_quote.cc, GoQuote;
src/pxf/encode.cc, EmitString. Quoting any byte string and lexing it gives it back.
 */
module StringText {
  import opened Options
  import opened Powers
  import opened BigEndian
  import opened Utf8

  const QUOTE: Byte := 0x22
  const BACKSLASH: Byte := 0x5C
  const NEWLINE: Byte := 0x0A

  // ---- Runes ----

  predicate ValidRune(r: int) {
    0 <= r <= 0x10FFFF && (r < 0xD800 || r > 0xDFFF)
  }

  /** The UTF-8 encoding of a rune. */
  function EncodeRune(r: nat): (s: seq<Byte>)
    requires r <= 0x10FFFF
  {
    if r <= 0x7F then [r]
    else if r <= 0x7FF then [0xC0 + r / 0x40, 0x80 + r % 0x40]
    else if r <= 0xFFFF then [0xE0 + r / 0x1000, 0x80 + r / 0x40 % 0x40, 0x80 + r % 0x40]
    else [0xF0 + r / 0x40000, 0x80 + r / 0x1000 % 0x40, 0x80 + r / 0x40 % 0x40, 0x80 + r % 0x40]
  }

  /** The bits of a rune's bytes together: a from the first, the others six bits each. */
  function Join2(a: int, b: int): int { (a - 0xC0) * 0x40 + (b - 0x80) }

  function Join3(a: int, b: int, c: int): int { (a - 0xE0) * 0x1000 + (b - 0x80) * 0x40 + (c - 0x80) }

  function Join4(a: int, b: int, c: int, d: int): int {
    (a - 0xF0) * 0x40000 + (b - 0x80) * 0x1000 + (c - 0x80) * 0x40 + (d - 0x80)
  }

  /** The rune at the front of s and its width, 0 where no well-formed one is. */
  function DecodeRune(s: seq<Byte>): (r: (int, nat))
    ensures r.1 <= |s|
  {
    var n := RuneLength(s);
    if n == 0 then (0, 0)
    else if n == 1 then (s[0], 1)
    else if n == 2 then (Join2(s[0], s[1]), 2)
    else if n == 3 then (Join3(s[0], s[1], s[2]), 3)
    else (Join4(s[0], s[1], s[2], s[3]), 4)
  }

  lemma TwoBytes(a: Byte, b: Byte)
    requires LeadLength(a) == 2 && SecondByte(a, b)
    ensures var r := Join2(a, b); 0x80 <= r && ValidRune(r) && EncodeRune(r) == [a, b]
  {
    var r := Join2(a, b);
    assert r / 0x40 == a - 0xC0 && r % 0x40 == b - 0x80;
  }

  lemma ThreeBytes(a: Byte, b: Byte, c: Byte)
    requires LeadLength(a) == 3 && SecondByte(a, b) && IsContinuation(c)
    ensures var r := Join3(a, b, c); 0x800 <= r && ValidRune(r) && EncodeRune(r) == [a, b, c]
  {
    var r := Join3(a, b, c);
    assert r / 0x1000 == a - 0xE0;
    var low := (a - 0xE0) * 0x40 + (b - 0x80);
    assert r / 0x40 == low && r % 0x40 == c - 0x80;
    assert low % 0x40 == b - 0x80;
  }

  lemma FourBytes(a: Byte, b: Byte, c: Byte, d: Byte)
    requires LeadLength(a) == 4 && SecondByte(a, b) && IsContinuation(c) && IsContinuation(d)
    ensures var r := Join4(a, b, c, d); 0x10000 <= r && ValidRune(r) && EncodeRune(r) == [a, b, c, d]
  {
    var r := Join4(a, b, c, d);
    var top := (a - 0xF0) * 0x40 + (b - 0x80);
    var low := top * 0x40 + (c - 0x80);
    assert r / 0x40000 == a - 0xF0;
    assert r / 0x1000 == top && top % 0x40 == b - 0x80;
    assert r / 0x40 == low && r % 0x40 == d - 0x80;
    assert low % 0x40 == c - 0x80;
  }

  /** A rune that is decoded is a valid one, and encodes to the bytes it was decoded from. */
  lemma DecodedEncodes(s: seq<Byte>)
    requires s != [] && s[0] >= 0x80 && DecodeRune(s).1 > 0
    ensures var (r, n) := DecodeRune(s); 0x80 <= r && ValidRune(r) && EncodeRune(r) == s[..n]
  {
    hide EncodeRune, Join2, Join3, Join4, ValidRune;
    var n := RuneLength(s);
    assert n == LeadLength(s[0]);
    if n == 2 {
      TwoBytes(s[0], s[1]);
      assert s[..2] == [s[0], s[1]];
    } else if n == 3 {
      ThreeBytes(s[0], s[1], s[2]);
      assert s[..3] == [s[0], s[1], s[2]];
    } else {
      FourBytes(s[0], s[1], s[2], s[3]);
      assert s[..4] == [s[0], s[1], s[2], s[3]];
    }
  }

  // ---- Hexadecimal ----

  predicate IsHex(c: Byte) {
    0x30 <= c <= 0x39 || 0x61 <= c <= 0x66 || 0x41 <= c <= 0x46
  }

  function HexVal(c: Byte): (v: nat)
    requires IsHex(c)
    ensures v < 16
  {
    if c <= 0x39 then c - 0x30 else if c >= 0x61 then c - 0x61 + 10 else c - 0x41 + 10
  }

  function HexDigit(v: nat): (c: Byte)
    requires v < 16
    ensures IsHex(c) && HexVal(c) == v
  {
    if v < 10 then 0x30 + v else 0x61 + (v - 10)
  }

  predicate AllHex(s: seq<Byte>) {
    forall i :: 0 <= i < |s| ==> IsHex(s[i])
  }

  function HexVals(s: seq<Byte>): (r: seq<nat>)
    requires AllHex(s)
    ensures |r| == |s|
    ensures forall i :: 0 <= i < |s| ==> r[i] == HexVal(s[i])
  {
    seq(|s|, i requires 0 <= i < |s| => HexVal(s[i]))
  }

  /** The first n bytes as hex digits. */
  function ReadHex(s: seq<Byte>, n: nat): Option<nat> {
    if |s| >= n && AllHex(s[..n]) then Some(Num(16, HexVals(s[..n]))) else None
  }

  /** v in n hex digits. */
  function Hex(v: nat, n: nat): (s: seq<Byte>)
    ensures |s| == n && AllHex(s)
    decreases n
  {
    if n == 0 then [] else Hex(v / 16, n - 1) + [HexDigit(v % 16)]
  }

  lemma {:induction false} HexNum(v: nat, n: nat)
    requires v < Pow(16, n)
    ensures Num(16, HexVals(Hex(v, n))) == v
    decreases n
  {
    hide Num;
    if n == 0 {
      NumEmpty(16);
    } else {
      HexNum(v / 16, n - 1);
      var h := Hex(v / 16, n - 1);
      assert HexVals(Hex(v, n)) == HexVals(h) + [v % 16];
      NumSnoc(16, HexVals(h), v % 16);
    }
  }

  lemma HexReads(v: nat, n: nat, tail: seq<Byte>)
    requires v < Pow(16, n)
    ensures ReadHex(Hex(v, n) + tail, n) == Some(v)
  {
    HexNum(v, n);
    assert (Hex(v, n) + tail)[..n] == Hex(v, n);
  }

  lemma HexWidths()
    ensures Pow(16, 2) == 0x100 && Pow(16, 4) == 0x10000 && Pow(16, 8) == 0x1_0000_0000
  {
    PowAdd(16, 2, 2);
    PowAdd(16, 4, 4);
  }

  // ---- Lexing ----

  predicate IsOct(c: Byte) {
    0x30 <= c <= 0x37
  }

  /** What follows a backslash: the bytes it stands for, and how many it takes. */
  datatype Escaped = BadEscape(size: nat) | Escape(bytes: seq<Byte>, size: nat)

  /** How many of the first n bytes are hex digits before one that is not. */
  function LeadingHex(s: seq<Byte>, n: nat): (k: nat)
    ensures k <= n && k <= |s|
    decreases n
  {
    if n == 0 || s == [] || !IsHex(s[0]) then 0 else 1 + LeadingHex(s[1..], n - 1)
  }

  /** \u or \U with n digits: those before a bad one are read, none where too few are left. */
  function RuneEscape(digits: seq<Byte>, n: nat): (r: Escaped)
    requires n <= 8
    ensures 0 < r.size <= 1 + |digits|
  {
    match ReadHex(digits, n)
    case None => BadEscape(if |digits| < n then 1 else 1 + LeadingHex(digits, n))
    case Some(r) => if ValidRune(r) then Escape(EncodeRune(r), 1 + n) else BadEscape(1 + n)
  }

  function EscapeAt(s: seq<Byte>): (r: Escaped)
    ensures r.size <= |s|
    ensures r.Escape? ==> 0 < r.size
  {
    if s == [] then BadEscape(0)
    else
      var c := s[0];
      // " \ ' ? stand for themselves
      if c == QUOTE || c == BACKSLASH || c == 0x27 || c == 0x3F then Escape([c], 1)
      // a b f n r t v
      else if c == 0x61 then Escape([7], 1)
      else if c == 0x62 then Escape([8], 1)
      else if c == 0x66 then Escape([0x0C], 1)
      else if c == 0x6E then Escape([NEWLINE], 1)
      else if c == 0x72 then Escape([0x0D], 1)
      else if c == 0x74 then Escape([9], 1)
      else if c == 0x76 then Escape([0x0B], 1)
      else if c == 0x78 then
        match ReadHex(s[1..], 2)
        case None => BadEscape(1)
        case Some(v) => if v < 0x100 then Escape([v], 3) else BadEscape(1)
      else if 0x30 <= c <= 0x33 then
        if |s| >= 3 && IsOct(s[1]) && IsOct(s[2]) then
          Escape([(c - 0x30) * 64 + (s[1] - 0x30) * 8 + (s[2] - 0x30)], 3)
        else BadEscape(1)
      else if c == 0x75 then RuneEscape(s[1..], 4)
      else if c == 0x55 then RuneEscape(s[1..], 8)
      else BadEscape(1)
  }

  /** A string's value and its bytes up to and with the closing quote, or up to where it fails. */
  datatype Lexed = NotClosed(size: nat) | Closed(value: seq<Byte>, size: nat)

  function Before(b: seq<Byte>, n: nat, r: Lexed): Lexed {
    match r
    case NotClosed(k) => NotClosed(n + k)
    case Closed(v, k) => Closed(b + v, n + k)
  }

  /** The rest of a string, its opening quote read. */
  function StringRest(s: seq<Byte>): (r: Lexed)
    ensures r.size <= |s|
    ensures r.Closed? ==> 0 < r.size
    decreases |s|
  {
    if s == [] then NotClosed(0)
    else if s[0] == QUOTE then Closed([], 1)
    else if s[0] == BACKSLASH then
      match EscapeAt(s[1..])
      case BadEscape(k) => NotClosed(1 + k)
      case Escape(b, k) => Before(b, 1 + k, StringRest(s[1 + k..]))
    else if s[0] == NEWLINE then NotClosed(0)
    else Before([s[0]], 1, StringRest(s[1..]))
  }

  lemma NothingBefore(r: Lexed)
    ensures Before([], 0, r) == r
  {
    if r.Closed? {
      assert [] + r.value == r.value;
    }
  }

  lemma BeforeTwice(a: seq<Byte>, n: nat, b: seq<Byte>, m: nat, r: Lexed)
    ensures Before(a, n, Before(b, m, r)) == Before(a + b, n + m, r)
  {
    if r.Closed? {
      assert a + (b + r.value) == a + b + r.value;
    }
  }

  /** One step of a string. */
  lemma RestStep(s: seq<Byte>)
    requires s != []
    ensures s[0] == QUOTE ==> StringRest(s) == Closed([], 1)
    ensures s[0] == BACKSLASH ==>
              StringRest(s) == match EscapeAt(s[1..])
                case BadEscape(k) => NotClosed(1 + k)
                case Escape(b, k) => Before(b, 1 + k, StringRest(s[1 + k..]))
    ensures s[0] == NEWLINE ==> StringRest(s) == NotClosed(0)
    ensures s[0] != QUOTE && s[0] != BACKSLASH && s[0] != NEWLINE ==>
              StringRest(s) == Before([s[0]], 1, StringRest(s[1..]))
  {
    hide EscapeAt;
  }

  lemma RestEnd(s: seq<Byte>)
    requires s == []
    ensures StringRest(s) == NotClosed(0)
  {
  }

  // ---- Quoting ----

  /** The bytes of a rune, written so that the lexer reads them back. */
  function EscapedRune(r: int, raw: seq<Byte>, isPrint: int -> bool): seq<Byte>
    requires ValidRune(r)
  {
    if r == QUOTE || r == BACKSLASH then [BACKSLASH, r]
    else if isPrint(r) then raw
    else if r == 7 then [BACKSLASH, 0x61]
    else if r == 8 then [BACKSLASH, 0x62]
    else if r == 0x0C then [BACKSLASH, 0x66]
    else if r == NEWLINE then [BACKSLASH, 0x6E]
    else if r == 0x0D then [BACKSLASH, 0x72]
    else if r == 9 then [BACKSLASH, 0x74]
    else if r == 0x0B then [BACKSLASH, 0x76]
    else if r < 0x20 || r == 0x7F then [BACKSLASH, 0x78] + Hex(r, 2)
    else if r < 0x10000 then [BACKSLASH, 0x75] + Hex(r, 4)
    else [BACKSLASH, 0x55] + Hex(r, 8)
  }

  /** The next piece of s: how many bytes it covers, and how they are written. */
  function QuotePiece(s: seq<Byte>, isPrint: int -> bool): (r: (nat, seq<Byte>))
    requires s != []
    ensures 0 < r.0 <= |s|
  {
    if s[0] < 0x80 then (1, EscapedRune(s[0], s[..1], isPrint))
    else
      var (r, n) := DecodeRune(s);
      if n == 0 then (1, [BACKSLASH, 0x78] + Hex(s[0], 2))
      else
        DecodedEncodes(s);
        (n, EscapedRune(r, s[..n], isPrint))
  }

  function QuoteBody(s: seq<Byte>, isPrint: int -> bool): seq<Byte>
    decreases |s|
  {
    if s == [] then []
    else
      var (n, text) := QuotePiece(s, isPrint);
      text + QuoteBody(s[n..], isPrint)
  }

  function Quoted(s: seq<Byte>, isPrint: int -> bool): seq<Byte> {
    [QUOTE] + QuoteBody(s, isPrint) + [QUOTE]
  }

  method GoQuote(s: seq<Byte>, isPrint: int -> bool) returns (out: seq<Byte>)
    ensures out == Quoted(s, isPrint)
  {
    hide EscapedRune, DecodeRune;
    out := [QUOTE];
    var i := 0;
    assert s[0..] == s;
    while i < |s|
      invariant 0 <= i <= |s| && out + QuoteBody(s[i..], isPrint) == [QUOTE] + QuoteBody(s, isPrint)
      decreases |s| - i
    {
      var at := s[i..];
      var (n, text) := QuotePiece(at, isPrint);
      assert at[n..] == s[i + n..];
      assert out + (text + QuoteBody(s[i + n..], isPrint)) == (out + text) + QuoteBody(s[i + n..], isPrint);
      out := out + text;
      i := i + n;
    }
    assert s[i..] == [] && out + [] == out;
    out := out + [QUOTE];
  }

  /** One byte as EmitString writes it. */
  function EmitByte(c: Byte): seq<Byte> {
    if c == QUOTE || c == BACKSLASH then [BACKSLASH, c]
    else if c == NEWLINE then [BACKSLASH, 0x6E]
    else if c == 9 then [BACKSLASH, 0x74]
    else if c == 0x0D then [BACKSLASH, 0x72]
    else if c < 0x20 then [BACKSLASH, 0x78, HexDigit(c / 16), HexDigit(c % 16)]
    else [c]
  }

  function EmitBody(s: seq<Byte>): seq<Byte> {
    if s == [] then [] else EmitByte(s[0]) + EmitBody(s[1..])
  }

  function Emitted(s: seq<Byte>): seq<Byte> {
    [QUOTE] + EmitBody(s) + [QUOTE]
  }

  method EmitString(s: seq<Byte>) returns (out: seq<Byte>)
    ensures out == Emitted(s)
  {
    hide EmitByte;
    out := [QUOTE];
    var i := 0;
    assert s[0..] == s;
    while i < |s|
      invariant 0 <= i <= |s| && out + EmitBody(s[i..]) == [QUOTE] + EmitBody(s)
    {
      var text := EmitByte(s[i]);
      assert s[i..][0] == s[i] && s[i..][1..] == s[i + 1..];
      assert out + (text + EmitBody(s[i + 1..])) == (out + text) + EmitBody(s[i + 1..]);
      out := out + text;
      i := i + 1;
    }
    assert s[i..] == [] && out + [] == out;
    out := out + [QUOTE];
  }
}
