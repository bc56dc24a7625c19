/**
The escapes of a string literal and which of them is written: src/pxf/lexer.cc, LexString; src/detail/go_quote.cc,
GoQuote; src/pxf/encode.cc, EmitString.
 */
module StringForms {
  import opened BigEndian
  import opened StringText
  import opened Utf8Runes

  /** What may follow a backslash: a sign, two hex digits, three octal ones, or a rune in four or eight hex digits. */
  datatype Form =
    | Sign(c: Byte)
    | HexForm(ds: seq<Byte>)
    | Octal(ds: seq<Byte>)
    | Short(ds: seq<Byte>)
    | Long(ds: seq<Byte>)

  /** The signs, four of them for themselves, and what each one stands for. */
  const SIGNS: seq<Byte> := [0x22, 0x5C, 0x27, 0x3F, 0x61, 0x62, 0x66, 0x6E, 0x72, 0x74, 0x76]
  const MEANT: seq<Byte> := [0x22, 0x5C, 0x27, 0x3F, 0x07, 0x08, 0x0C, 0x0A, 0x0D, 0x09, 0x0B]

  predicate AllOct(s: seq<Byte>) {
    forall i :: 0 <= i < |s| ==> IsOct(s[i])
  }

  function OctVals(s: seq<Byte>): seq<nat>
    requires AllOct(s)
  {
    seq(|s|, i requires 0 <= i < |s| => s[i] - 0x30)
  }

  /** The number the digits make. */
  function Number(f: Form): nat
    requires !f.Sign? && if f.Octal? then AllOct(f.ds) else AllHex(f.ds)
  {
    if f.Octal? then Num(8, OctVals(f.ds)) else Num(16, HexVals(f.ds))
  }

  predicate Good(f: Form) {
    match f
    case Sign(c) => c in SIGNS
    case HexForm(ds) => |ds| == 2 && AllHex(ds)
    case Octal(ds) => |ds| == 3 && AllOct(ds) && Number(f) < 0x100
    case Short(ds) => |ds| == 4 && AllHex(ds) && ValidRune(Number(f))
    case Long(ds) => |ds| == 8 && AllHex(ds) && ValidRune(Number(f))
  }

  function Text(f: Form): seq<Byte> {
    match f
    case Sign(c) => [c]
    case HexForm(ds) => [0x78] + ds
    case Octal(ds) => ds
    case Short(ds) => [0x75] + ds
    case Long(ds) => [0x55] + ds
  }

  ghost predicate Means(f: Form, b: seq<Byte>)
    requires Good(f)
  {
    match f
    case Sign(c) => exists i :: 0 <= i < |SIGNS| && SIGNS[i] == c && b == [MEANT[i]]
    case HexForm(_) => |b| == 1 && b[0] == Number(f)
    case Octal(_) => |b| == 1 && b[0] == Number(f)
    case Short(_) => b == EncodeRune(Number(f))
    case Long(_) => b == EncodeRune(Number(f))
  }

  // ---- Reading ----

  lemma SignIs(s: seq<Byte>, i: nat)
    requires s != [] && i < |SIGNS| && SIGNS[i] == s[0]
    ensures EscapeAt(s) == Escape([MEANT[i]], 1)
  {
  }

  lemma OctNumber(a: Byte, b: Byte, c: Byte)
    requires IsOct(a) && IsOct(b) && IsOct(c)
    ensures Num(8, OctVals([a, b, c])) == (a - 0x30) * 64 + (b - 0x30) * 8 + (c - 0x30)
  {
    hide Num;
    var x, y, z := a - 0x30, b - 0x30, c - 0x30;
    assert OctVals([a, b, c]) == [] + [x] + [y] + [z];
    NumEmpty(8);
    NumSnoc(8, [], x);
    NumSnoc(8, [] + [x], y);
    NumSnoc(8, [] + [x] + [y], z);
  }

  lemma HexByteFits(ds: seq<Byte>)
    requires |ds| == 2 && AllHex(ds)
    ensures Num(16, HexVals(ds)) < 0x100
  {
    hide Num;
    assert HexVals(ds) == [] + [HexVal(ds[0])] + [HexVal(ds[1])];
    NumEmpty(16);
    NumSnoc(16, [], HexVal(ds[0]));
    NumSnoc(16, [] + [HexVal(ds[0])], HexVal(ds[1]));
  }

  /** An escape of the grammar stands for what it means, whatever follows. */
  lemma FormReads(f: Form, b: seq<Byte>, t: seq<Byte>)
    requires Good(f) && Means(f, b)
    ensures EscapeAt(Text(f) + t) == Escape(b, |Text(f)|)
  {
    hide Num, EncodeRune, ValidRune;
    var s := Text(f) + t;
    match f {
      case Sign(c) =>
        var i :| 0 <= i < |SIGNS| && SIGNS[i] == c && b == [MEANT[i]];
        SignIs(s, i);
      case HexForm(ds) =>
        assert s[1..][..2] == ds;
        HexByteFits(ds);
      case Octal(ds) =>
        assert ds == [ds[0], ds[1], ds[2]];
        OctNumber(ds[0], ds[1], ds[2]);
      case Short(ds) =>
        assert s[1..][..4] == ds;
      case Long(ds) =>
        assert s[1..][..8] == ds;
    }
  }

  /** And nothing else is an escape. */
  lemma EscapeIsForm(s: seq<Byte>) returns (f: Form)
    requires EscapeAt(s).Escape?
    ensures Good(f) && Text(f) <= s && |Text(f)| == EscapeAt(s).size && Means(f, EscapeAt(s).bytes)
  {
    hide Num, EncodeRune, ValidRune;
    var c := s[0];
    if c in SIGNS {
      var i :| 0 <= i < |SIGNS| && SIGNS[i] == c;
      SignIs(s, i);
      f := Sign(c);
    } else if c == 0x78 {
      f := HexForm(s[1..][..2]);
      HexByteFits(f.ds);
    } else if c == 0x75 {
      f := Short(s[1..][..4]);
    } else if c == 0x55 {
      f := Long(s[1..][..8]);
    } else {
      OctNumber(s[0], s[1], s[2]);
      f := Octal([s[0], s[1], s[2]]);
    }
  }

  // ---- Writing ----

  /** As Go's table has them, the printable ASCII characters are in it. */
  ghost predicate AsciiPrints(isPrint: int -> bool) {
    forall r :: 0x20 <= r < 0x7F ==> isPrint(r)
  }

  lemma ShortFits(ds: seq<Byte>)
    requires |ds| == 4 && AllHex(ds)
    ensures Num(16, HexVals(ds)) < 0x10000
  {
    hide Num;
    HexWidths();
    NumBound(16, HexVals(ds));
  }

  lemma OneRune(q: int, r: int)
    requires ValidRune(q) && ValidRune(r) && EncodeRune(q) == EncodeRune(r)
    ensures q == r
  {
    hide EncodeRune, DecodeRune;
    EncodedDecodes(q, []);
    EncodedDecodes(r, []);
  }

  lemma OneByteRune(r: int)
    requires ValidRune(r)
    ensures |EncodeRune(r)| == 1 ==> r < 0x80 && EncodeRune(r) == [r]
  {
  }

  /** No escape that stands for a rune is shorter than the one written. */
  lemma WrittenShortest(r: int, isPrint: int -> bool, f: Form)
    requires ValidRune(r) && AsciiPrints(isPrint) && (!isPrint(r) || r == QUOTE || r == BACKSLASH)
    requires Good(f) && Means(f, EncodeRune(r))
    ensures |EscapedRune(r, EncodeRune(r), isPrint)| <= 1 + |Text(f)|
  {
    hide Num, EncodeRune, Hex;
    OneByteRune(r);
    match f {
      case Sign(c) =>
      case HexForm(_) =>
      case Octal(_) =>
      case Short(ds) =>
        ShortFits(ds);
        OneRune(Number(f), r);
      case Long(_) =>
    }
  }

  /** Runes are written one after another: the printable as they are, the others and quotes escaped. */
  function Written(rs: seq<int>, isPrint: int -> bool): seq<Byte>
    requires AllRunes(rs)
  {
    if rs == [] then [] else EscapedRune(rs[0], EncodeRune(rs[0]), isPrint) + Written(rs[1..], isPrint)
  }

  lemma {:induction false} RunesWritten(rs: seq<int>, isPrint: int -> bool)
    requires AllRunes(rs)
    ensures QuoteBody(Encoded(rs), isPrint) == Written(rs, isPrint)
    decreases |rs|
  {
    hide EscapedRune, DecodeRune, EncodeRune;
    if rs != [] {
      var e, t := EncodeRune(rs[0]), Encoded(rs[1..]);
      EncodedDecodes(rs[0], t);
      EncodeSome(rs[0]);
      FirstByte(rs[0]);
      assert (e + t)[..|e|] == e && (e + t)[|e|..] == t && (e + t)[0] == e[0];
      RunesWritten(rs[1..], isPrint);
    }
  }

  lemma FirstByte(r: int)
    requires ValidRune(r)
    ensures EncodeRune(r) != [] && (EncodeRune(r)[0] < 0x80 ==> EncodeRune(r) == [r])
  {
  }

  ghost predicate PlainRunes(rs: seq<int>, isPrint: int -> bool) {
    forall i :: 0 <= i < |rs| ==> isPrint(rs[i]) && rs[i] != QUOTE && rs[i] != BACKSLASH
  }

  /** Printable text without quotes and backslashes is written as it is. */
  lemma {:induction false} PlainStays(rs: seq<int>, isPrint: int -> bool)
    requires AllRunes(rs) && PlainRunes(rs, isPrint)
    ensures Written(rs, isPrint) == Encoded(rs)
    decreases |rs|
  {
    hide EncodeRune, Hex;
    if rs != [] {
      assert PlainRunes(rs[1..], isPrint);
      PlainStays(rs[1..], isPrint);
    }
  }

  lemma QuotedAsIs(rs: seq<int>, isPrint: int -> bool)
    requires AllRunes(rs) && PlainRunes(rs, isPrint)
    ensures Quoted(Encoded(rs), isPrint) == [QUOTE] + Encoded(rs) + [QUOTE]
  {
    hide QuoteBody, Encoded, Written, PlainRunes;
    RunesWritten(rs, isPrint);
    PlainStays(rs, isPrint);
  }

  /** EmitString leaves every byte from the space up as it is, but for quotes and backslashes, and no other. */
  lemma {:induction false} EmittedAsIs(s: seq<Byte>)
    ensures Emitted(s) == [QUOTE] + s + [QUOTE] <==>
            forall i :: 0 <= i < |s| ==> s[i] >= 0x20 && s[i] != QUOTE && s[i] != BACKSLASH
    decreases |s|
  {
    hide EmitByte;
    EmitBodyAsIs(s);
    if Emitted(s) == [QUOTE] + s + [QUOTE] {
      assert ([QUOTE] + s + [QUOTE])[1..1 + |s|] == s;
      assert |EmitBody(s)| == |s| && Emitted(s)[1..1 + |s|] == EmitBody(s);
    }
  }

  lemma {:induction false} EmitBodyAsIs(s: seq<Byte>)
    ensures |EmitBody(s)| >= |s|
    ensures |EmitBody(s)| == |s| ==> EmitBody(s) == s
    ensures |EmitBody(s)| == |s| <==> forall i :: 0 <= i < |s| ==> s[i] >= 0x20 && s[i] != QUOTE && s[i] != BACKSLASH
    decreases |s|
  {
    if s != [] {
      EmitBodyAsIs(s[1..]);
      assert s == [s[0]] + s[1..];
      forall i | 0 < i < |s| ensures s[i] == s[1..][i - 1] {
      }
    }
  }
}
