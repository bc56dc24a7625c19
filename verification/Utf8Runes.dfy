/**
Well-formed UTF-8 is what encoding runes gives, section 3 of RFC 3629: include/protowire/detail/utf8.h with EncodeRune
of src/pxf/lexer.cc.
 */
module Utf8Runes {
  import opened BigEndian
  import opened Utf8
  import opened StringText

  predicate AllRunes(rs: seq<int>) {
    forall i :: 0 <= i < |rs| ==> ValidRune(rs[i])
  }

  function Encoded(rs: seq<int>): seq<Byte>
    requires AllRunes(rs)
  {
    if rs == [] then [] else EncodeRune(rs[0]) + Encoded(rs[1..])
  }

  lemma Wide2(r: int, t: seq<Byte>)
    requires 0x7F < r <= 0x7FF
    ensures DecodeRune(EncodeRune(r) + t) == (r, 2)
  {
    var a, b := 0xC0 + r / 0x40, 0x80 + r % 0x40;
    assert EncodeRune(r) == [a, b] && Join2(a, b) == r;
  }

  lemma Wide3(r: int, t: seq<Byte>)
    requires 0x7FF < r <= 0xFFFF && ValidRune(r)
    ensures DecodeRune(EncodeRune(r) + t) == (r, 3)
  {
    var a, b, c := 0xE0 + r / 0x1000, 0x80 + r / 0x40 % 0x40, 0x80 + r % 0x40;
    assert EncodeRune(r) == [a, b, c] && Join3(a, b, c) == r;
  }

  lemma Pieces4(r: int)
    requires 0xFFFF < r <= 0x10FFFF
    ensures var a, b := 0xF0 + r / 0x40000, 0x80 + r / 0x1000 % 0x40;
            && Join4(a, b, 0x80 + r / 0x40 % 0x40, 0x80 + r % 0x40) == r && 0xF0 <= a <= 0xF4 && 0x80 <= b <= 0xBF
            && (a == 0xF0 ==> b >= 0x90) && (a == 0xF4 ==> b <= 0x8F)
  {
    var top, low := r / 0x1000, r / 0x40;
    assert low == 0x40 * top + low % 0x40 && r == 0x40 * low + r % 0x40;
    assert top == 0x40 * (r / 0x40000) + top % 0x40;
  }

  lemma Wide4(r: int, t: seq<Byte>)
    requires 0xFFFF < r <= 0x10FFFF
    ensures DecodeRune(EncodeRune(r) + t) == (r, 4)
  {
    hide Join4;
    var a, b, c, d := 0xF0 + r / 0x40000, 0x80 + r / 0x1000 % 0x40, 0x80 + r / 0x40 % 0x40, 0x80 + r % 0x40;
    Pieces4(r);
    Decode4(a, b, c, d, t);
  }

  lemma Decode4(a: Byte, b: Byte, c: Byte, d: Byte, t: seq<Byte>)
    requires LeadLength(a) == 4 && SecondByte(a, b) && IsContinuation(c) && IsContinuation(d)
    ensures DecodeRune([a, b, c, d] + t) == (Join4(a, b, c, d), 4)
  {
    hide Join4;
  }

  /** A rune is read back from its encoding, whatever follows. */
  lemma EncodedDecodes(r: int, t: seq<Byte>)
    requires ValidRune(r)
    ensures DecodeRune(EncodeRune(r) + t) == (r, |EncodeRune(r)|)
  {
    if r > 0xFFFF {
      Wide4(r, t);
    } else if r > 0x7FF {
      Wide3(r, t);
    } else if r > 0x7F {
      Wide2(r, t);
    }
  }

  lemma WidthIs(s: seq<Byte>)
    ensures DecodeRune(s).1 == RuneLength(s)
  {
  }

  lemma EncodedFirst(s: seq<Byte>)
    requires DecodeRune(s).1 > 0
    ensures var (r, n) := DecodeRune(s); ValidRune(r) && EncodeRune(r) == s[..n]
  {
    if s[0] >= 0x80 {
      DecodedEncodes(s);
    }
  }

  lemma {:induction false} EncodedValid(rs: seq<int>)
    requires AllRunes(rs)
    ensures ValidUtf8(Encoded(rs))
    decreases |rs|
  {
    hide DecodeRune, RuneLength, EncodeRune;
    if rs != [] {
      var e, t := EncodeRune(rs[0]), Encoded(rs[1..]);
      EncodedDecodes(rs[0], t);
      WidthIs(e + t);
      EncodeSome(rs[0]);
      assert (e + t)[|e|..] == t;
      EncodedValid(rs[1..]);
    }
  }

  lemma EncodeSome(r: int)
    requires ValidRune(r)
    ensures |EncodeRune(r)| > 0
  {
  }

  lemma {:induction false} ValidEncoded(s: seq<Byte>) returns (rs: seq<int>)
    requires ValidUtf8(s)
    ensures AllRunes(rs) && s == Encoded(rs)
    decreases |s|
  {
    hide DecodeRune, RuneLength, EncodeRune;
    if s == [] {
      rs := [];
    } else {
      WidthIs(s);
      EncodedFirst(s);
      var (r, n) := DecodeRune(s);
      var more := ValidEncoded(s[n..]);
      rs := [r] + more;
      assert rs[1..] == more && s == s[..n] + s[n..];
    }
  }

  /** A byte string is well-formed exactly when it is the encoding of some runes. */
  lemma ValidIsEncoded(s: seq<Byte>)
    ensures ValidUtf8(s) <==> exists rs :: AllRunes(rs) && s == Encoded(rs)
  {
    hide ValidUtf8, Encoded, AllRunes;
    if ValidUtf8(s) {
      var rs := ValidEncoded(s);
    }
    if exists rs :: AllRunes(rs) && s == Encoded(rs) {
      var rs :| AllRunes(rs) && s == Encoded(rs);
      EncodedValid(rs);
    }
  }
}
