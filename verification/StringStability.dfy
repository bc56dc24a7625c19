/**
Strings cut by the end of the bytes so far: which are decided, and which more bytes can still change.
 */
module StringStability {
  import opened Options
  import opened Powers
  import opened BigEndian
  import opened StringText
  import opened TokenStability

  // ---- Strings ----

  lemma {:induction false} LeadingHexStable(s: seq<Byte>, n: nat, t: seq<Byte>)
    requires |s| >= n
    ensures LeadingHex(s + t, n) == LeadingHex(s, n)
    decreases n
  {
    hide IsHex;
    if n > 0 {
      assert (s + t)[0] == s[0];
      if IsHex(s[0]) {
        assert (s + t)[1..] == s[1..] + t;
        LeadingHexStable(s[1..], n - 1, t);
      }
    }
  }

  lemma RuneEscapeStable(digits: seq<Byte>, n: nat, t: seq<Byte>)
    requires n <= 8 && |digits| >= n
    ensures RuneEscape(digits + t, n) == RuneEscape(digits, n)
  {
    hide ReadHex, LeadingHex;
    ReadHexStable(digits, n, t);
    LeadingHexStable(digits, n, t);
  }

  /** An escape that is read, or refused with all the bytes it needs, is decided. */
  lemma EscapeStable(s: seq<Byte>, t: seq<Byte>)
    requires EscapeAt(s).Escape? || (EscapeAt(s).size + 4 <= |s| && (s[0] == 0x55 ==> |s| > 8))
    ensures EscapeAt(s + t) == EscapeAt(s)
  {
    hide ReadHex, RuneEscape, EncodeRune;
    assert (s + t)[0] == s[0];
    var digits := s[1..];
    assert (s + t)[1..] == digits + t;
    if s[0] == 0x78 {
      assert |digits| >= 2 by { DigitsThere(digits, 2); }
      ReadHexStable(digits, 2, t);
    } else if 0x30 <= s[0] <= 0x33 {
      assert (s + t)[1] == s[1] && (s + t)[2] == s[2];
    } else if s[0] == 0x75 {
      assert |digits| >= 4 by { RuneDigitsThere(digits, 4); }
      RuneEscapeStable(digits, 4, t);
    } else if s[0] == 0x55 {
      assert |digits| >= 8 by { RuneDigitsThere(digits, 8); }
      RuneEscapeStable(digits, 8, t);
    }
  }

  lemma DigitsThere(digits: seq<Byte>, n: nat)
    ensures ReadHex(digits, n).Some? ==> |digits| >= n
  {
  }

  lemma RuneDigitsThere(digits: seq<Byte>, n: nat)
    requires n <= 8
    ensures RuneEscape(digits, n).Escape? ==> |digits| >= n
  {
  }

  lemma {:induction false} StringStable(s: seq<Byte>, t: seq<Byte>)
    requires StringRest(s).Closed?
    ensures StringRest(s + t) == StringRest(s)
    decreases |s|
  {
    hide EscapeAt;
    assert (s + t)[0] == s[0];
    assert (s + t)[1..] == s[1..] + t;
    if s[0] == QUOTE {
    } else if s[0] == BACKSLASH {
      EscapeStable(s[1..], t);
      var k := 1 + EscapeAt(s[1..]).size;
      assert (s + t)[k..] == s[k..] + t;
      StringStable(s[k..], t);
    } else {
      StringStable(s[1..], t);
    }
  }

  // ---- Strings that fail ----

  /** The digits so far of an eight-digit escape that the bytes end in, at the front of s. */
  function CutDigits(s: seq<Byte>): (r: Option<seq<Byte>>)
    ensures r.Some? ==> |r.value| < 8
    decreases |s|
  {
    if s == [] || s[0] == QUOTE || s[0] == NEWLINE then None
    else if s[0] == BACKSLASH then
      match EscapeAt(s[1..])
      case BadEscape(_) => if 2 <= |s| < 10 && s[1] == 0x55 then Some(s[2..]) else None
      case Escape(_, k) => CutDigits(s[1 + k..])
    else CutDigits(s[1..])
  }

  /** Digits that more digits can make a rune of. */
  predicate Completable(digits: seq<Byte>)
    requires |digits| <= 8
  {
    AllHex(digits) && ValidRune(Num(16, HexVals(digits)) * Pow(16, 8 - |digits|))
  }

  /** The bytes end inside an eight-digit escape of a string, one that can still be read. */
  predicate CutRune(s: seq<Byte>) {
    var d := CutDigits(s);
    d.Some? && Completable(d.value)
  }

  /** Four digits or more decide the range: if no rune starts there, none lies within. */
  lemma NoRuneThere(v: nat, k: nat, w: nat)
    requires 1 <= k <= 4 && w < Pow(16, k) && !ValidRune(v * Pow(16, k))
    ensures !ValidRune(v * Pow(16, k) + w)
  {
    Sixteens();
    if k == 4 {
      assert v * 0x10000 > 0x10FFFF;
    } else if k == 3 {
      assert v * 0x1000 > 0x10FFFF;
    }
  }

  lemma Sixteens()
    ensures Pow(16, 1) == 16 && Pow(16, 2) == 0x100 && Pow(16, 3) == 0x1000 && Pow(16, 4) == 0x10000
  {
    PowAdd(16, 2, 1);
    PowAdd(16, 2, 2);
  }

  lemma HexParts(a: seq<Byte>, b: seq<Byte>)
    requires AllHex(a + b)
    ensures AllHex(a) && AllHex(b) && HexVals(a + b) == HexVals(a) + HexVals(b)
  {
    hide HexVal, IsHex;
    forall i | 0 <= i < |a| ensures IsHex(a[i]) { assert (a + b)[i] == a[i]; }
    forall i | 0 <= i < |b| ensures IsHex(b[i]) { assert (a + b)[|a| + i] == b[i]; }
  }

  lemma HexBelow(s: seq<Byte>)
    requires AllHex(s)
    ensures Num(16, HexVals(s)) < Pow(16, |s|)
  {
    hide Num, Pow;
    NumBound(16, HexVals(s));
  }

  lemma HexSplit(a: seq<Byte>, b: seq<Byte>)
    requires AllHex(a + b)
    ensures AllHex(a) && AllHex(b)
    ensures Num(16, HexVals(a + b)) == Num(16, HexVals(a)) * Pow(16, |b|) + Num(16, HexVals(b))
    ensures Num(16, HexVals(b)) < Pow(16, |b|)
  {
    hide *;
    HexParts(a, b);
    HexBelow(b);
    NumConcat(16, HexVals(a), HexVals(b));
  }

  /** Nothing that follows makes a rune of digits that cannot be completed. */
  lemma CutStaysBad(digits: seq<Byte>, t: seq<Byte>)
    requires 4 <= |digits| < 8 && !Completable(digits)
    ensures RuneEscape(digits + t, 8).BadEscape?
  {
    hide Num, Pow, ValidRune, AllHex, HexVals;
    var s := digits + t;
    if |s| >= 8 {
      var k := 8 - |digits|;
      var rest := t[..k];
      assert s[..8] == digits + rest;
      if AllHex(digits + rest) {
        HexSplit(digits, rest);
        NoRuneThere(Num(16, HexVals(digits)), k, Num(16, HexVals(rest)));
      }
    }
  }

  function Zeros(n: nat): seq<Byte> { seq(n, _ => 0x30) }

  lemma {:induction false} ZerosHex(n: nat)
    ensures AllHex(Zeros(n)) && Num(16, HexVals(Zeros(n))) == 0
  {
    hide Num;
    if n == 0 {
      assert HexVals(Zeros(0)) == [];
      NumEmpty(16);
    } else {
      ZerosHex(n - 1);
      assert HexVals(Zeros(n)) == HexVals(Zeros(n - 1)) + [0];
      NumSnoc(16, HexVals(Zeros(n - 1)), 0);
    }
  }

  /** Zeros complete digits that can be completed. */
  lemma CutReads(digits: seq<Byte>, tail: seq<Byte>)
    requires |digits| < 8 && Completable(digits)
    ensures var r := RuneEscape(digits + Zeros(8 - |digits|) + tail, 8); r.Escape? && r.size == 9
  {
    hide Num, Pow, ValidRune, EncodeRune;
    var zeros := Zeros(8 - |digits|);
    ZerosHex(8 - |digits|);
    assert AllHex(digits + zeros);
    HexSplit(digits, zeros);
    assert (digits + zeros + tail)[..8] == digits + zeros;
  }

  /** A string refused for good: with four bytes more there, and not cut inside an escape that can still be read. */
  lemma {:induction false} FailureStays(s: seq<Byte>, t: seq<Byte>)
    requires StringRest(s).NotClosed? && StringRest(s).size + 4 <= |s| && !CutRune(s)
    ensures StringRest(s + t).NotClosed?
    decreases |s|
  {
    hide EscapeAt, Completable;
    assert (s + t)[0] == s[0];
    assert (s + t)[1..] == s[1..] + t;
    if s[0] == BACKSLASH {
      var e := EscapeAt(s[1..]);
      if e.BadEscape? {
        BadStays(s[1..], t);
      } else {
        EscapeStable(s[1..], t);
        var k := 1 + e.size;
        assert (s + t)[k..] == s[k..] + t;
        FailureStays(s[k..], t);
      }
    } else if s[0] != NEWLINE {
      FailureStays(s[1..], t);
    }
  }

  lemma BadStays(e: seq<Byte>, t: seq<Byte>)
    requires EscapeAt(e).BadEscape? && EscapeAt(e).size + 4 <= |e|
    requires 1 <= |e| < 9 && e[0] == 0x55 ==> !Completable(e[1..])
    ensures EscapeAt(e + t).BadEscape?
  {
    hide RuneEscape, Completable;
    if e[0] == 0x55 && |e| < 9 {
      assert EscapeAt(e) == RuneEscape(e[1..], 8);
      assert (e + t)[0] == 0x55 && (e + t)[1..] == e[1..] + t;
      CutStaysBad(e[1..], t);
    } else {
      EscapeStable(e, t);
    }
  }

  /** And cut inside one that can, it reads: with zeros for the digits that are missing and a quote. */
  lemma {:induction false} CutStringReads(s: seq<Byte>)
    requires CutRune(s)
    ensures var whole := s + (Zeros(8 - |CutDigits(s).value|) + [QUOTE]);
            StringRest(whole).Closed? && StringRest(whole).size == |whole|
    decreases |s|
  {
    hide EscapeAt, Completable, Zeros, StringRest;
    var t := Zeros(8 - |CutDigits(s).value|) + [QUOTE];
    assert (s + t)[0] == s[0];
    assert (s + t)[1..] == s[1..] + t;
    RestStep(s + t);
    if s[0] == BACKSLASH {
      var e := EscapeAt(s[1..]);
      if e.BadEscape? {
        assert s[1..][1..] == s[2..] && s[1..][0] == s[1];
        CutEscapeReads(s[1..]);
        assert [BACKSLASH] + s[1..] + t == s + t;
      } else {
        EscapeStable(s[1..], t);
        var k := 1 + e.size;
        assert (s + t)[k..] == s[k..] + t;
        CutStringReads(s[k..]);
      }
    } else {
      CutStringReads(s[1..]);
    }
  }

  lemma CutEscapeReads(e: seq<Byte>)
    requires 1 <= |e| < 9 && e[0] == 0x55 && Completable(e[1..])
    ensures var t := Zeros(8 - |e[1..]|) + [QUOTE];
            var whole := [BACKSLASH] + e + t;
            StringRest(whole).Closed? && StringRest(whole).size == |whole|
  {
    hide Completable, RuneEscape;
    var digits := e[1..];
    var zeros := Zeros(8 - |digits|);
    CutReads(digits, [QUOTE]);
    var s := [BACKSLASH] + e + (zeros + [QUOTE]);
    assert s[1..][0] == 0x55;
    assert s[1..][1..] == digits + zeros + [QUOTE];
    assert EscapeAt(s[1..]) == RuneEscape(digits + zeros + [QUOTE], 8);
    assert s[10..] == [QUOTE];
    RestStep(s);
    RestStep([QUOTE]);
  }
}
