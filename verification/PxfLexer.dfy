/**
The lexer: src/pxf/lexer.cc, outside the tolerant mode. Each method is proved against the token that
Tokens gives for the bytes at its position.
 */
module PxfLexer {
  import opened Options
  import opened BigEndian
  import opened StringText
  import opened Tokens

  // ---- Positions in the input and in what is left of it ----

  lemma {:induction false} RunShift(k: Class, s: seq<Byte>, start: nat, i: nat)
    requires start <= |s| && i <= |s| - start
    ensures Run(k, s[start..], i) == Run(k, s, start + i) - start
    decreases |s| - start - i
  {
    hide In;
    if start + i < |s| {
      assert s[start..][i] == s[start + i];
      if In(k, s[start + i]) {
        RunShift(k, s, start, i + 1);
      }
    }
  }

  lemma AtShift(s: seq<Byte>, start: nat, i: nat)
    requires start <= |s|
    ensures At(s[start..], i) == At(s, start + i)
  {
  }

  lemma {:induction false} LeadingHexStep(d: seq<Byte>, n: nat, i: nat)
    requires i < n <= |d| && AllHex(d[..i])
    ensures IsHex(d[i]) ==> AllHex(d[..i + 1])
    ensures !IsHex(d[i]) ==> LeadingHex(d, n) == i && !AllHex(d[..n])
  {
    if !IsHex(d[i]) {
      assert d[..n][i] == d[i];
      LeadingHexIs(d, n, i);
    }
  }

  lemma {:induction false} LeadingHexIs(d: seq<Byte>, n: nat, i: nat)
    requires i < n <= |d| && AllHex(d[..i]) && !IsHex(d[i])
    ensures LeadingHex(d, n) == i
    decreases i
  {
    hide IsHex;
    if i > 0 {
      assert IsHex(d[0]) by { assert d[..i][0] == d[0]; }
      assert d[1..][..i - 1] == d[..i][1..];
      assert d[1..][i - 1] == d[i];
      LeadingHexIs(d[1..], n - 1, i - 1);
    }
  }

  lemma NextDigit(d: seq<Byte>, i: nat)
    requires i < |d| && AllHex(d[..i + 1])
    ensures AllHex(d[..i]) && IsHex(d[i])
    ensures Num(16, HexVals(d[..i + 1])) == Num(16, HexVals(d[..i])) * 16 + HexVal(d[i])
  {
    hide Num, HexVal;
    assert d[..i + 1] == d[..i] + [d[i]];
    assert IsHex(d[i]) by { assert d[..i + 1][i] == d[i]; }
    forall k | 0 <= k < i ensures IsHex(d[..i][k]) { assert d[..i][k] == d[..i + 1][k]; }
    assert HexVals(d[..i + 1]) == HexVals(d[..i]) + [HexVal(d[i])];
    NumSnoc(16, HexVals(d[..i]), HexVal(d[i]));
  }

  /** Three bytes are three quotes, or the search goes on after the first. */
  lemma FindNext(s: seq<Byte>, i: nat, a: Byte, b: Byte, c: Byte)
    requires i + 3 <= |s| && s[i] == a && s[i + 1] == b && s[i + 2] == c
    ensures Find(TRIPLE, s, i)
            == if a == QUOTE && b == QUOTE && c == QUOTE then Some(i) else Find(TRIPLE, s, i + 1)
  {
    assert s[i..i + 3] == [a, b, c];
  }

  /** So with the two bytes that end a comment. */
  lemma FindEnd(s: seq<Byte>, i: nat, a: Byte, b: Byte)
    requires i + 2 <= |s| && s[i] == a && s[i + 1] == b
    ensures Find(COMMENT_END, s, i) == if a == STAR && b == SLASH then Some(i) else Find(COMMENT_END, s, i + 1)
  {
    assert s[i..i + 2] == [a, b];
  }

  lemma FindNone(pat: seq<Byte>, s: seq<Byte>, i: nat)
    requires pat != [] && i + |pat| > |s|
    ensures Find(pat, s, i) == None
  {
  }

  // ---- Slices of slices ----

  lemma RestOf(s: seq<Byte>, i: nat, k: nat)
    requires i + k <= |s|
    ensures s[i..][k..] == s[i + k..]
  {
  }

  lemma SliceOf(s: seq<Byte>, i: nat, j: nat, k: nat)
    requires i + j <= i + k <= |s|
    ensures s[i..][j..k] == s[i + j..i + k]
  {
  }

  lemma OneMore(s: seq<Byte>, i: nat, j: nat)
    requires i <= j < |s|
    ensures s[i..j] + [s[j]] == s[i..j + 1]
  {
  }

  // ---- Strings ----

  /** The string that opens at start holds value up to pos. */
  ghost predicate StringSoFar(input: seq<Byte>, start: nat, pos: nat, value: seq<Byte>) {
    && start < pos <= |input|
    && StringRest(input[start..][1..]) == Before(value, pos - start - 1, StringRest(input[pos..]))
  }

  lemma StringStarts(input: seq<Byte>, start: nat)
    requires start < |input|
    ensures StringSoFar(input, start, start + 1, [])
  {
    hide StringRest;
    RestOf(input, start, 1);
    NothingBefore(StringRest(input[start + 1..]));
  }

  lemma StringCloses(input: seq<Byte>, start: nat, pos: nat, value: seq<Byte>)
    requires StringSoFar(input, start, pos, value) && pos < |input| && input[pos] == QUOTE
    ensures StringToken(input[start..]) == Token(Str, value, [], pos + 1 - start)
  {
    hide StringRest, EscapeAt;
    RestStep(input[pos..]);
    assert value + [] == value;
  }

  lemma StringStops(input: seq<Byte>, start: nat, pos: nat, value: seq<Byte>)
    requires StringSoFar(input, start, pos, value) && (pos < |input| ==> input[pos] == NEWLINE)
    ensures StringToken(input[start..]) == Bad(pos - start)
  {
    hide StringRest, EscapeAt;
    if pos < |input| {
      RestStep(input[pos..]);
    } else {
      RestEnd(input[pos..]);
    }
  }

  lemma StringGoesOn(input: seq<Byte>, start: nat, pos: nat, value: seq<Byte>)
    requires StringSoFar(input, start, pos, value) && pos < |input|
    requires input[pos] != QUOTE && input[pos] != BACKSLASH && input[pos] != NEWLINE
    ensures StringSoFar(input, start, pos + 1, value + [input[pos]])
  {
    hide StringRest, EscapeAt, Before;
    RestStep(input[pos..]);
    RestOf(input, pos, 1);
    BeforeTwice(value, pos - start - 1, [input[pos]], 1, StringRest(input[pos + 1..]));
  }

  lemma EscapeFails(input: seq<Byte>, start: nat, from: nat, value: seq<Byte>, k: nat)
    requires from > 0 && StringSoFar(input, start, from - 1, value) && from <= |input| && input[from - 1] == BACKSLASH
    requires EscapeAt(input[from..]) == BadEscape(k)
    ensures StringToken(input[start..]) == Bad(from + k - start)
  {
    hide StringRest, EscapeAt;
    RestStep(input[from - 1..]);
    RestOf(input, from - 1, 1);
  }

  lemma EscapeGoesOn(input: seq<Byte>, start: nat, from: nat, value: seq<Byte>, bytes: seq<Byte>, k: nat)
    requires from > 0 && StringSoFar(input, start, from - 1, value) && from + k <= |input|
    requires input[from - 1] == BACKSLASH
    requires EscapeAt(input[from..]) == Escape(bytes, k)
    ensures StringSoFar(input, start, from + k, value + bytes)
  {
    hide StringRest, EscapeAt, Before;
    RestStep(input[from - 1..]);
    RestOf(input, from - 1, 1);
    RestOf(input, from - 1, 1 + k);
    BeforeTwice(value, from - 1 - start - 1, bytes, 1 + k, StringRest(input[from + k..]));
  }

  // ---- Precisions and durations ----

  lemma InsideAt(s: seq<Byte>, i: nat)
    requires At(s, i) == LETTER_P
    ensures i < |s|
  {
  }

  lemma PrecisionIs(kind: Kind, input: seq<Byte>, start: nat, pos: nat)
    requires start <= pos <= |input|
    ensures At(input, pos) == LETTER_P && IsDigit(At(input, pos + 1)) ==>
              && pos < |input|
              && var f := Run(Digits, input, pos + 1);
                 WithPrecision(kind, input[start..], pos - start)
                 == Token(kind, input[start..pos], input[pos + 1..f], f - start)
    ensures !(At(input, pos) == LETTER_P && IsDigit(At(input, pos + 1))) ==>
              WithPrecision(kind, input[start..], pos - start) == Token(kind, input[start..pos], [], pos - start)
  {
    hide Run, IsDigit, At;
    var s, e := input[start..], pos - start;
    AtShift(input, start, e);
    AtShift(input, start, e + 1);
    SliceOf(input, start, 0, e);
    assert s[..e] == s[0..e];
    if At(input, pos) == LETTER_P && IsDigit(At(input, pos + 1)) {
      InsideAt(input, pos);
      RunShift(Digits, input, start, e + 1);
      SliceOf(input, start, e + 1, Run(Digits, input, pos + 1) - start);
    }
  }

  /** What the bytes of a duration say about how it goes on. */
  lemma DurationNext(input: seq<Byte>, start: nat, pos: nat)
    requires start <= pos <= |input|
    ensures var s, i := input[start..], pos - start;
            if pos == |input| then DurationEnd(s, i) == i
            else
              var c, d := At(input, pos), At(input, pos + 1);
              if IsDigit(c) || IsLowerAlpha(c) || (c == DOT && IsDigit(d))
              then DurationEnd(s, i) == DurationEnd(s, i + 1)
              else if c == 0xC2 && d == 0xB5 then i + 2 <= |s| && DurationEnd(s, i) == DurationEnd(s, i + 2)
              else DurationEnd(s, i) == i
  {
    var i := pos - start;
    AtShift(input, start, i);
    AtShift(input, start, i + 1);
  }

  class Lexer {
    const input: seq<Byte>
    const rules: Rules
    var pos: nat

    ghost predicate Valid()
      reads this
    {
      pos <= |input|
    }

    constructor (input: seq<Byte>, rules: Rules)
      ensures Valid() && this.input == input && this.rules == rules && pos == 0
    {
      this.input := input;
      this.rules := rules;
      pos := 0;
    }

    function Peek(k: nat): int
      reads this
    {
      At(input, pos + k)
    }

    /** Past the bytes of a class. */
    method Skip(k: Class)
      requires Valid()
      modifies this
      ensures Valid() && pos == Run(k, input, old(pos))
    {
      while pos < |input| && In(k, input[pos])
        invariant Valid() && Run(k, input, pos) == Run(k, input, old(pos))
        decreases |input| - pos
      {
        pos := pos + 1;
      }
    }

    method LexLineComment() returns (tok: Token)
      requires Valid()
      modifies this
      ensures Valid() && tok == LineComment(input[old(pos)..]) && pos == old(pos) + tok.size
    {
      var start := pos;
      RunShift(InLine, input, start, 0);
      Skip(InLine);
      tok := Token(Comment, input[start..pos], [], pos - start);
      assert input[start..][..pos - start] == input[start..pos];
    }

    method LexBlockComment() returns (tok: Token)
      requires Valid() && pos + 2 <= |input|
      modifies this
      ensures Valid() && tok == BlockComment(input[old(pos)..]) && pos == old(pos) + tok.size
    {
      hide Find;
      var start := pos;
      ghost var s := input[start..];
      pos := pos + 2;
      while pos + 1 < |input|
        invariant start + 2 <= pos <= |input|
        invariant pos == start + 2 || pos + 1 <= |input|
        invariant Find(COMMENT_END, s, pos - start) == Find(COMMENT_END, s, 2)
      {
        FindEnd(s, pos - start, input[pos], input[pos + 1]);
        if input[pos] == STAR && input[pos + 1] == SLASH {
          pos := pos + 2;
          tok := Token(Comment, input[start..pos], [], pos - start);
          assert s[..pos - start] == input[start..pos];
          return;
        }
        pos := pos + 1;
      }
      FindNone(COMMENT_END, s, pos - start);
      tok := Bad(pos - start);
    }

    /** Reads n hex digits; on failure the position has passed the good ones. */
    method ReadHexRune(n: nat) returns (ok: bool, r: nat)
      requires Valid() && n <= 8
      modifies this
      ensures Valid() && old(pos) <= pos
      ensures var d := input[old(pos)..];
              if ok then ReadHex(d, n) == Some(r) && pos == old(pos) + n
              else ReadHex(d, n) == None && pos == old(pos) + (if |d| < n then 0 else LeadingHex(d, n))
    {
      hide Num, LeadingHex, IsHex, HexVal;
      ghost var d := input[pos..];
      ok, r := false, 0;
      if pos + n > |input| {
        return;
      }
      var i := 0;
      NumEmpty(16);
      assert HexVals(d[..0]) == [];
      while i < n
        invariant 0 <= i <= n && pos == old(pos) + i && n <= |d|
        invariant AllHex(d[..i]) && r == Num(16, HexVals(d[..i]))
      {
        var c := input[pos];
        assert d[i] == c;
        LeadingHexStep(d, n, i);
        if !IsHex(c) {
          return;
        }
        NextDigit(d, i);
        r := r * 16 + HexVal(c);
        pos := pos + 1;
        i := i + 1;
      }
      ok := true;
    }

    method ReadHexByte() returns (ok: bool, b: Byte)
      requires Valid()
      modifies this
      ensures Valid() && old(pos) <= pos
      ensures var d := input[old(pos)..];
              if ok then ReadHex(d, 2) == Some(b as int) && pos == old(pos) + 2
              else ReadHex(d, 2) == None && pos == old(pos)
    {
      hide Num, IsHex, HexVal;
      ok, b := false, 0;
      if pos + 1 >= |input| {
        return;
      }
      var hi, lo := input[pos], input[pos + 1];
      ghost var d := input[pos..];
      assert d[..2] == [hi, lo];
      assert d[..2][0] == hi && d[..2][1] == lo;
      if !IsHex(hi) || !IsHex(lo) {
        return;
      }
      pos := pos + 2;
      ok, b := true, HexVal(hi) * 16 + HexVal(lo);
      TwoDigits(d);
    }

    method ReadOctRest(first: Byte) returns (ok: bool, b: Byte)
      requires Valid() && 0x30 <= first <= 0x33
      modifies this
      ensures Valid() && old(pos) <= pos
      ensures ok == (old(pos) + 2 <= |input| && IsOct(input[old(pos)]) && IsOct(input[old(pos) + 1]))
      ensures if ok then
                pos == old(pos) + 2
                && b == (first - 0x30) * 64 + (input[old(pos)] - 0x30) * 8 + (input[old(pos) + 1] - 0x30)
              else pos == old(pos)
    {
      ok, b := false, 0;
      if pos + 1 >= |input| {
        return;
      }
      var d1, d2 := input[pos], input[pos + 1];
      if !IsOct(d1) || !IsOct(d2) {
        return;
      }
      pos := pos + 2;
      ok, b := true, (first - 0x30) * 64 + (d1 - 0x30) * 8 + (d2 - 0x30);
    }

    /** The escape after a backslash. */
    method LexEscape() returns (ok: bool, bytes: seq<Byte>)
      requires Valid()
      modifies this
      ensures Valid() && old(pos) <= pos
      ensures EscapeAt(input[old(pos)..])
              == if ok then Escape(bytes, pos - old(pos)) else BadEscape(pos - old(pos))
    {
      hide ReadHex, LeadingHex, EncodeRune;
      ok, bytes := false, [];
      if pos >= |input| {
        return;
      }
      ghost var s := input[pos..];
      var esc := input[pos];
      pos := pos + 1;
      assert s[0] == esc && s[1..] == input[pos..];
      if esc == QUOTE || esc == BACKSLASH || esc == 0x27 || esc == 0x3F {
        ok, bytes := true, [esc];
      } else if esc == 0x61 {
        ok, bytes := true, [7];
      } else if esc == 0x62 {
        ok, bytes := true, [8];
      } else if esc == 0x66 {
        ok, bytes := true, [0x0C];
      } else if esc == 0x6E {
        ok, bytes := true, [NEWLINE];
      } else if esc == 0x72 {
        ok, bytes := true, [0x0D];
      } else if esc == 0x74 {
        ok, bytes := true, [9];
      } else if esc == 0x76 {
        ok, bytes := true, [0x0B];
      } else if esc == 0x78 {
        var b;
        ok, b := ReadHexByte();
        if ok {
          bytes := [b];
        }
      } else if 0x30 <= esc <= 0x33 {
        var b;
        ok, b := ReadOctRest(esc);
        if ok {
          bytes := [b];
        }
      } else if esc == 0x75 || esc == 0x55 {
        var r;
        ok, r := ReadHexRune(if esc == 0x75 then 4 else 8);
        if ok {
          if ValidRune(r) {
            bytes := EncodeRune(r);
          } else {
            ok := false;
          }
        }
      }
    }

    method LexString() returns (tok: Token)
      requires Valid() && pos < |input|
      modifies this
      ensures Valid() && tok == StringToken(input[old(pos)..]) && pos == old(pos) + tok.size
    {
      hide EscapeAt, StringToken, StringSoFar;
      var start := pos;
      pos := pos + 1;
      var sb: seq<Byte>, needsStorage := [], false;
      var verbatimStart := pos;
      ghost var value: seq<Byte> := [];
      StringStarts(input, start);
      while pos < |input|
        invariant start + 1 == verbatimStart <= pos <= |input|
        invariant value == if needsStorage then sb else input[verbatimStart..pos]
        invariant StringSoFar(input, start, pos, value)
        decreases |input| - pos
      {
        var c := input[pos];
        if c == QUOTE {
          StringCloses(input, start, pos, value);
          tok := Token(Str, if needsStorage then sb else input[verbatimStart..pos], [], pos + 1 - start);
          pos := pos + 1;
          return;
        }
        if c == BACKSLASH {
          if !needsStorage {
            sb, needsStorage := input[verbatimStart..pos], true;
          }
          pos := pos + 1;
          ghost var from := pos;
          var ok, bytes := LexEscape();
          if !ok {
            EscapeFails(input, start, from, value, pos - from);
            tok := Bad(pos - start);
            return;
          }
          EscapeGoesOn(input, start, from, value, bytes, pos - from);
          sb := sb + bytes;
          value := sb;
          continue;
        }
        if c == NEWLINE {
          StringStops(input, start, pos, value);
          tok := Bad(pos - start);
          return;
        }
        StringGoesOn(input, start, pos, value);
        OneMore(input, verbatimStart, pos);
        value := value + [c];
        if needsStorage {
          sb := sb + [c];
        }
        pos := pos + 1;
      }
      StringStops(input, start, pos, value);
      tok := Bad(pos - start);
    }

    method LexTripleString() returns (tok: Token)
      requires Valid() && pos + 3 <= |input|
      modifies this
      ensures Valid() && tok == TripleString(rules, input[old(pos)..]) && pos == old(pos) + tok.size
    {
      hide Find;
      var at := pos;
      ghost var s := input[at..];
      pos := pos + 3;
      var start := pos;
      while pos + 2 < |input|
        invariant start <= pos <= |input|
        invariant pos == start || pos + 2 <= |input|
        invariant Find(TRIPLE, s, pos - at) == Find(TRIPLE, s, 3)
      {
        FindNext(s, pos - at, input[pos], input[pos + 1], input[pos + 2]);
        if input[pos] == QUOTE && input[pos + 1] == QUOTE && input[pos + 2] == QUOTE {
          var raw := input[start..pos];
          assert raw == s[3..pos - at];
          pos := pos + 3;
          tok := Token(Str, rules.dedent(raw), [], pos - at);
          return;
        }
        pos := pos + 1;
      }
      FindNone(TRIPLE, s, pos - at);
      tok := Bad(pos - at);
    }

    method LexBytes() returns (tok: Token)
      requires Valid() && Peek(0) == LETTER_B && Peek(1) == QUOTE
      modifies this
      ensures Valid() && tok == BytesToken(rules, input[old(pos)..]) && pos == old(pos) + tok.size
    {
      hide TooLong;
      var at := pos;
      ghost var s := input[at..];
      pos := pos + 2;
      var start := pos;
      while pos < |input|
        invariant start <= pos <= |input|
        invariant BytesEnd(rules, s, pos - at) == BytesEnd(rules, s, 2)
      {
        var c := input[pos];
        assert s[pos - at] == c;
        if TooLong(rules, pos - start) {
          tok := Bad(pos - at);
          return;
        }
        if c == QUOTE {
          var raw := input[start..pos];
          assert raw == s[2..pos - at];
          pos := pos + 1;
          tok := if rules.base64(raw) then Token(Bytes, raw, [], pos - at) else Bad(pos - at);
          return;
        }
        if c == NEWLINE {
          tok := Bad(pos - at);
          return;
        }
        pos := pos + 1;
      }
      tok := Bad(pos - at);
    }

    method LexDirective() returns (tok: Token)
      requires Valid() && pos < |input|
      modifies this
      ensures Valid() && tok == Directive(input[old(pos)..]) && pos == old(pos) + tok.size
    {
      hide Run;
      var at := pos;
      pos := pos + 1;
      var start := pos;
      RunShift(IdentParts, input, at, 1);
      Skip(IdentParts);
      var name := input[start..pos];
      ghost var s := input[at..];
      assert s[1..pos - at] == name && s[..pos - at] == input[at..pos];
      if name == [] {
        tok := Bad(1);
        return;
      }
      var kind := DirectiveKind(name);
      tok := Token(kind, if kind == AtDirective then name else input[at..pos], [], pos - at);
    }

    method LexIdent() returns (tok: Token)
      requires Valid()
      modifies this
      ensures Valid() && tok == IdentToken(input[old(pos)..]) && pos == old(pos) + tok.size
    {
      hide Run;
      var start := pos;
      RunShift(IdentParts, input, start, 0);
      Skip(IdentParts);
      var v := input[start..pos];
      assert input[start..][..pos - start] == v;
      tok := Token(IdentKind(v), v, [], pos - start);
    }

    /** The precision after a number of the given kind that started at start, and the token with it. */
    method LexPrecision(kind: Kind, start: nat) returns (tok: Token)
      requires Valid() && start <= pos
      modifies this
      ensures Valid() && tok == WithPrecision(kind, input[start..], old(pos) - start) && pos == start + tok.size
    {
      hide Run, IsDigit, At, WithPrecision;
      var value := input[start..pos];
      PrecisionIs(kind, input, start, pos);
      if Peek(0) != LETTER_P || !IsDigit(Peek(1)) {
        tok := Token(kind, value, [], pos - start);
        return;
      }
      pos := pos + 1;
      var from := pos;
      Skip(Digits);
      tok := Token(kind, value, input[from..pos], pos - start);
    }

    method LexFloat(start: nat) returns (tok: Token)
      requires Valid() && start <= pos
      modifies this
      ensures Valid()
      ensures var s := input[start..]; tok == WithPrecision(Float, s, FloatEnd(s, old(pos) - start))
      ensures pos == start + tok.size
    {
      hide Run, ExponentEnd, WithPrecision;
      AtShift(input, start, pos - start);
      if Peek(0) == DOT {
        pos := pos + 1;
        RunShift(Digits, input, start, pos - start);
        Skip(Digits);
      }
      SkipExponent(start);
      tok := LexPrecision(Float, start);
    }

    method SkipExponent(start: nat)
      requires Valid() && start <= pos
      modifies this
      ensures Valid() && pos == start + ExponentEnd(input[start..], old(pos) - start)
    {
      hide Run;
      AtShift(input, start, pos - start);
      AtShift(input, start, pos - start + 1);
      if IsExponent(Peek(0)) {
        pos := pos + 1;
        if Peek(0) == PLUS || Peek(0) == MINUS {
          pos := pos + 1;
        }
        RunShift(Digits, input, start, pos - start);
        Skip(Digits);
      }
    }

    method LexTimestamp(start: nat) returns (tok: Token)
      requires Valid() && start <= pos
      modifies this
      ensures Valid() && tok == TimestampToken(rules, input[start..], old(pos) - start) && pos == start + tok.size
    {
      ghost var s := input[start..];
      while pos < |input|
        invariant start <= pos <= |input|
        invariant TimeEnd(s, pos - start) == TimeEnd(s, old(pos) - start)
      {
        var c := Peek(0);
        AtShift(input, start, pos - start);
        AtShift(input, start, pos - start + 1);
        if EndsRun(c) {
          break;
        }
        if c == SLASH && (Peek(1) == SLASH || Peek(1) == STAR) {
          break;
        }
        pos := pos + 1;
      }
      assert TimeEnd(s, pos - start) == pos - start;
      var raw := input[start..pos];
      assert s[..pos - start] == raw;
      tok := if rules.timestamp(raw) then Token(Timestamp, raw, [], pos - start) else Bad(pos - start);
    }

    method LexDuration(start: nat) returns (tok: Token)
      requires Valid() && start <= pos
      modifies this
      ensures Valid() && tok == DurationToken(rules, input[start..], old(pos) - start) && pos == start + tok.size
    {
      hide IsDigit, IsLowerAlpha, DurationEnd;
      ghost var s := input[start..];
      while true
        invariant start <= pos <= |input|
        invariant DurationEnd(s, pos - start) == DurationEnd(s, old(pos) - start)
        decreases |input| - pos
      {
        DurationNext(input, start, pos);
        if pos >= |input| {
          break;
        }
        var c := Peek(0);
        if IsDigit(c) || IsLowerAlpha(c) {
          pos := pos + 1;
        } else if c == DOT && IsDigit(Peek(1)) {
          pos := pos + 1;
        } else if c == 0xC2 && Peek(1) == 0xB5 {
          pos := pos + 2;
        } else {
          break;
        }
      }
      var raw := input[start..pos];
      SliceOf(input, start, 0, pos - start);
      assert s[..pos - start] == s[0..pos - start];
      tok := if rules.duration(raw) then Token(Duration, raw, [], pos - start) else Bad(pos - start);
    }

    method LexNumber() returns (tok: Token)
      requires Valid() && pos < |input| && (input[pos] == MINUS || input[pos] == PLUS || IsDigit(input[pos]))
      modifies this
      ensures Valid() && tok == NumberToken(rules, input[old(pos)..]) && pos == old(pos) + tok.size
    {
      hide Run, TimestampToken, AfterDigits, IsIdentPart, IsDigit;
      var start := pos;
      ghost var s := input[start..];
      AtShift(input, start, 0);
      AtShift(input, start, 1);
      var neg := false;
      var sign := Peek(0);
      if sign == MINUS || sign == PLUS {
        pos := pos + 1;
        if |input| >= pos + 3 {
          assert s[1..4] == input[pos..pos + 3];
        }
        if |input| > pos + 3 {
          assert s[4] == input[pos + 3];
        }
        if |input| >= pos + 3 && input[pos..pos + 3] == INF && !(pos + 3 < |input| && IsIdentPart(input[pos + 3])) {
          pos := pos + 3;
          tok := Token(Float, input[start..pos], [], pos - start);
          assert s[..4] == input[start..pos];
          return;
        }
        if sign == PLUS || !IsDigit(Peek(0)) {
          tok := Bad(1);
          return;
        }
        neg := true;
      }
      var digitStart := pos;
      RunShift(Digits, input, start, pos - start);
      Skip(Digits);
      AtShift(input, start, pos - start);
      if !neg && pos - digitStart == 4 && Peek(0) == MINUS {
        tok := LexTimestamp(start);
      } else {
        tok := LexAfterDigits(start);
      }
    }

    /** What a number is, its whole digits read. */
    method LexAfterDigits(start: nat) returns (tok: Token)
      requires Valid() && start <= pos
      modifies this
      ensures Valid() && tok == AfterDigits(rules, input[start..], old(pos) - start) && pos == start + tok.size
    {
      hide Run, DurationToken, WithPrecision, FloatEnd, IsDigit, IsExponent, IsDurationUnit;
      ghost var s := input[start..];
      AtShift(input, start, pos - start);
      AtShift(input, start, pos - start + 1);
      var frac := false;
      if Peek(0) == DOT && IsDigit(Peek(1)) {
        frac := true;
        pos := pos + 1;
        RunShift(Digits, input, start, pos - start);
        Skip(Digits);
      }
      AtShift(input, start, pos - start);
      AtShift(input, start, pos - start + 1);
      if IsDurationUnit(Peek(0)) || (Peek(0) == 0xC2 && Peek(1) == 0xB5) {
        tok := LexDuration(start);
      } else if frac || Peek(0) == DOT || IsExponent(Peek(0)) {
        tok := LexFloat(start);
      } else {
        tok := LexPrecision(Int, start);
      }
    }

    /** The next token: where it starts, and it. */
    method Next() returns (start: nat, tok: Token)
      requires Valid()
      modifies this
      ensures Valid() && (start, tok) == NextToken(rules, input, old(pos)) && pos == start + tok.size
    {
      hide Run, LineComment, BlockComment, TripleString, StringToken, BytesToken, Directive, NumberToken, IdentToken;
      hide DecodeRune;
      Skip(Spaces);
      start := pos;
      if pos >= |input| {
        tok := Token(EOF, [], [], 0);
        return;
      }
      ghost var s := input[pos..];
      AtShift(input, pos, 1);
      AtShift(input, pos, 2);
      var c := input[pos];
      assert s[0] == c;
      var p := Punctuation(c);
      if p.Some? {
        pos := pos + 1;
        tok := Token(p.value, if c == NEWLINE then [] else [c], [], 1);
      } else if c == HASH || (c == SLASH && Peek(1) == SLASH) {
        tok := LexLineComment();
      } else if c == SLASH && Peek(1) == STAR {
        tok := LexBlockComment();
      } else if c == QUOTE {
        if Peek(1) == QUOTE && Peek(2) == QUOTE {
          tok := LexTripleString();
        } else {
          tok := LexString();
        }
      } else if c == LETTER_B && Peek(1) == QUOTE {
        tok := LexBytes();
      } else if c == AT {
        tok := LexDirective();
      } else if c == MINUS || c == PLUS || IsDigit(c) {
        tok := LexNumber();
      } else if IsIdentStart(c) {
        tok := LexIdent();
      } else {
        var (_, n) := DecodeRune(input[pos..]);
        var width := if c < 0x80 || n == 0 then 1 else n;
        pos := pos + width;
        tok := Bad(width);
      }
    }
  }

  lemma TwoDigits(d: seq<Byte>)
    requires |d| >= 2 && IsHex(d[0]) && IsHex(d[1])
    ensures ReadHex(d, 2) == Some(HexVal(d[0]) * 16 + HexVal(d[1])) && HexVal(d[0]) * 16 + HexVal(d[1]) < 0x100
  {
    hide Num, HexVal;
    assert d[..2] == [d[0], d[1]];
    NumEmpty(16);
    assert HexVals(d[..0]) == [];
    NextDigit(d, 0);
    NextDigit(d, 1);
  }
}
