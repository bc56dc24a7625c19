/**
Well-formed UTF-8, section 4 of RFC 3629: include/protowire/detail/utf8.h.
 */
module Utf8 {
  import opened BigEndian

  /** 10xxxxxx. */
  predicate IsContinuation(b: Byte) {
    0x80 <= b <= 0xBF
  }

  /** How many bytes a character that starts with c takes; 0 for a byte that starts none. */
  function LeadLength(c: Byte): nat {
    if c < 0x80 then 1
    else if 0xC2 <= c <= 0xDF then 2
    else if 0xE0 <= c <= 0xEF then 3
    else if 0xF0 <= c <= 0xF4 then 4
    else 0
  }

  /** What the second byte may be: no overlong form, no surrogate, nothing above U+10FFFF. */
  predicate SecondByte(c: Byte, c1: Byte) {
    && IsContinuation(c1)
    && (c == 0xE0 ==> c1 >= 0xA0) && (c == 0xED ==> c1 <= 0x9F)
    && (c == 0xF0 ==> c1 >= 0x90) && (c == 0xF4 ==> c1 <= 0x8F)
  }

  /** The length of the well-formed character at the front of s; 0 where there is none. */
  function RuneLength(s: seq<Byte>): (n: nat)
    ensures n <= |s| && n <= 4
  {
    if s == [] then 0
    else
      var n := LeadLength(s[0]);
      if n > |s| then 0
      else if n >= 2 && !SecondByte(s[0], s[1]) then 0
      else if n >= 3 && !IsContinuation(s[2]) then 0
      else if n >= 4 && !IsContinuation(s[3]) then 0
      else n
  }

  predicate ValidUtf8(s: seq<Byte>) {
    s == [] || (RuneLength(s) > 0 && ValidUtf8(s[RuneLength(s)..]))
  }

  /** One character on, or a byte that starts none. */
  lemma NextRune(s: seq<Byte>, i: nat)
    requires i < |s|
    ensures var n := RuneLength(s[i..]);
            if n > 0 then ValidUtf8(s[i..]) == ValidUtf8(s[i + n..]) else !ValidUtf8(s[i..])
  {
    assert s[i..][RuneLength(s[i..])..] == s[i + RuneLength(s[i..])..];
  }

  method IsValidUTF8(s: seq<Byte>) returns (valid: bool)
    ensures valid == ValidUtf8(s)
  {
    hide ValidUtf8;
    var i := 0;
    assert s[0..] == s;
    while i < |s|
      invariant 0 <= i <= |s| && ValidUtf8(s) == ValidUtf8(s[i..])
    {
      var c := s[i];
      ghost var at := s[i..];
      NextRune(s, i);
      assert at[0] == c && forall k :: 0 <= k < |at| ==> at[k] == s[i + k];
      if c < 0x80 {
        i := i + 1;
        continue;
      }
      var len;
      var lo, hi := 0x80, 0xBF;
      if 0xC2 <= c <= 0xDF {
        len := 2;
      } else if 0xE0 <= c <= 0xEF {
        len := 3;
        if c == 0xE0 { lo := 0xA0; }
        if c == 0xED { hi := 0x9F; }
      } else if 0xF0 <= c <= 0xF4 {
        len := 4;
        if c == 0xF0 { lo := 0x90; }
        if c == 0xF4 { hi := 0x8F; }
      } else {
        return false;
      }
      if |s| - i < len {
        return false;
      }
      if s[i + 1] < lo || s[i + 1] > hi {
        return false;
      }
      var k := 2;
      while k < len
        invariant 2 <= k <= len
        invariant forall j :: 2 <= j < k ==> IsContinuation(at[j])
      {
        if s[i + k] < 0x80 || s[i + k] > 0xBF {
          assert !IsContinuation(at[k]);
          return false;
        }
        k := k + 1;
      }
      assert RuneLength(at) == len;
      i := i + len;
    }
    assert s[i..] == [];
    NoRunes();
    return true;
  }

  lemma NoRunes()
    ensures ValidUtf8([])
  {
  }

  /** A character depends on its own bytes only, and all but its first continue it. */
  lemma RunePrefix(s: seq<Byte>, n: nat)
    requires RuneLength(s) > 0 && RuneLength(s) <= n <= |s|
    ensures RuneLength(s[..n]) == RuneLength(s)
    ensures forall k :: 0 < k < RuneLength(s) ==> IsContinuation(s[k])
  {
  }

  /** Cut where a character starts, a well-formed string stays well-formed. */
  lemma {:induction false} CutValid(s: seq<Byte>, n: nat)
    requires ValidUtf8(s) && n <= |s| && (n < |s| ==> !IsContinuation(s[n]))
    ensures ValidUtf8(s[..n])
  {
    if n > 0 {
      var k := RuneLength(s);
      if n < k {
        RunePrefix(s, k);
        assert false;
      }
      RunePrefix(s, n);
      assert s[k..][..n - k] == s[..n][k..];
      CutValid(s[k..], n - k);
    }
  }
}
