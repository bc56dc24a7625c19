/**
Which bytes are a frame, said of the bytes: src/pb/stream.cc and src/sbe/stream.cc. One is read exactly where it stands
and is no longer than the decoder's limit.
 */
module FrameForms {
  import opened BigEndian
  import opened Digits
  import opened Wire
  import opened WireFormat
  import opened Framing

  /** A length as a varint of any size that the reader takes: groups too many or not. */
  ghost predicate LengthOf(h: seq<Byte>, n: nat) {
    Continued(h) && |h| <= 10 && (|h| == 10 ==> h[9] <= 1) && Eval(0x80, Groups(h)) == n
  }

  lemma {:induction false} VarintThere(s: seq<Byte>)
    requires ReadVarint(s).Got?
    ensures var n := ReadVarint(s).size; LengthOf(s[..n], ReadVarint(s).value)
  {
    var n := ReadVarint(s).size;
    EndsThere(s, 0);
    var h := s[..n];
    assert h[n - 1] == s[n - 1];
    assert forall i :: 0 <= i < n - 1 ==> h[i] == s[i];
    VarintMeans(h, s[n..]);
    assert h + s[n..] == s;
  }

  lemma {:induction false} EndsThere(s: seq<Byte>, i: nat)
    requires VarintFrom(s, i).Got?
    ensures var n := VarintFrom(s, i).size;
            i < n <= |s| && s[n - 1] < 0x80 && forall j :: i <= j < n - 1 ==> s[j] >= 0x80
    decreases 10 - i
  {
    if s[i] >= 0x80 {
      EndsThere(s, i + 1);
    }
  }

  /** A frame with a length prefix: the length and as many bytes, no more than the limit. */
  lemma PrefixedIs(max: nat, s: seq<Byte>, broken: bool, body: seq<Byte>, size: nat)
    ensures ReadAt(Prefixed, max, s, broken) == Frame(body, size) <==>
            exists h :: LengthOf(h, |body|) && |body| <= max && size == |h| + |body| && h + body <= s
  {
    hide ReadVarint, LengthOf, AllContinue;
    if ReadAt(Prefixed, max, s, broken) == Frame(body, size) {
      VarintThere(s);
      var h := s[..ReadVarint(s).size];
      assert h + body == s[..size];
    }
    if exists h :: LengthOf(h, |body|) && |body| <= max && size == |h| + |body| && h + body <= s {
      var h :| LengthOf(h, |body|) && |body| <= max && size == |h| + |body| && h + body <= s;
      LengthReads(h, |body|, s[|h|..]);
      assert s[..size] == h + body && h + s[|h|..] == s;
      assert s[|h|..size] == body;
    }
  }

  lemma LengthReads(h: seq<Byte>, n: nat, rest: seq<Byte>)
    requires LengthOf(h, n)
    ensures ReadVarint(h + rest) == Got(n, |h|)
  {
    VarintMeans(h, rest);
  }

  lemma SofhThere(s: seq<Byte>)
    requires SofhAt(s).Length?
    ensures SofhAt(s).size == SOFH_HEADER && SOFH_HEADER + SofhAt(s).body < 0x1_0000_0000
    ensures s[..SOFH_HEADER] == SofhHeader(SofhAt(s).body)
  {
    FourBytes(s[0], s[1], s[2], s[3]);
    assert BigEndian32(SofhTotal(s)) == [s[0], s[1], s[2], s[3]];
  }

  lemma FourBytes(a: Byte, b: Byte, c: Byte, d: Byte)
    ensures var v := a as int * 0x100_0000 + b as int * 0x1_0000 + c as int * 0x100 + d as int;
            && 0 <= v < 0x1_0000_0000 && v / 0x100_0000 == a && v / 0x1_0000 % 0x100 == b && v / 0x100 % 0x100 == c
            && v % 0x100 == d
  {
    var x, y: int := a * 0x100 + b, a * 0x1_0000 + b * 0x100 + c;
    var v: int := y * 0x100 + d;
    assert v / 0x100 == y && y / 0x100 == x && v / 0x1_0000 == x && x / 0x100 == a;
  }

  /** A frame of SBE: its header and body as they are written, no more than the limit. */
  lemma SofhIs(max: nat, s: seq<Byte>, broken: bool, body: seq<Byte>, size: nat)
    ensures ReadAt(Sofh, max, s, broken) == Frame(body, size) <==>
            Fits(Sofh, max, body) && size == SOFH_HEADER + |body| && FrameBytes(Sofh, body) <= s
  {
    hide SofhAt, SofhHeader;
    if ReadAt(Sofh, max, s, broken) == Frame(body, size) {
      SofhThere(s);
      assert s[..size] == s[..SOFH_HEADER] + s[SOFH_HEADER..size];
    }
    if Fits(Sofh, max, body) && size == SOFH_HEADER + |body| && FrameBytes(Sofh, body) <= s {
      assert s == FrameBytes(Sofh, body) + s[size..];
      assert s == SofhHeader(|body|) + (body + s[size..]);
      SofhReads(|body|, body + s[size..]);
    }
  }

  /** A frame past the limit is corrupt, whatever there is of it after its header. */
  lemma PastLimit(format: Format, max: nat, body: seq<Byte>, tail: seq<Byte>, broken: bool)
    requires |body| > max && Fits(format, |body|, body)
    ensures ReadAt(format, max, HeaderBytes(format, |body|) + tail, broken) == Corrupt
  {
    hide HeaderAt, HeaderBytes;
    HeaderReads(format, |body|, body, tail);
  }
}
