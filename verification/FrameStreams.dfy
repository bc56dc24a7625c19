/**
The stream encoders and decoders of src/pb/stream.cc and src/sbe/stream.cc, over what Framing says a
frame is. A decoder that failed inside a frame stays failed; one at the end of its stream does not.
 */
module FrameStreams {
  import opened Options
  import opened BigEndian
  import opened Wire
  import opened Framing

  class Encoder {
    const format: Format
    var written: seq<Byte>

    constructor (format: Format)
      ensures this.format == format && written == []
    {
      this.format := format;
      written := [];
    }

    method WriteFrame(body: seq<Byte>)
      requires |body| < 0x1_0000_0000_0000_0000
      modifies this
      ensures written == old(written) + FrameBytes(format, body)
    {
      var hdr: seq<Byte>;
      if format.Prefixed? {
        hdr := AppendVarint([], |body|);
        assert hdr == HeaderBytes(format, |body|);
      } else {
        var total := (SOFH_HEADER + |body|) % 0x1_0000_0000;
        hdr := [total / 0x100_0000, total / 0x1_0000 % 0x100, total / 0x100 % 0x100, total % 0x100,
                SOFH_ENCODING / 0x100, SOFH_ENCODING % 0x100];
        assert hdr == SofhHeader(|body|);
      }
      written := written + hdr;
      if body == [] {
        assert FrameBytes(format, body) == hdr;
        return;
      }
      written := written + body;
      assert old(written) + hdr + body == old(written) + FrameBytes(format, body);
    }
  }

  lemma SliceOfRest(s: seq<Byte>, at: nat, from: nat, n: nat)
    requires at + from + n <= |s|
    ensures s[at..][from..from + n] == s[at + from..at + from + n]
  {
  }

  class Decoder {
    const format: Format
    const max: nat
    const broken: bool
    var input: seq<Byte>
    var pos: nat
    var buf: seq<Byte>
    var err: Option<Outcome>

    ghost predicate Valid()
      reads this
    {
      pos <= |input|
    }

    constructor (format: Format, max: nat, input: seq<Byte>, broken: bool)
      ensures Valid() && this.format == format && this.max == max && this.input == input && this.broken == broken
      ensures pos == 0 && err == None
    {
      this.format := format;
      this.max := max;
      this.broken := broken;
      this.input := input;
      pos, buf, err := 0, [], None;
    }

    /** A varint, byte by byte. */
    method ReadUvarint() returns (h: Header)
      requires Valid()
      modifies this`pos
      ensures Valid() && h == Seen(Prefixed, PrefixAt(input[old(pos)..]), broken)
      ensures h.Length? ==> pos == old(pos) + h.size
      ensures h.NoMore? ==> pos == old(pos)
    {
      hide VarintSoFar, Place, ReadVarint;
      ghost var s := input[pos..];
      var x: nat := 0;
      var i := 0;
      assert VarintSoFar(s, 0, 0) by { SoFarStart(s); }
      while i < 10
        invariant 0 <= i <= 10 && pos == old(pos) + i <= |input|
        invariant if i < 10 then VarintSoFar(s, i, x) else ReadVarint(s).Bad?
        invariant forall k :: 0 <= k < i ==> s[k] >= 0x80
      {
        if pos >= |input| {
          SoFarEnd(s, i, x);
          return if broken then BadHeader else if i > 0 then CutHeader else NoMore;
        }
        var b := input[pos];
        assert s[i] == b;
        pos := pos + 1;
        if b < 0x80 {
          if i == 9 && b > 1 {
            SoFarEnd(s, i, x);
            return BadHeader;
          }
          VarintStep(s, i, x);
          return Length(Place(x, i, b % 0x80), i + 1);
        }
        if i < 9 {
          VarintStep(s, i, x);
          x := Place(x, i, b % 0x80);
        } else {
          SoFarEnd(s, i, x);
        }
        i := i + 1;
      }
      h := BadHeader;
    }

    /** The six bytes of the header. */
    method ReadSofh() returns (h: Header)
      requires Valid()
      modifies this`pos
      ensures Valid() && h == Seen(Sofh, SofhAt(input[old(pos)..]), broken)
      ensures h.Length? ==> pos == old(pos) + h.size
      ensures h.NoMore? ==> pos == old(pos)
    {
      if |input| - pos < SOFH_HEADER {
        var got := |input| - pos;
        pos := |input|;
        return if got == 0 && !broken then NoMore else CutHeader;
      }
      ghost var s := input[pos..];
      var hdr := input[pos..pos + SOFH_HEADER];
      assert forall i :: 0 <= i < SOFH_HEADER ==> hdr[i] == s[i];
      pos := pos + SOFH_HEADER;
      if hdr[4] != SOFH_ENCODING / 0x100 || hdr[5] != SOFH_ENCODING % 0x100 {
        return BadHeader;
      }
      var total := SofhTotal(hdr);
      if total < SOFH_HEADER {
        return BadHeader;
      }
      h := Length(total - SOFH_HEADER, SOFH_HEADER);
    }

    method ReadHeader() returns (h: Header)
      requires Valid()
      modifies this`pos
      ensures Valid() && h == Seen(format, HeaderAt(format, input[old(pos)..]), broken)
      ensures h.Length? ==> pos == old(pos) + h.size
      ensures h.NoMore? ==> pos == old(pos)
    {
      hide PrefixAt, SofhAt;
      if format.Prefixed? {
        h := ReadUvarint();
      } else {
        h := ReadSofh();
      }
    }

    /** A failure inside a frame is every later result too; the end of the stream is no failure. */
    method ReadFrame() returns (r: Outcome)
      requires Valid()
      modifies this
      ensures Valid() && input == old(input)
      ensures old(err).Some? ==> r == old(err).value && unchanged(this)
      ensures old(err).None? ==> r == ReadAt(format, max, input[old(pos)..], broken)
      ensures old(err).None? ==> err == if r.Frame? || r.AtEnd? then None else Some(r)
      ensures old(err).None? && r.Frame? ==> buf == r.body && pos == old(pos) + r.size
      ensures old(err).None? && r.AtEnd? ==> pos == old(pos)
    {
      hide HeaderAt;
      if err.Some? {
        return err.value;
      }
      ghost var s := input[pos..];
      var h := ReadHeader();
      match h {
        case NoMore =>
          return AtEnd;
        case CutHeader =>
          r := CutShort;
        case BadHeader =>
          r := Corrupt;
        case Length(n, size) =>
          if n > max {
            r := Corrupt;
          } else if n > |input| - pos {
            pos := |input|;
            r := if broken then Failed else CutShort;
          } else {
            buf := input[pos..pos + n];
            SliceOfRest(input, pos - size, size, n);
            pos := pos + n;
            return Frame(buf, size + n);
          }
      }
      err := Some(r);
    }
  }
}
