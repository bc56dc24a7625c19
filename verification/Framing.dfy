/**
Frames on a stream: src/pb/stream.cc (a varint length) and src/sbe/stream.cc (the Simple Open Framing
Header). A stream is its bytes and a position; after its bytes it has ended, or reading it fails.
 */
module Framing {
  import opened BigEndian
  import opened Wire

  datatype Format = Prefixed | Sofh

  const SOFH_ENCODING: nat := 0xEB50
  const SOFH_HEADER: nat := 6

  // ---- Headers ----

  /** What the bytes where a frame should start hold. */
  datatype Header = NoMore | CutHeader | BadHeader | Length(body: nat, size: nat)

  /** Bytes that a varint goes on after. */
  predicate AllContinue(s: seq<Byte>) {
    forall i :: 0 <= i < |s| ==> s[i] >= 0x80
  }

  function PrefixAt(s: seq<Byte>): (h: Header)
    ensures h.Length? ==> 0 < h.size <= |s|
  {
    match ReadVarint(s)
    case Got(n, size) => Length(n, size)
    case Bad =>
      if s == [] then NoMore
      else if |s| < 10 && AllContinue(s) then CutHeader
      else BadHeader
  }

  function BigEndian32(v: nat): seq<Byte>
    requires v < 0x1_0000_0000
  {
    [v / 0x100_0000, v / 0x1_0000 % 0x100, v / 0x100 % 0x100, v % 0x100]
  }

  /** A frame's length with its header, as 32 bits, and the encoding. */
  function SofhHeader(n: nat): (s: seq<Byte>)
    ensures |s| == SOFH_HEADER
  {
    BigEndian32((SOFH_HEADER + n) % 0x1_0000_0000) + [SOFH_ENCODING / 0x100, SOFH_ENCODING % 0x100]
  }

  function SofhTotal(s: seq<Byte>): nat
    requires |s| >= SOFH_HEADER
  {
    var a: int, b: int, c: int, d: int := s[0], s[1], s[2], s[3];
    a * 0x100_0000 + b * 0x1_0000 + c * 0x100 + d
  }

  function SofhAt(s: seq<Byte>): (h: Header)
    ensures h.Length? ==> 0 < h.size <= |s|
  {
    if s == [] then NoMore
    else if |s| < SOFH_HEADER then CutHeader
    else if s[4] != SOFH_ENCODING / 0x100 || s[5] != SOFH_ENCODING % 0x100 then BadHeader
    else if SofhTotal(s) < SOFH_HEADER then BadHeader
    else Length(SofhTotal(s) - SOFH_HEADER, SOFH_HEADER)
  }

  function HeaderAt(format: Format, s: seq<Byte>): (h: Header)
    ensures h.Length? ==> 0 < h.size <= |s|
  {
    match format
    case Prefixed => PrefixAt(s)
    case Sofh => SofhAt(s)
  }

  function HeaderBytes(format: Format, n: nat): (s: seq<Byte>)
    ensures s != []
  {
    match format
    case Prefixed => Varint(n)
    case Sofh => SofhHeader(n)
  }

  // ---- Frames ----

  /** How a decoder's call ends. */
  datatype Outcome = Frame(body: seq<Byte>, size: nat) | AtEnd | CutShort | Corrupt | Failed

  /** What a header comes to where reading fails instead of ending: src/sbe/stream.cc takes it for a cut. */
  function Seen(format: Format, h: Header, broken: bool): (r: Header)
    ensures h.Length? || h.BadHeader? ==> r == h
  {
    if !broken || h.Length? || h.BadHeader? then h else if format.Prefixed? then BadHeader else CutHeader
  }

  /** The next frame of a stream that holds the bytes s, and then ends or fails. */
  function ReadAt(format: Format, max: nat, s: seq<Byte>, broken: bool): (r: Outcome)
    ensures r.Frame? ==> 0 < r.size <= |s|
  {
    match Seen(format, HeaderAt(format, s), broken)
    case NoMore => AtEnd
    case CutHeader => CutShort
    case BadHeader => Corrupt
    case Length(n, size) =>
      if n > max then Corrupt
      else if size + n > |s| then if broken then Failed else CutShort
      else Frame(s[size..size + n], size + n)
  }

  function FrameBytes(format: Format, body: seq<Byte>): (s: seq<Byte>)
    ensures s != []
  {
    HeaderBytes(format, |body|) + body
  }

  /** A body the decoder's limit and the header's width have room for. */
  predicate Fits(format: Format, max: nat, body: seq<Byte>) {
    && |body| <= max
    && match format
       case Prefixed => |body| < 0x1_0000_0000_0000_0000
       case Sofh => SOFH_HEADER + |body| < 0x1_0000_0000
  }

  // ---- Whole streams ----

  function Stream(format: Format, bodies: seq<seq<Byte>>): seq<Byte> {
    if bodies == [] then [] else FrameBytes(format, bodies[0]) + Stream(format, bodies[1..])
  }

  /** The bodies a decoder delivers, and how it stops. */
  datatype Delivery = Delivery(bodies: seq<seq<Byte>>, end: Outcome)

  function Then(body: seq<Byte>, d: Delivery): Delivery { Delivery([body] + d.bodies, d.end) }

  function Deliver(format: Format, max: nat, s: seq<Byte>, broken: bool): (d: Delivery)
    ensures !d.end.Frame?
    decreases |s|
  {
    match ReadAt(format, max, s, broken)
    case Frame(body, size) => Then(body, Deliver(format, max, s[size..], broken))
    case other => Delivery([], other)
  }

  /** How a stream stops that holds, after whole frames, left bytes of the next one. */
  function EndAfter(format: Format, next: seq<seq<Byte>>, left: nat, broken: bool): (r: Outcome)
    ensures !r.Frame?
  {
    if !broken then if left == 0 then AtEnd else CutShort
    else if next != [] && left >= |HeaderBytes(format, |next[0]|)| then Failed
    else if format.Prefixed? then Corrupt
    else CutShort
  }

  // ---- Headers read back, whole or cut ----

  lemma SofhReads(n: nat, tail: seq<Byte>)
    requires SOFH_HEADER + n < 0x1_0000_0000
    ensures SofhAt(SofhHeader(n) + tail) == Length(n, SOFH_HEADER)
  {
    var v := SOFH_HEADER + n;
    var s := SofhHeader(n) + tail;
    assert v % 0x1_0000_0000 == v;
    assert s[..6] == SofhHeader(n);
    assert s[0] == v / 0x100_0000 && s[1] == v / 0x1_0000 % 0x100 && s[2] == v / 0x100 % 0x100 && s[3] == v % 0x100;
    FourParts(v);
  }

  lemma FourParts(v: nat)
    ensures v == v / 0x100_0000 * 0x100_0000 + v / 0x1_0000 % 0x100 * 0x1_0000 + v / 0x100 % 0x100 * 0x100 + v % 0x100
  {
    var a, b := v / 0x100, v / 0x1_0000;
    assert v == a * 0x100 + v % 0x100;
    assert a / 0x100 == b && a == b * 0x100 + a % 0x100;
    assert b / 0x100 == v / 0x100_0000 && b == b / 0x100 * 0x100 + b % 0x100;
  }

  lemma HeaderReads(format: Format, max: nat, body: seq<Byte>, tail: seq<Byte>)
    requires Fits(format, max, body)
    ensures var h := HeaderBytes(format, |body|); HeaderAt(format, h + tail) == Length(|body|, |h|)
  {
    hide SofhAt, SofhHeader, ReadVarint, Varint;
    match format
    case Prefixed => VarintReads(|body|, tail);
    case Sofh => SofhReads(|body|, tail);
  }

  /** All but the last byte of a varint say that it goes on. */
  lemma {:induction false} VarintContinues(v: nat, k: nat)
    requires k < |Varint(v)|
    ensures AllContinue(Varint(v)[..k])
  {
    if v >= 0x80 && k > 0 {
      VarintContinues(v / 0x80, k - 1);
      var rest := Varint(v / 0x80)[..k - 1];
      assert Varint(v)[..k] == [v % 0x80 + 0x80] + rest;
      assert forall i :: 0 <= i < k ==> Varint(v)[..k][i] == if i == 0 then v % 0x80 + 0x80 else rest[i - 1];
    }
  }

  lemma {:induction false} ContinuesBad(s: seq<Byte>, i: nat)
    requires AllContinue(s)
    ensures VarintFrom(s, i).Bad?
    decreases 10 - i
  {
    if i < |s| && i < 10 {
      ContinuesBad(s, i + 1);
    }
  }

  lemma HeaderCut(format: Format, max: nat, body: seq<Byte>, k: nat)
    requires Fits(format, max, body) && k < |HeaderBytes(format, |body|)|
    ensures HeaderAt(format, HeaderBytes(format, |body|)[..k]) == if k == 0 then NoMore else CutHeader
  {
    hide SofhHeader, Varint, VarintFrom;
    match format
    case Prefixed =>
      VarintContinues(|body|, k);
      ContinuesBad(Varint(|body|)[..k], 0);
      VarintReads(|body|, []);
      assert |Varint(|body|)| <= 10 by { TenBytes(Varint(|body|) + []); }
    case Sofh =>
  }

  lemma TenBytes(s: seq<Byte>)
    ensures ReadVarint(s).Got? ==> ReadVarint(s).size <= 10
  {
    TenFrom(s, 0);
  }

  lemma {:induction false} TenFrom(s: seq<Byte>, i: nat)
    ensures VarintFrom(s, i).Got? ==> VarintFrom(s, i).size <= 10
    decreases 10 - i
  {
    if i < |s| && i < 10 && s[i] >= 0x80 {
      TenFrom(s, i + 1);
    }
  }

  // ---- Frames read back, whole or cut ----

  lemma FrameReads(format: Format, max: nat, body: seq<Byte>, tail: seq<Byte>, broken: bool)
    requires Fits(format, max, body)
    ensures ReadAt(format, max, FrameBytes(format, body) + tail, broken) == Frame(body, |FrameBytes(format, body)|)
  {
    hide HeaderAt, HeaderBytes;
    HeaderReads(format, max, body, body + tail);
    var h := HeaderBytes(format, |body|);
    assert FrameBytes(format, body) + tail == h + (body + tail);
    assert (h + (body + tail))[|h|..|h| + |body|] == body;
  }

  lemma FrameCut(format: Format, max: nat, body: seq<Byte>, k: nat, broken: bool)
    requires Fits(format, max, body) && k < |FrameBytes(format, body)|
    ensures ReadAt(format, max, FrameBytes(format, body)[..k], broken) == EndAfter(format, [body], k, broken)
  {
    hide HeaderAt, HeaderBytes;
    var h := HeaderBytes(format, |body|);
    if k < |h| {
      HeaderCut(format, max, body, k);
      assert FrameBytes(format, body)[..k] == h[..k];
    } else {
      HeaderReads(format, max, body, body[..k - |h|]);
      assert FrameBytes(format, body)[..k] == h + body[..k - |h|];
    }
  }

  predicate AllFit(format: Format, max: nat, bodies: seq<seq<Byte>>) {
    forall i :: 0 <= i < |bodies| ==> Fits(format, max, bodies[i])
  }

  /** How many of the frames the first k bytes hold whole. */
  function WholeFrames(format: Format, bodies: seq<seq<Byte>>, k: nat): (j: nat)
    ensures j <= |bodies|
    decreases |bodies|
  {
    if bodies == [] || k < |FrameBytes(format, bodies[0])| then 0
    else 1 + WholeFrames(format, bodies[1..], k - |FrameBytes(format, bodies[0])|)
  }

  /** That many, and not one more. */
  lemma {:induction false} WholeFramesAre(format: Format, bodies: seq<seq<Byte>>, k: nat)
    ensures var j := WholeFrames(format, bodies, k);
            && |Stream(format, bodies[..j])| <= k
            && (j < |bodies| ==> k < |Stream(format, bodies[..j + 1])|)
    decreases |bodies|
  {
    hide FrameBytes;
    if bodies != [] {
      var first := FrameBytes(format, bodies[0]);
      if k < |first| {
        assert bodies[..0] == [] && bodies[..1] == [bodies[0]];
        assert bodies[..1][1..] == [];
        assert Stream(format, bodies[..1]) == first + Stream(format, []);
      } else {
        WholeFramesAre(format, bodies[1..], k - |first|);
        var j := WholeFrames(format, bodies[1..], k - |first|);
        assert bodies[..j + 1][1..] == bodies[1..][..j];
        if j < |bodies[1..]| {
          assert bodies[..j + 2][1..] == bodies[1..][..j + 1];
        }
      }
    }
  }

  /**
  The decoder of a stream that is cut anywhere delivers the frames that are whole. It says that the
  stream ended there exactly when the cut is between two frames, and that it was cut short otherwise;
  where reading fails instead, it never says that the stream ended.
   */
  lemma {:induction false} CutDelivers(format: Format, max: nat, bodies: seq<seq<Byte>>, k: nat, broken: bool)
    requires AllFit(format, max, bodies) && k <= |Stream(format, bodies)|
    ensures var j := WholeFrames(format, bodies, k);
            && |Stream(format, bodies[..j])| <= k
            && Deliver(format, max, Stream(format, bodies)[..k], broken)
               == Delivery(bodies[..j], EndAfter(format, bodies[j..], k - |Stream(format, bodies[..j])|, broken))
    decreases |bodies|
  {
    hide FrameBytes, Deliver, Fits, EndAfter;
    var s := Stream(format, bodies);
    if bodies == [] {
      assert s[..k] == [] && bodies[..0] == [] && bodies[0..] == [];
      DeliverNone(format, max, broken);
    } else {
      var body := bodies[0];
      var first := FrameBytes(format, body);
      assert Fits(format, max, body);
      if k < |first| {
        DeliverCut(format, max, bodies, k, broken);
        assert s[..k] == first[..k];
        assert bodies[..0] == [] && bodies[0..] == bodies;
      } else {
        var rest := bodies[1..];
        var tail := Stream(format, rest)[..k - |first|];
        DeliverFirst(format, max, body, tail, broken);
        assert s[..k] == first + tail;
        CutDelivers(format, max, rest, k - |first|, broken);
        var j := WholeFrames(format, rest, k - |first|);
        assert bodies[..j + 1] == [body] + rest[..j] && bodies[j + 1..] == rest[j..];
        assert bodies[..j + 1][1..] == rest[..j];
      }
    }
  }

  lemma DeliverFirst(format: Format, max: nat, body: seq<Byte>, tail: seq<Byte>, broken: bool)
    requires Fits(format, max, body)
    ensures Deliver(format, max, FrameBytes(format, body) + tail, broken)
            == Then(body, Deliver(format, max, tail, broken))
  {
    hide FrameBytes, ReadAt, Fits;
    var first := FrameBytes(format, body);
    FrameReads(format, max, body, tail, broken);
    assert (first + tail)[|first|..] == tail;
  }

  lemma DeliverCut(format: Format, max: nat, bodies: seq<seq<Byte>>, k: nat, broken: bool)
    requires bodies != [] && Fits(format, max, bodies[0]) && k < |FrameBytes(format, bodies[0])|
    ensures Deliver(format, max, FrameBytes(format, bodies[0])[..k], broken)
            == Delivery([], EndAfter(format, bodies, k, broken))
  {
    hide FrameBytes, ReadAt, Fits, EndAfter;
    FrameCut(format, max, bodies[0], k, broken);
    SameEnd(format, bodies[0], bodies, k, broken);
  }

  lemma DeliverNone(format: Format, max: nat, broken: bool)
    ensures Deliver(format, max, [], broken) == Delivery([], EndAfter(format, [], 0, broken))
  {
  }

  lemma SameEnd(format: Format, body: seq<Byte>, bodies: seq<seq<Byte>>, k: nat, broken: bool)
    requires bodies != [] && bodies[0] == body
    ensures EndAfter(format, [body], k, broken) == EndAfter(format, bodies, k, broken)
  {
  }

  /** Uncut, every frame and then the end. */
  lemma StreamDelivers(format: Format, max: nat, bodies: seq<seq<Byte>>)
    requires AllFit(format, max, bodies)
    ensures Deliver(format, max, Stream(format, bodies), false) == Delivery(bodies, AtEnd)
  {
    hide AllFit, Deliver;
    var s := Stream(format, bodies);
    assert s[..|s|] == s;
    CutDelivers(format, max, bodies, |s|, false);
    AllWhole(format, bodies);
    assert bodies[..|bodies|] == bodies;
  }

  lemma {:induction false} AllWhole(format: Format, bodies: seq<seq<Byte>>)
    ensures WholeFrames(format, bodies, |Stream(format, bodies)|) == |bodies|
    decreases |bodies|
  {
    hide FrameBytes;
    if bodies != [] {
      AllWhole(format, bodies[1..]);
    }
  }
}
