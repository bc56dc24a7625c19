/**
Which bytes are groups, and which buffers are messages, said of the bytes: src/sbe/codec.cc, ValidateGroups and NewView.
They are, for each group of the template, a header and as many entries of one size as it counts, and then anything.
 */
module SbeGroups {
  import opened Powers
  import opened BigEndian
  import opened Wire
  import opened SbeTemplate
  import opened SbeMessages

  /** A group on the wire: the size of an entry, how many there are, and their bytes. */
  datatype Part = Part(block: nat, count: nat, body: seq<Byte>)

  ghost predicate PartOf(p: Part, g: GroupTemplate, maxRepeated: nat) {
    && g.blockLength <= p.block <= MAX_U16 && p.count <= MAX_U16 && p.count <= maxRepeated
    && (p.count > 0 ==> p.block > 0) && |p.body| == p.block * p.count
  }

  ghost predicate PartsOf(ps: seq<Part>, gs: seq<GroupTemplate>, maxRepeated: nat) {
    |ps| == |gs| && forall i :: 0 <= i < |gs| ==> PartOf(ps[i], gs[i], maxRepeated)
  }

  function PartsBytes(ps: seq<Part>): seq<Byte> {
    if ps == [] then []
    else Fixed(2, ps[0].block) + Fixed(2, ps[0].count) + ps[0].body + PartsBytes(ps[1..])
  }

  /** The room for the entries, by the product instead of a quotient. */
  lemma HeadValidIs(h: GroupHead, g: GroupTemplate, maxRepeated: nat)
    ensures HeadValid(h, g, maxRepeated) <==>
            && g.blockLength <= h.block && h.count <= maxRepeated && (h.count > 0 ==> h.block > 0)
            && h.block * h.count <= |h.tail|
  {
    if h.block > 0 {
      DivLowerBound(|h.tail|, h.block, h.count);
      assert h.block * h.count == h.count * h.block;
    }
  }

  lemma TwoBytes(s: seq<Byte>, i: nat)
    requires i + 2 <= |s|
    ensures U16At(s, i) <= MAX_U16 && Fixed(2, U16At(s, i)) == s[i..i + 2]
  {
    var v := U16At(s, i);
    assert v % 0x100 == s[i] && v / 0x100 == s[i + 1];
    assert Fixed(2, v) == [v % 0x100] + Fixed(1, v / 0x100);
    assert Fixed(1, v / 0x100) == [v / 0x100 % 0x100] + Fixed(0, v / 0x100 / 0x100);
    assert s[i..i + 2] == [s[i]] + ([s[i + 1]] + []);
  }

  lemma HeadIs(p: Part, tail: seq<Byte>)
    requires p.block <= MAX_U16 && p.count <= MAX_U16
    ensures var s := Fixed(2, p.block) + Fixed(2, p.count) + tail;
            |s| >= 4 && HeadOf(s) == GroupHead(p.block, p.count, tail)
  {
    hide Fixed, U16At;
    var s := Fixed(2, p.block) + Fixed(2, p.count) + tail;
    assert s[0..2] == Fixed(2, p.block) && s[2..4] == Fixed(2, p.count) && s[4..] == tail;
    U16Reads(s, 0, p.block);
    U16Reads(s, 2, p.count);
  }

  /** The first group of bytes that pass. */
  lemma FirstPart(rest: seq<Byte>, g: GroupTemplate, maxRepeated: nat) returns (p: Part)
    requires |rest| >= 4 && HeadValid(HeadOf(rest), g, maxRepeated)
    ensures var h := HeadOf(rest);
            && Span(h) <= |h.tail| && PartOf(p, g, maxRepeated)
            && rest == Fixed(2, p.block) + Fixed(2, p.count) + p.body + h.tail[Span(h)..]
  {
    hide Fixed, U16At, HeadValid;
    var h := HeadOf(rest);
    var n := Span(h);
    SpanFits(h, g, maxRepeated);
    p := Part(h.block, h.count, h.tail[..n]);
    assert PartOf(p, g, maxRepeated) by {
      HeadValidIs(h, g, maxRepeated);
      TwoBytes(rest, 0);
      TwoBytes(rest, 2);
    }
    assert rest == Fixed(2, p.block) + Fixed(2, p.count) + p.body + h.tail[n..] by {
      hide PartOf, Span;
      TwoBytes(rest, 0);
      TwoBytes(rest, 2);
      assert h.tail == h.tail[..n] + h.tail[n..];
      assert rest == rest[0..2] + rest[2..4] + rest[4..];
    }
  }

  lemma PartsCons(p: Part, ps: seq<Part>, gs: seq<GroupTemplate>, maxRepeated: nat)
    requires gs != [] && PartOf(p, gs[0], maxRepeated) && PartsOf(ps, gs[1..], maxRepeated)
    ensures PartsOf([p] + ps, gs, maxRepeated)
    ensures PartsBytes([p] + ps) == Fixed(2, p.block) + Fixed(2, p.count) + p.body + PartsBytes(ps)
  {
    hide Fixed, PartOf;
    assert ([p] + ps)[1..] == ps;
    forall i | 0 < i < |gs| ensures PartOf(([p] + ps)[i], gs[i], maxRepeated) {
      assert PartOf(ps[i - 1], gs[1..][i - 1], maxRepeated);
    }
  }

  /** Bytes that pass are such groups, and then the rest. */
  lemma {:induction false} ValidAreParts(rest: seq<Byte>, gs: seq<GroupTemplate>, maxRepeated: nat)
    returns (ps: seq<Part>, tail: seq<Byte>)
    requires GroupsValid(rest, gs, maxRepeated)
    ensures PartsOf(ps, gs, maxRepeated) && rest == PartsBytes(ps) + tail
    decreases |gs|
  {
    hide Fixed, U16At, HeadValid, PartOf;
    if gs == [] {
      ps, tail := [], rest;
    } else {
      var h := HeadOf(rest);
      var p := FirstPart(rest, gs[0], maxRepeated);
      var qs;
      qs, tail := ValidAreParts(h.tail[Span(h)..], gs[1..], maxRepeated);
      ps := [p] + qs;
      PartsCons(p, qs, gs, maxRepeated);
    }
  }

  lemma {:induction false} PartsAreValid(ps: seq<Part>, tail: seq<Byte>, gs: seq<GroupTemplate>, maxRepeated: nat)
    requires PartsOf(ps, gs, maxRepeated)
    ensures GroupsValid(PartsBytes(ps) + tail, gs, maxRepeated)
    decreases |gs|
  {
    hide Fixed, HeadValid, U16At;
    if gs != [] {
      var p := ps[0];
      assert PartOf(p, gs[0], maxRepeated);
      var after := PartsBytes(ps[1..]) + tail;
      var rest := PartsBytes(ps) + tail;
      assert rest == Fixed(2, p.block) + Fixed(2, p.count) + (p.body + after);
      HeadIs(p, p.body + after);
      var h := HeadOf(rest);
      HeadValidIs(h, gs[0], maxRepeated);
      assert h.tail[Span(h)..] == after;
      forall i | 0 <= i < |gs[1..]| ensures PartOf(ps[1..][i], gs[1..][i], maxRepeated) {
        assert PartOf(ps[i + 1], gs[i + 1], maxRepeated);
      }
      PartsAreValid(ps[1..], tail, gs[1..], maxRepeated);
    }
  }

  /** Bytes pass exactly when they are a header and its entries for each group, and then anything. */
  lemma GroupsValidIs(rest: seq<Byte>, gs: seq<GroupTemplate>, maxRepeated: nat)
    ensures GroupsValid(rest, gs, maxRepeated)
            <==> exists ps, tail :: PartsOf(ps, gs, maxRepeated) && rest == PartsBytes(ps) + tail
  {
    hide GroupsValid, PartsOf, PartsBytes;
    if GroupsValid(rest, gs, maxRepeated) {
      var ps, tail := ValidAreParts(rest, gs, maxRepeated);
    }
    if exists ps, tail :: PartsOf(ps, gs, maxRepeated) && rest == PartsBytes(ps) + tail {
      var ps, tail :| PartsOf(ps, gs, maxRepeated) && rest == PartsBytes(ps) + tail;
      PartsAreValid(ps, tail, gs, maxRepeated);
    }
  }

  // ---- Whole buffers ----

  /** A message of the template as it may stand in a buffer, its root block as long as one likes. */
  datatype Buffer = Buffer(version: nat, root: seq<Byte>, parts: seq<Part>, tail: seq<Byte>)

  ghost predicate BufferOf(b: Buffer, t: MessageTemplate, maxRepeated: nat) {
    b.version <= MAX_U16 && t.blockLength <= |b.root| <= MAX_U16 && PartsOf(b.parts, t.groups, maxRepeated)
  }

  function BufferBytes(b: Buffer, t: MessageTemplate): seq<Byte> {
    Fixed(2, |b.root|) + Fixed(2, t.templateId) + Fixed(2, t.schemaId) + Fixed(2, b.version)
    + (b.root + (PartsBytes(b.parts) + b.tail))
  }

  predicate Passes(data: seq<Byte>, t: MessageTemplate, maxRepeated: nat) {
    HeaderValid(data, t) && GroupsValid(data[8 + U16At(data, 0)..], t.groups, maxRepeated)
  }

  lemma FourWords(a: nat, b: nat, c: nat, d: nat, rest: seq<Byte>)
    requires a <= MAX_U16 && b <= MAX_U16 && c <= MAX_U16 && d <= MAX_U16
    ensures var s := Fixed(2, a) + Fixed(2, b) + Fixed(2, c) + Fixed(2, d) + rest;
            && |s| == 8 + |rest| && s[8..] == rest
            && U16At(s, 0) == a && U16At(s, 2) == b && U16At(s, 4) == c && U16At(s, 6) == d
  {
    hide Fixed, U16At;
    var p1 := Fixed(2, a);
    var p2 := p1 + Fixed(2, b);
    var p3 := p2 + Fixed(2, c);
    var p4 := p3 + Fixed(2, d);
    var s := p4 + rest;
    WordAt(p3, d, s);
    WordAt(p2, c, s);
    WordAt(p1, b, s);
    assert [] + p1 == p1;
    WordAt([], a, s);
  }

  /** The last word of a prefix of s, and the prefix without it. */
  lemma WordAt(pre: seq<Byte>, v: nat, s: seq<Byte>)
    requires v <= MAX_U16 && pre + Fixed(2, v) <= s
    ensures pre <= s && |pre| + 2 <= |s| && U16At(s, |pre|) == v
  {
    hide Fixed, U16At;
    assert s[|pre|..|pre| + 2] == Fixed(2, v);
    U16Reads(s, |pre|, v);
  }

  lemma BufferPasses(b: Buffer, t: MessageTemplate, maxRepeated: nat)
    requires SoundTemplate(t) && BufferOf(b, t, maxRepeated)
    ensures Passes(BufferBytes(b, t), t, maxRepeated)
  {
    hide Fixed, U16At, GroupsValid, PartsOf, PartsBytes;
    var rest := PartsBytes(b.parts) + b.tail;
    FourWords(|b.root|, t.templateId, t.schemaId, b.version, b.root + rest);
    var data := BufferBytes(b, t);
    assert data[8 + |b.root|..] == data[8..][|b.root|..] == rest;
    PartsAreValid(b.parts, b.tail, t.groups, maxRepeated);
  }

  lemma PassesIsBuffer(data: seq<Byte>, t: MessageTemplate, maxRepeated: nat) returns (b: Buffer)
    requires Passes(data, t, maxRepeated)
    ensures BufferOf(b, t, maxRepeated) && data == BufferBytes(b, t)
  {
    hide Fixed, U16At, GroupsValid, PartsOf, PartsBytes;
    var n := U16At(data, 0);
    TwoBytes(data, 0);
    TwoBytes(data, 2);
    TwoBytes(data, 4);
    TwoBytes(data, 6);
    var ps, tail := ValidAreParts(data[8 + n..], t.groups, maxRepeated);
    b := Buffer(U16At(data, 6), data[8..8 + n], ps, tail);
    assert data == data[0..2] + data[2..4] + data[4..6] + data[6..8] + (data[8..8 + n] + data[8 + n..]);
  }

  /** A buffer passes exactly when it is the header, a root block, the groups and then anything. */
  lemma PassesIs(data: seq<Byte>, t: MessageTemplate, maxRepeated: nat)
    requires SoundTemplate(t)
    ensures Passes(data, t, maxRepeated) <==> exists b :: BufferOf(b, t, maxRepeated) && data == BufferBytes(b, t)
  {
    hide Passes, BufferOf, BufferBytes, SoundTemplate;
    if Passes(data, t, maxRepeated) {
      var b := PassesIsBuffer(data, t, maxRepeated);
    }
    if exists b :: BufferOf(b, t, maxRepeated) && data == BufferBytes(b, t) {
      var b :| BufferOf(b, t, maxRepeated) && data == BufferBytes(b, t);
      BufferPasses(b, t, maxRepeated);
    }
  }

  /** What is decoded has passed. */
  lemma DecodedPasses(data: seq<Byte>, t: MessageTemplate, maxRepeated: nat)
    requires SoundTemplate(t) && DecodeMessage(data, t, maxRepeated).Some?
    ensures Passes(data, t, maxRepeated)
  {
    hide GroupsValid, DecodeGroups, U16At;
  }
}
