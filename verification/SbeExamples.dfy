/**
Two messages that src/sbe does not treat as one would expect, whole buffers that the view and the decoder
both accept: a oneof in a group entry, and a bool of two bytes.
 */
module SbeExamples {
  import opened Options
  import opened BigEndian
  import Wire
  import opened SbeTemplate
  import opened SbeFields
  import opened SbeBlocks
  import opened SbeMessages
  import opened SbeCodec
  import opened SbeView
  import opened SbePaths

  // ---- A oneof in a group entry ----

  function UInt(name: string, kind: IntKind, oneof: Option<string>): Decl {
    Decl(name, false, false, oneof, IntType(kind, None))
  }

  /** A repeated message e whose entries hold either a uint32 a or a uint64 b. */
  function OneofSchema(): seq<Decl> {
    [Decl("e", true, false, None,
          MessageType([UInt("a", UInt32Kind, Some("o")), UInt("b", UInt64Kind, Some("o"))]))]
  }

  function OneofGroup(): GroupTemplate {
    GroupTemplate("e", 12, [FieldTemplate("a", 0, 4, Integer(UInt32Kind, Uint32), Some("o")),
                            FieldTemplate("b", 4, 8, Integer(UInt64Kind, Uint64), Some("o"))])
  }

  function OneofTemplate(): MessageTemplate {
    MessageTemplate(7, 9, 3, 0, [], [OneofGroup()])
  }

  lemma OneofBinds()
    ensures TemplateOf(OneofSchema(), Some(7), 9, 3) == Some(OneofTemplate())
    ensures SoundTemplate(OneofTemplate())
  {
    var a, b := UInt("a", UInt32Kind, Some("o")), UInt("b", UInt64Kind, Some("o"));
    var g := OneofGroup();
    assert FieldAt(a, 0) == Some(g.fields[0]) && FieldAt(b, 4) == Some(g.fields[1]);
    assert [b][1..] == [] && [a, b][1..] == [b];
    assert GroupBlock([], 12) == Some(Block([], 12));
    assert GroupBlock([b], 4) == Some(Block([g.fields[1]] + [], 12));
    assert GroupBlock([a, b], 0) == Some(Block([g.fields[0]] + ([g.fields[1]] + []), 12));
    assert [g.fields[0]] + ([g.fields[1]] + []) == g.fields;
    assert GroupOf(OneofSchema()[0]) == Some(g);
    assert OneofSchema()[1..] == [];
    assert TemplateParts([], 0) == Some(Parts(Block([], 0), []));
    assert g.fields[..0] + [] == [] && [g] + [] == [g];
    assert TemplateParts(OneofSchema(), 0) == Some(Parts(Block([], 0), [g]));
    assert g.fields[1..][1..] == [];
    assert LaidOut(g.fields[1..][1..], 12, 12);
    assert LaidOut(g.fields[1..], 4, 12);
    assert LaidOut(g.fields, 0, 12);
  }

  /** e = [{a: 5}]. */
  function OneofMessage(): Message {
    Message([], [[[IntV(5), IntV(0)]]])
  }

  function OneofDecoded(): Message {
    Message([], [[[IntV(0), IntV(0)]]])
  }

  lemma OneofTyped(m: Message, i: int)
    requires m == Message([], [[[IntV(i), IntV(0)]]]) && 0 <= i <= 5
    ensures TypedMessage(OneofTemplate(), m) && WritableMessage(OneofTemplate(), m)
    ensures Countable(OneofTemplate().groups, m.groups, 1)
  {
    var g, e := OneofGroup(), m.groups[0][0];
    assert g.fields[1..][1..] == [] && e[1..][1..] == [];
    assert AllTyped(g.fields[1..][1..], e[1..][1..]);
    assert AllTyped(g.fields[1..], e[1..]);
    assert AllTyped(g.fields, e);
    assert AllWritable(g.fields[1..], e[1..]);
    assert AllWritable(g.fields, e);
    assert EntriesTyped(g, m.groups[0]) && EntriesWritable(g, m.groups[0]);
    var gs := OneofTemplate().groups;
    assert gs[1..] == [] && m.groups[1..] == [];
    assert GroupsTyped(gs[1..], m.groups[1..]);
    assert GroupsTyped(gs, m.groups);
    assert GroupsWritable(gs[1..], m.groups[1..]);
  }

  /** a is written, b's zero after it; setting b clears a. The view still reads a's bytes. */
  lemma OneofLosesValue()
    ensures SoundTemplate(OneofTemplate()) && TypedMessage(OneofTemplate(), OneofMessage())
    ensures TypedMessage(OneofTemplate(), OneofDecoded())
    ensures var bytes := MessageBytes(OneofTemplate(), OneofMessage());
            && DecodeMessage(bytes, OneofTemplate(), 1) == Some(OneofDecoded())
            && MessageBytes(OneofTemplate(), OneofDecoded()) != bytes
  {
    var t, m, n := OneofTemplate(), OneofMessage(), OneofDecoded();
    OneofBinds();
    OneofTyped(m, 5);
    OneofTyped(n, 0);
    MessageReads(t, m, 1);
    OneofNormal();
    MessageAgain(t, m);
    assert !GroupsKept(t.groups, m.groups) by {
      assert !AllKept(OneofGroup().fields, m.groups[0][0]) by {
        assert OneofGroup().fields[1].oneof == OneofGroup().fields[0].oneof;
      }
      assert !EntriesKept(OneofGroup(), m.groups[0]);
    }
  }

  lemma OneofNormal()
    requires TypedMessage(OneofTemplate(), OneofMessage())
    ensures NormalMessage(OneofTemplate(), OneofMessage()) == OneofDecoded()
  {
    var t, m := OneofTemplate(), OneofMessage();
    var g, e := OneofGroup(), m.groups[0][0];
    assert g.fields[1].oneof == g.fields[0].oneof;
    assert g.fields[1..][1..] == [] && e[1..][1..] == [];
    assert NormalBlock(g.fields[1..], e[1..]) == [IntV(0)] + [];
    assert NormalBlock(g.fields, e) == [IntV(0)] + ([IntV(0)] + []);
    assert NormalBlock(g.fields, e) == [IntV(0), IntV(0)];
    assert NormalEntries(g, m.groups[0]) == [[IntV(0), IntV(0)]];
    assert t.groups[1..] == [] && m.groups[1..] == [];
    assert NormalGroups(t.groups, m.groups) == [[[IntV(0), IntV(0)]]] + [];
  }

  /** The bytes of the one entry. */
  lemma OneofEntry()
    requires SoundTemplate(OneofTemplate()) && TypedMessage(OneofTemplate(), OneofMessage())
    ensures EntriesTyped(OneofGroup(), [[IntV(5), IntV(0)]])
    ensures var bytes := EntriesBytes(OneofGroup(), [[IntV(5), IntV(0)]]);
            |bytes| == 12 && bytes[..4] == Wire.Fixed(4, 5)
  {
    hide Wire.Fixed;
    var g, es := OneofGroup(), [[IntV(5), IntV(0)]];
    assert OneofMessage().groups[0] == es;
    var e := es[0];
    EntriesLength(g, es);
    assert es[1..] == [];
    assert EntriesBytes(g, es) == BlockBytes(g.fields, e, 0, 12) + EntriesBytes(g, es[1..]);
    assert BlockBytes(g.fields, e, 0, 12) == FieldBytes(g.fields[0], e[0]) + BlockBytes(g.fields[1..], e[1..], 4, 12);
    assert FieldBytes(g.fields[0], e[0]) == Wire.Fixed(4, 5);
  }

  /** What follows the header of the message: the group's header, and the entry. */
  lemma OneofBytes()
    requires SoundTemplate(OneofTemplate()) && TypedMessage(OneofTemplate(), OneofMessage())
    ensures EntriesTyped(OneofGroup(), [[IntV(5), IntV(0)]])
    ensures var bytes := MessageBytes(OneofTemplate(), OneofMessage());
            var entries := EntriesBytes(OneofGroup(), [[IntV(5), IntV(0)]]);
            && |bytes| >= 12 && U16At(bytes, 0) == 0
            && HeadOf(bytes[8..]) == GroupHead(12, 1, entries) && |entries| == 12 && entries[..4] == Wire.Fixed(4, 5)
            && bytes == Header(OneofTemplate()) + (Wire.Fixed(2, 12) + Wire.Fixed(2, 1) + entries + [])
  {
    hide Wire.Fixed, LaidOut, SoundGroup, EntriesBytes, AllTyped, U16At, Header;
    var t, m, g := OneofTemplate(), OneofMessage(), OneofGroup();
    OneofEntry();
    var es := m.groups[0];
    var entries := EntriesBytes(g, es);
    var head := Wire.Fixed(2, 12) + Wire.Fixed(2, 1) + entries + [];
    HeadReads(g, g, es, [], head, 1) by { OneofSound(); }
    assert entries + [] == entries;
    assert t.groups[1..] == [] && m.groups[1..] == [];
    assert GroupsBytes(t.groups, m.groups) == head;
    assert BlockBytes(t.fields, m.fields, 0, 0) == [];
    var bytes := MessageBytes(t, m);
    assert bytes == Header(t) + [] + head == Header(t) + head;
    assert bytes[8..] == head;
    HeaderReads(t, head);
  }

  lemma Word(n: nat, v: nat)
    requires n > 0
    ensures Wire.Fixed(n, v) == [v % 0x100] + Wire.Fixed(n - 1, v / 0x100) && Wire.Fixed(0, v / 0x100) == []
  {
  }

  lemma Words()
    ensures Wire.Fixed(2, 0) == [0, 0] && Wire.Fixed(2, 7) == [7, 0] && Wire.Fixed(2, 9) == [9, 0]
    ensures Wire.Fixed(2, 3) == [3, 0] && Wire.Fixed(2, 12) == [12, 0] && Wire.Fixed(2, 1) == [1, 0]
    ensures Wire.Fixed(4, 5) == [5, 0, 0, 0]
  {
    Word(4, 5);
    Word(3, 0);
    Word(2, 0);
    Word(1, 0);
    assert [0] + ([0] + []) == [0, 0];
    assert [5] + ([0] + ([0] + ([0] + []))) == [5, 0, 0, 0];
  }

  /** Block length, template, schema and version; the group's block length and count; then the entry. */
  lemma OneofLaidOut()
    ensures SoundTemplate(OneofTemplate()) && TypedMessage(OneofTemplate(), OneofMessage())
    ensures var bytes := MessageBytes(OneofTemplate(), OneofMessage());
            && |bytes| == 24 && bytes[..8] == [0, 0, 7, 0, 9, 0, 3, 0]
            && bytes[8..12] == [12, 0, 1, 0] && bytes[12..16] == [5, 0, 0, 0]
  {
    hide *;
    OneofBinds();
    OneofTyped(OneofMessage(), 5) by { OneofIs(); }
    OneofBytes();
    OneofHeader();
    OneofSound();
    Words();
    var bytes := MessageBytes(OneofTemplate(), OneofMessage());
    var entries := EntriesBytes(OneofGroup(), [[IntV(5), IntV(0)]]);
    assert bytes == [0, 0, 7, 0, 9, 0, 3, 0] + ([12, 0] + [1, 0] + entries + []);
    assert bytes[8..12] == [12, 0] + [1, 0] && bytes[12..16] == entries[..4];
  }

  lemma OneofIs()
    ensures OneofMessage() == Message([], [[[IntV(5), IntV(0)]]])
  {
  }

  lemma OneofHeader()
    ensures Header(OneofTemplate()) == [0, 0, 7, 0, 9, 0, 3, 0]
  {
    hide Wire.Fixed;
    Words();
    assert [0, 0] + [7, 0] + [9, 0] + [3, 0] == [0, 0, 7, 0, 9, 0, 3, 0];
  }

  /** Through the view, a is still 5. */
  lemma OneofViewReads()
    ensures SoundTemplate(OneofTemplate()) && TypedMessage(OneofTemplate(), OneofMessage())
    ensures var bytes := MessageBytes(OneofTemplate(), OneofMessage());
            && |bytes| >= 8
            && var v := ViewAt(bytes, ViewOf(bytes, OneofTemplate()), [InEntry("e", 0)], 1);
               ValidView(bytes, v) && Read(bytes, v, "a").Some? && UnsignedOf(Read(bytes, v, "a").value) == 5
  {
    hide *;
    var t := OneofTemplate();
    OneofLosesValue();
    OneofSound();
    OneofBytes();
    var bytes := MessageBytes(t, OneofMessage());
    var entries := EntriesBytes(OneofGroup(), [[IntV(5), IntV(0)]]);
    assert DecodeMessage(bytes, t, 1).Some?;
    ViewAgreesOnPaths(bytes, t, [InEntry("e", 0)], 1);
    OneofGroupView(bytes, entries);
    OneofEntryView(bytes, OneofDecoded());
    OneofEntryReads(bytes, ViewAt(bytes, ViewOf(bytes, t), [InEntry("e", 0)], 1), entries);
  }

  lemma OneofEntryView(bytes: seq<Byte>, m: Message)
    requires |bytes| >= 12 && U16At(bytes, 0) == 0 && GroupsValid(bytes[8..], OneofTemplate().groups, 1)
    requires GroupViewAt(bytes, 8, OneofTemplate().groups, 0, 1).count == 1
    requires PathAgrees(bytes, OneofTemplate(), m, [InEntry("e", 0)], 1)
    ensures var v := ViewAt(bytes, ViewOf(bytes, OneofTemplate()), [InEntry("e", 0)], 1);
            v == EntryView(GroupViewAt(bytes, 8, OneofTemplate().groups, 0, 1), 0) && ValidView(bytes, v)
  {
    hide GroupViewAt, GroupsValid, U16At, ValidView, NodeAt, FieldMatches, EntryStart;
    var t, path := OneofTemplate(), [InEntry("e", 0)];
    var gv := GroupViewAt(bytes, 8, t.groups, 0, 1);
    assert path[1..] == [] && path[0] == InEntry("e", 0);
    assert NamedGroup(bytes, 8, t.groups, "e", 1) == gv;
    assert StepView(bytes, ViewOf(bytes, t), path[0], 1) == EntryView(gv, 0);
    assert ViewAt(bytes, EntryView(gv, 0), [], 1) == EntryView(gv, 0);
    assert EntryView(gv, 0).fields.Some?;
  }

  lemma OneofEntryReads(bytes: seq<Byte>, v: View, entries: seq<Byte>)
    requires |bytes| >= 12 && GroupsValid(bytes[8..], OneofTemplate().groups, 1)
    requires v == EntryView(GroupViewAt(bytes, 8, OneofTemplate().groups, 0, 1), 0) && ValidView(bytes, v)
    requires var gv := GroupViewAt(bytes, 8, OneofTemplate().groups, 0, 1);
             At(bytes, gv.data) == entries && gv.blockLength == 12 && gv.count == 1
    requires |entries| == 12 && entries[..4] == Wire.Fixed(4, 5)
    ensures Read(bytes, v, "a").Some? && UnsignedOf(Read(bytes, v, "a").value) == 5
  {
    hide GroupViewAt, GroupsValid, ValidView, Wire.Fixed, UnsignedOf;
    var gv := GroupViewAt(bytes, 8, OneofTemplate().groups, 0, 1);
    assert v.fields == Some(OneofGroup().fields);
    assert Find(OneofGroup().fields, "a") == Some(OneofGroup().fields[0]);
    WindowInside(bytes, v, "a");
    var w := Read(bytes, v, "a").value;
    assert w == At(bytes, gv.data)[..4];
    FiveRead(w);
  }

  lemma FiveRead(w: seq<Byte>)
    requires w == Wire.Fixed(4, 5)
    ensures UnsignedOf(w) == 5
  {
    Wire.FixedReads(4, 5, []);
    assert w + [] == w && w[..4] == w;
  }

  lemma OneofGroupView(bytes: seq<Byte>, entries: seq<Byte>)
    requires |bytes| >= 12 && HeadOf(bytes[8..]) == GroupHead(12, 1, entries) && |entries| == 12
    ensures GroupsValid(bytes[8..], OneofTemplate().groups, 1)
    ensures var gv := GroupViewAt(bytes, 8, OneofTemplate().groups, 0, 1);
            At(bytes, gv.data) == entries && gv.blockLength == 12 && gv.count == 1
  {
    var gs := OneofTemplate().groups;
    assert gs[1..] == [] && gs[0] == OneofGroup();
    assert HeadValid(HeadOf(bytes[8..]), gs[0], 1);
    assert GroupsValid(bytes[8..], gs, 1);
    GroupViewFirst(bytes, 8, gs, 1);
    assert entries[..12] == entries;
  }

  lemma OneofSound()
    ensures SoundGroup(OneofGroup()) && GroupExtends(OneofGroup(), OneofGroup())
  {
    OneofBinds();
    assert OneofTemplate().groups[0] == OneofGroup();
  }

  // ---- A bool of two bytes ----

  /** message M { bool f = 1 [(sbe.encoding) = "uint16"]; } */
  function BoolSchema(): seq<Decl> {
    [Decl("f", false, false, None, IntType(BoolKind, Some(IntEnc(Uint16))))]
  }

  function BoolTemplate(): MessageTemplate {
    MessageTemplate(1, 1, 0, 2, [FieldTemplate("f", 0, 2, Integer(BoolKind, Uint16), None)], [])
  }

  lemma BoolBinds()
    ensures TemplateOf(BoolSchema(), Some(1), 1, 0) == Some(BoolTemplate()) && SoundTemplate(BoolTemplate())
  {
    var d, ft := BoolSchema()[0], BoolTemplate().fields[0];
    assert FieldAt(d, 0) == Some(ft);
    assert BoolSchema()[1..] == [] && [ft] + [] == [ft] && BoolTemplate().fields[1..] == [];
    assert TemplateParts([], 2) == Some(Parts(Block([], 2), []));
    assert BoolTemplate().groups + [] == [];
    assert TemplateParts(BoolSchema(), 0) == Some(Parts(Block([ft], 2), []));
    assert LaidOut(BoolTemplate().fields[1..], 2, 2);
  }

  /** A header, and a field that holds 256. */
  function BoolBytes(): seq<Byte> {
    [2, 0, 1, 0, 1, 0, 0, 0, 0, 1]
  }

  /** Both accept the buffer; the decoder reads true from it and the view, whose Bool looks at the first byte, false. */
  lemma BoolDisagrees()
    ensures SoundTemplate(BoolTemplate()) && HeaderValid(BoolBytes(), BoolTemplate())
    ensures GroupsValid(BoolBytes()[10..], BoolTemplate().groups, 0)
    ensures DecodeMessage(BoolBytes(), BoolTemplate(), 0) == Some(Message([IntV(1)], []))
    ensures var v := ViewOf(BoolBytes(), BoolTemplate());
            ValidView(BoolBytes(), v) && Read(BoolBytes(), v, "f") == Some([0, 1])
  {
    hide DecodeBlock, LaidOut, Wire.FixedValue;
    BoolBinds();
    BoolBlock();
    var buf, t := BoolBytes(), BoolTemplate();
    assert buf[8..10] == [0, 1] && HeaderValid(buf, t);
    NoDecodedGroups(buf[10..], t.groups, 0);
    ViewAgreesWithDecoder(buf, t, 0);
    assert At(buf, FieldWindow(ViewOf(buf, t), t.fields[0])) == buf[8..10];
  }

  lemma BoolBlock()
    ensures LaidOut(BoolTemplate().fields, 0, 2) && DecodeBlock([0, 1], BoolTemplate().fields, 0, 2) == Some([IntV(1)])
  {
    var ft, w := BoolTemplate().fields[0], [0, 1];
    assert w[0..2] == w && w[1..] == [1] && [1][1..] == [];
    assert Wire.FixedValue([1]) == 1 + 0x100 * Wire.FixedValue([1][1..]);
    assert Wire.FixedValue(w) == 0 + 0x100 * Wire.FixedValue(w[1..]);
    assert DecodeField(ft, w[0..2]) == Some(IntV(1));
    assert BoolTemplate().fields[1..] == [] && LaidOut([], 2, 2) && DecodeBlock(w, [], 2, 2) == Some([]);
    assert [IntV(1)] + [] == [IntV(1)];
  }
}
