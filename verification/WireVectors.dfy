/**
Messages whose bytes the tests of the repository fix, among them every tag, width and field number of the
formats: test/pb_test.cc, test/sbe_codec_test.cc and test/sbe_stream_test.cc.
 */
module WireVectors {
  import opened Options
  import opened BigEndian
  import opened Wire
  import opened PbSchema
  import opened PbCodec
  import Decimals = DecimalWire
  import BigFloats = BigFloatWire
  import Floats = BigFloatParse
  import Framing

  // ---- Words ----

  lemma OneByte(v: nat)
    requires v < 0x80
    ensures Varint(v) == [v]
  {
  }

  lemma FixedStep(n: nat, v: nat)
    requires n > 0
    ensures Fixed(n, v) == [v % 0x100] + Fixed(n - 1, v / 0x100) && Fixed(0, v / 0x100) == []
  {
  }

  lemma NaN64()
    ensures Fixed(8, 0x7FF8_0000_0000_0000) == [0, 0, 0, 0, 0, 0, 0xF8, 0x7F]
  {
    hide Fixed;
    FixedStep(8, 0x7FF8_0000_0000_0000);
    FixedStep(7, 0x7F_F800_0000_0000);
    FixedStep(6, 0x7FF8_0000_0000);
    FixedStep(5, 0x7F_F800_0000);
    FixedStep(4, 0x7FF8_0000);
    FixedStep(3, 0x7F_F800);
    FixedStep(2, 0x7FF8);
    FixedStep(1, 0x7F);
  }

  lemma NaN32()
    ensures Fixed(4, 0x7FC0_0000) == [0, 0, 0xC0, 0x7F]
  {
    hide Fixed;
    FixedStep(4, 0x7FC0_0000);
    FixedStep(3, 0x7F_C000);
    FixedStep(2, 0x7FC0);
    FixedStep(1, 0x7F);
  }

  // ---- Struct fields ----

  lemma RecordIs(s: Schema, num: nat, t: ScalarType, zz: bool, v: PVal, depth: nat, p: seq<Byte>)
    requires num < 16 && Payload(s, t, zz, v, depth, 100) == Some(p)
    ensures Record(s, num, t, zz, v, depth, 100) == Some([8 * num + TypeCode(WireOf(t))] + p)
  {
    hide Payload, Varint;
    OneByte(8 * num + TypeCode(WireOf(t)));
  }

  /** NaNs of any payload and sign give the same bytes. */
  lemma NaNsWritten(s: Schema)
    ensures FieldBytes(s, FieldDef(1, Plain(DoubleT), false), PlainF(FloatP(0x7FF8_0000_0000_0001)), 0, 100)
            == Some([0x09, 0, 0, 0, 0, 0, 0, 0xF8, 0x7F])
    ensures FieldBytes(s, FieldDef(2, Plain(FloatT), false), PlainF(FloatP(0x7FC0_0001)), 0, 100)
            == Some([0x15, 0, 0, 0xC0, 0x7F])
  {
    hide Fixed, Record;
    NaN64();
    NaN32();
    RecordIs(s, 1, DoubleT, false, FloatP(0x7FF8_0000_0000_0001), 0, [0, 0, 0, 0, 0, 0, 0xF8, 0x7F]);
    RecordIs(s, 2, FloatT, false, FloatP(0x7FC0_0001), 0, [0, 0, 0xC0, 0x7F]);
    assert [0x09] + [0, 0, 0, 0, 0, 0, 0xF8, 0x7F] == [0x09, 0, 0, 0, 0, 0, 0, 0xF8, 0x7F];
    assert [0x15] + [0, 0, 0xC0, 0x7F] == [0x15, 0, 0, 0xC0, 0x7F];
  }

  // ---- Integers and strings ----

  lemma MinusOne()
    ensures Varint(0xFFFF_FFFF_FFFF_FFFF) == [0xFF, 0xFF, 0xFF, 0xFF, 0xFF, 0xFF, 0xFF, 0xFF, 0xFF, 0x01]
  {
    hide Varint;
    VarintStep(0xFFFF_FFFF_FFFF_FFFF);
    VarintStep(0x1FF_FFFF_FFFF_FFFF);
    VarintStep(0x3_FFFF_FFFF_FFFF);
    VarintStep(0x7FF_FFFF_FFFF);
    VarintStep(0xF_FFFF_FFFF);
    VarintStep(0x1FFF_FFFF);
    VarintStep(0x3F_FFFF);
    VarintStep(0x7FFF);
    VarintStep(0xFF);
    OneByte(1);
  }

  lemma VarintStep(v: nat)
    requires v >= 0x80
    ensures Varint(v) == [v % 0x80 + 0x80] + Varint(v / 0x80)
  {
  }

  /** An int64 of -1 takes ten bytes, a zigzag one a single byte. */
  lemma SignsWritten(s: Schema)
    ensures FieldBytes(s, FieldDef(1, Plain(SignedT(64)), false), PlainF(IntP(-1)), 0, 100)
            == Some([0x08, 0xFF, 0xFF, 0xFF, 0xFF, 0xFF, 0xFF, 0xFF, 0xFF, 0xFF, 0x01])
    ensures FieldBytes(s, FieldDef(2, Plain(SignedT(64)), true), PlainF(IntP(-1)), 0, 100) == Some([0x10, 0x01])
    ensures FieldBytes(s, FieldDef(2, Plain(SignedT(64)), true), PlainF(IntP(1)), 0, 100) == Some([0x10, 0x02])
  {
    hide Varint, Record;
    var ten: seq<Byte> := [0xFF, 0xFF, 0xFF, 0xFF, 0xFF, 0xFF, 0xFF, 0xFF, 0xFF, 0x01];
    MinusOne();
    OneByte(0x01);
    OneByte(0x02);
    RecordIs(s, 1, SignedT(64), false, IntP(-1), 0, ten);
    RecordIs(s, 2, SignedT(64), true, IntP(-1), 0, [0x01]);
    RecordIs(s, 2, SignedT(64), true, IntP(1), 0, [0x02]);
    assert [0x08] + ten == [0x08, 0xFF, 0xFF, 0xFF, 0xFF, 0xFF, 0xFF, 0xFF, 0xFF, 0xFF, 0x01];
    assert [0x10] + [0x01] == [0x10, 0x01] && [0x10] + [0x02] == [0x10, 0x02];
  }

  /** A false element of a packed list is written. */
  lemma FalseElement(s: Schema)
    ensures FieldBytes(s, FieldDef(2, Vec(BoolT), false), VecF([BoolP(false)]), 0, 100) == Some([0x12, 0x01, 0x00])
  {
    hide Varint;
    OneByte(0x12);
    OneByte(0x01);
    OneByte(0x00);
    var vs := [BoolP(false)];
    assert vs[1..] == [] && Packed(s, BoolT, false, [], 0, 100) == Some([]);
    assert [0x00] + [] == [0x00];
    assert Packed(s, BoolT, false, vs, 0, 100) == Some([0x00]);
    assert [0x12] + ([0x01] + [0x00]) == [0x12, 0x01, 0x00];
  }

  lemma EntryIs(s: Schema, num: nat, f: FieldDef, e: Pair, b: seq<Byte>)
    requires f.typ.MapOf? && f.number == num < 16 && EntryBytes(s, f, e, 1, 100) == Some(b) && |b| < 0x80
    ensures FieldBytes(s, f, MapF([e]), 0, 100) == Some([8 * num + 2, |b|] + b)
  {
    hide EntryBytes, Varint;
    OneByte(8 * num + 2);
    OneByte(|b|);
    assert [e][1..] == [] && MapBytes(s, f, [], 1, 100) == Some([]);
    assert [8 * num + 2] + ([|b|] + b) + [] == [8 * num + 2, |b|] + b;
  }

  /** So are a false key and a false value of a map. */
  lemma FalseEntry(s: Schema)
    ensures FieldBytes(s, FieldDef(1, MapOf(BoolT, BoolT, Bare), false),
                       MapF([Pair(BoolP(false), Some(BoolP(false)))]), 0, 100)
            == Some([0x0A, 0x04, 0x08, 0x00, 0x10, 0x00])
    ensures FieldBytes(s, FieldDef(3, MapOf(StringT, BoolT, Bare), false),
                       MapF([Pair(BytesP([0x61]), Some(BoolP(false)))]), 0, 100)
            == Some([0x1A, 0x05, 0x0A, 0x01, 0x61, 0x10, 0x00])
  {
    hide Varint, Record, FieldBytes;
    OneByte(0x00);
    OneByte(0x01);
    RecordIs(s, 1, BoolT, false, BoolP(false), 1, [0x00]);
    RecordIs(s, 2, BoolT, false, BoolP(false), 1, [0x00]);
    assert [0x01] + [0x61] == [0x01, 0x61];
    RecordIs(s, 1, StringT, false, BytesP([0x61]), 1, [0x01, 0x61]);
    var f, e := FieldDef(1, MapOf(BoolT, BoolT, Bare), false), Pair(BoolP(false), Some(BoolP(false)));
    var g, d := FieldDef(3, MapOf(StringT, BoolT, Bare), false), Pair(BytesP([0x61]), Some(BoolP(false)));
    assert [0x08] + [0x00] + ([0x10] + [0x00]) == [0x08, 0x00, 0x10, 0x00];
    assert [0x0A] + [0x01, 0x61] + ([0x10] + [0x00]) == [0x0A, 0x01, 0x61, 0x10, 0x00];
    EntryIs(s, 1, f, e, [0x08, 0x00, 0x10, 0x00]);
    EntryIs(s, 3, g, d, [0x0A, 0x01, 0x61, 0x10, 0x00]);
    assert [0x0A, 0x04] + [0x08, 0x00, 0x10, 0x00] == [0x0A, 0x04, 0x08, 0x00, 0x10, 0x00];
    assert [0x1A, 0x05] + [0x0A, 0x01, 0x61, 0x10, 0x00] == [0x1A, 0x05, 0x0A, 0x01, 0x61, 0x10, 0x00];
  }

  // ---- Big numbers ----

  lemma MantissaWritten()
    ensures BigFloats.BigFloatBytes(Floats.BigFloatFields([0xC8, 0, 0, 0, 0, 0, 0, 0], -64, 64, false))
            == [0x0A, 0x08, 0xC8, 0, 0, 0, 0, 0, 0, 0,
                0x10, 0xC0, 0xFF, 0xFF, 0xFF, 0xFF, 0xFF, 0xFF, 0xFF, 0xFF, 0x01, 0x18, 0x40]
  {
    hide Varint;
    MinusSixtyFour();
    OneByte(0x0A);
    OneByte(0x08);
    OneByte(0x10);
    OneByte(0x18);
    OneByte(0x40);
  }

  lemma ZerosWritten()
    ensures BigFloats.BigFloatBytes(Floats.BigFloatFields([], 0, 64, false)) == [0x18, 0x40]
    ensures BigFloats.BigFloatBytes(Floats.BigFloatFields([], 0, 0, true)) == [0x20, 0x01]
  {
    hide Varint;
    OneByte(0x18);
    OneByte(0x40);
    OneByte(0x20);
    OneByte(0x01);
  }

  lemma FiveWritten()
    ensures BigFloats.BigFloatBytes(Floats.BigFloatFields([0x05], 5, 3, false))
            == [0x0A, 0x01, 0x05, 0x10, 0x05, 0x18, 0x03]
  {
    hide Varint;
    OneByte(0x0A);
    OneByte(0x10);
    OneByte(0x18);
    OneByte(0x01);
    OneByte(0x03);
    OneByte(0x05);
  }

  lemma BigFloatsWritten()
    ensures BigFloats.BigFloatBytes(Floats.BigFloatFields([0xC8, 0, 0, 0, 0, 0, 0, 0], -64, 64, false))
            == [0x0A, 0x08, 0xC8, 0, 0, 0, 0, 0, 0, 0,
                0x10, 0xC0, 0xFF, 0xFF, 0xFF, 0xFF, 0xFF, 0xFF, 0xFF, 0xFF, 0x01, 0x18, 0x40]
    ensures BigFloats.BigFloatBytes(Floats.BigFloatFields([], 0, 64, false)) == [0x18, 0x40]
    ensures BigFloats.BigFloatBytes(Floats.BigFloatFields([], 0, 0, true)) == [0x20, 0x01]
    ensures BigFloats.BigFloatBytes(Floats.BigFloatFields([0x05], 5, 3, false))
            == [0x0A, 0x01, 0x05, 0x10, 0x05, 0x18, 0x03]
  {
    hide *;
    MantissaWritten();
    ZerosWritten();
    FiveWritten();
  }

  lemma MinusSixtyFour()
    ensures Varint(SignExtend(-64)) == [0xC0, 0xFF, 0xFF, 0xFF, 0xFF, 0xFF, 0xFF, 0xFF, 0xFF, 0x01]
  {
    hide Varint;
    VarintStep(0xFFFF_FFFF_FFFF_FFC0);
    VarintStep(0x1FF_FFFF_FFFF_FFFF);
    VarintStep(0x3_FFFF_FFFF_FFFF);
    VarintStep(0x7FF_FFFF_FFFF);
    VarintStep(0xF_FFFF_FFFF);
    VarintStep(0x1FFF_FFFF);
    VarintStep(0x3F_FFFF);
    VarintStep(0x7FFF);
    VarintStep(0xFF);
    OneByte(1);
  }

  lemma DecimalsWritten()
    ensures Decimals.DecimalBytes(Decimals.DecimalNum([0x01], 0, false)) == [0x0A, 0x01, 0x01]
    ensures Decimals.DecimalBytes(Decimals.DecimalNum([0x01, 0xF4], 0, false)) == [0x0A, 0x02, 0x01, 0xF4]
    ensures Decimals.DecimalBytes(Decimals.DecimalNum([0x05], 2, true)) == [0x0A, 0x01, 0x05, 0x10, 0x02, 0x18, 0x01]
  {
    hide Varint;
    OneByte(0x0A);
    OneByte(0x10);
    OneByte(0x18);
    OneByte(0x01);
    OneByte(0x02);
  }

  // ---- Frames ----

  /** Three bytes in a frame of either format. */
  lemma FramesWritten()
    ensures Framing.FrameBytes(Framing.Prefixed, [1, 2, 3]) == [3, 1, 2, 3]
    ensures Framing.FrameBytes(Framing.Sofh, [1, 2, 3]) == [0, 0, 0, 9, 0xEB, 0x50, 1, 2, 3]
  {
    OneByte(3);
  }
}
