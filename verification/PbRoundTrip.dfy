/**
Whatever Marshal writes at a depth limit, Unmarshal accepts at that limit and gives the value
back, up to the zeros a plain field leaves out, NaN payloads and unset map values.
 */
module PbRoundTrip {
  import opened Options
  import opened Powers
  import opened BigEndian
  import opened Wire
  import opened Utf8
  import opened PbSchema
  import opened PbCodec

  // ---- Within the count limit ----

  ghost predicate Small(v: PVal, n: nat)
    decreases v
  {
    v.StructP? ==> SmallFields(v.fields, n)
  }

  ghost predicate SmallFields(vs: seq<FVal>, n: nat)
    decreases vs
  {
    vs == [] || (SmallField(vs[0], n) && SmallFields(vs[1..], n))
  }

  ghost predicate SmallField(v: FVal, n: nat)
    decreases v
  {
    match v
    case PlainF(x) => Small(x, n)
    case OptF(o) => o.Some? ==> Small(o.value, n)
    case VecF(vs) => |vs| <= n && SmallAll(vs, n)
    case MapF(es) => |es| <= n && SmallPairs(es, n)
  }

  ghost predicate SmallAll(vs: seq<PVal>, n: nat)
    decreases vs
  {
    vs == [] || (Small(vs[0], n) && SmallAll(vs[1..], n))
  }

  ghost predicate SmallPairs(es: seq<Pair>, n: nat)
    decreases es
  {
    es == [] || (SmallPair(es[0], n) && SmallPairs(es[1..], n))
  }

  ghost predicate SmallPair(e: Pair, n: nat)
    decreases e
  {
    e.val.Some? ==> Small(e.val.value, n)
  }

  // ---- Zero values ----

  lemma {:induction false} ZeroFieldsAt(s: Schema, i: nat, fs: seq<FieldDef>, k: nat)
    requires k < |fs|
    ensures ZeroFields(s, i, fs)[k] == ZeroField(s, i, fs[k])
    decreases |fs|
  {
    if k > 0 {
      ZeroFieldsAt(s, i, fs[1..], k - 1);
    }
  }

  /** A default-constructed value is typed, within any limit, and its own normal form. */
  lemma {:induction false} ZeroIs(s: Schema, t: ScalarType, n: nat)
    requires SchemaOk(s) && ScalarOk(s, t)
    ensures Typed(s, t, Zero(s, t)) && Small(Zero(s, t), n) && Norm(s, t, Zero(s, t)) == Zero(s, t)
  {
    if t.StructT? {
      assert StructOk(s, t.i);
      ZeroFieldsAre(s, t.i, s[t.i], n);
    }
  }

  lemma {:induction false} ZeroFieldsAre(s: Schema, i: nat, fs: seq<FieldDef>, n: nat)
    requires SchemaOk(s) && i < |s| && forall k :: 0 <= k < |fs| ==> FieldOk(s, fs[k]) && Complete(fs[k], i)
    ensures var z := ZeroFields(s, i, fs);
            TypedFields(s, fs, z) && SmallFields(z, n) && NormFields(s, fs, z) == z
    decreases i, |fs|, 1
  {
    hide Typed, Small, Norm, SchemaOk, FieldOk, Complete;
    if fs != [] {
      assert FieldOk(s, fs[0]) && Complete(fs[0], i);
      ZeroFieldIs(s, i, fs[0], n);
      ZeroFieldsAre(s, i, fs[1..], n);
      var z := ZeroFields(s, i, fs);
      assert z[0] == ZeroField(s, i, fs[0]) && z[1..] == ZeroFields(s, i, fs[1..]);
    }
  }

  lemma {:induction false} ZeroFieldIs(s: Schema, i: nat, f: FieldDef, n: nat)
    requires SchemaOk(s) && i < |s| && FieldOk(s, f) && Complete(f, i)
    ensures var z := ZeroField(s, i, f); TypedField(s, f, z) && SmallField(z, n) && NormField(s, f, z) == z
    decreases i, 0, 0
  {
    if f.typ.Plain? && f.typ.t.StructT? {
      var j := f.typ.t.i;
      assert StructOk(s, j);
      ZeroFieldsAre(s, j, s[j], n);
    }
  }

  // ---- Integers ----

  lemma SignedReads(bits: nat, i: int)
    requires bits == 8 || bits == 16 || bits == 32 || bits == 64
    requires -SignedLimit(bits) <= i < SignedLimit(bits)
    ensures 0 <= Bits64(i) < 0x1_0000_0000_0000_0000 && 0 <= ZigZag(i) < 0x1_0000_0000_0000_0000
    ensures ToSigned(bits, Bits64(i)) == i && ToSigned(bits, UnZigZag(ZigZag(i))) == i
  {
    hide ToSigned;
    SignedWraps(bits, i);
    if i < 0 {
      SignedTurns(bits, i);
    }
  }

  /** 2^64 is a multiple of every width, so that adding it changes nothing. */
  lemma SignedTurns(bits: nat, i: int)
    requires bits == 8 || bits == 16 || bits == 32 || bits == 64
    requires -SignedLimit(bits) <= i < 0
    ensures ToSigned(bits, i + 0x1_0000_0000_0000_0000) == i
  {
    var w := 2 * SignedLimit(bits);
    DivUnique(i + 0x1_0000_0000_0000_0000, w, 0x1_0000_0000_0000_0000 / w - 1, i + w);
  }

  lemma SignedWraps(bits: nat, i: int)
    requires -SignedLimit(bits) <= i < SignedLimit(bits)
    ensures ToSigned(bits, i) == i
  {
    var w := 2 * SignedLimit(bits);
    if i < 0 {
      assert i % w == i + w;
    }
  }

  lemma UnsignedReads(bits: nat, i: int)
    requires 0 <= i < 2 * SignedLimit(bits)
    ensures ToUnsigned(bits, i) == i
  {
  }

  // ---- Scalars ----

  /** A written scalar that is not a struct, read back from in front of anything. */
  lemma {:induction false} PlainReads(s: Schema, t: ScalarType, zz: bool, v: PVal, cur: PVal, rest: seq<Byte>,
                                      depth: nat, lim: Limits)
    requires ScalarOk(s, t) && !t.StructT? && Typed(s, t, v)
    ensures var p := Payload(s, t, zz, v, depth, lim.maxDepth);
            p.Some? && ReadScalar(s, t, zz, p.value + rest, cur, depth, lim) == Got(Norm(s, t, v), |p.value|)
  {
    hide Varint, ReadVarint, Bytes, ReadBytes, Fixed, FixedValue, ValidUtf8;
    match t {
      case BoolT => VarintReads(if v.b then 1 else 0, rest);
      case SignedT(bits) =>
        SignedReads(bits, v.i);
        VarintReads(if zz then ZigZag(v.i) else Bits64(v.i), rest);
      case UnsignedT(bits) =>
        UnsignedReads(bits, v.i);
        VarintReads(v.i, rest);
      case DoubleT =>
        FixedWidths();
        FixedReads(8, DoubleBits(v.bits), rest);
      case FloatT =>
        FixedWidths();
        FixedReads(4, FloatBits(v.bits), rest);
      case StringT => BytesRead(v.s, rest);
      case BytesT => BytesRead(v.s, rest);
    }
  }

  lemma FixedWidths()
    ensures Pow(0x100, 4) == 0x1_0000_0000 && Pow(0x100, 8) == 0x1_0000_0000_0000_0000
  {
    assert Pow(0x100, 2) == 0x1_0000;
    PowAdd(0x100, 2, 2);
    PowAdd(0x100, 4, 4);
  }

  const SIZE_LIMIT: int := 0x1_0000_0000_0000_0000

  lemma {:induction false} ScalarReads(s: Schema, t: ScalarType, zz: bool, v: PVal, rest: seq<Byte>, depth: nat,
                                       lim: Limits)
    requires SchemaOk(s) && ScalarOk(s, t) && Typed(s, t, v) && Small(v, lim.maxRepeated)
    requires Payload(s, t, zz, v, depth, lim.maxDepth).Some?
    requires |Payload(s, t, zz, v, depth, lim.maxDepth).value| < SIZE_LIMIT
    ensures var p := Payload(s, t, zz, v, depth, lim.maxDepth).value;
            ReadScalar(s, t, zz, p + rest, Zero(s, t), depth, lim) == Got(Norm(s, t, v), |p|)
    decreases Room(depth, lim.maxDepth), 0
  {
    hide SchemaOk, StructBytes, ReadStruct, NormFields, ZeroFields, Bytes, ReadBytes, SmallFields, TypedFields;
    if t.StructT? {
      var b := StructBytes(s, t.i, v.fields, depth + 1, lim.maxDepth).value;
      BytesLonger(b);
      StructReads(s, t.i, v.fields, depth + 1, lim);
      BytesRead(b, rest);
    } else {
      PlainReads(s, t, zz, v, Zero(s, t), rest, depth, lim);
    }
  }

  lemma BytesLonger(b: seq<Byte>)
    ensures |b| < |Bytes(b)|
  {
  }

  // ---- Structs ----

  lemma {:induction false} StructReads(s: Schema, i: nat, vs: seq<FVal>, depth: nat, lim: Limits)
    requires SchemaOk(s) && i < |s| && TypedFields(s, s[i], vs) && SmallFields(vs, lim.maxRepeated)
    requires StructBytes(s, i, vs, depth, lim.maxDepth).Some?
    requires |StructBytes(s, i, vs, depth, lim.maxDepth).value| < SIZE_LIMIT
    ensures ReadStruct(s, i, StructBytes(s, i, vs, depth, lim.maxDepth).value, ZeroFields(s, i, s[i]), depth, lim)
            == Some(NormFields(s, s[i], vs))
    decreases Room(depth, lim.maxDepth), 6
  {
    hide SchemaOk, FieldsBytes, ReadRecords, NormFields, ZeroFields, TypedFields, SmallFields;
    TypedCount(s, s[i], vs);
    MixedEnds(s, i, vs);
    assert s[i][0..] == s[i] && vs[0..] == vs;
    FieldsRead(s, i, vs, 0, depth, lim);
  }

  lemma {:induction false} TypedCount(s: Schema, fs: seq<FieldDef>, vs: seq<FVal>)
    requires TypedFields(s, fs, vs)
    ensures |vs| == |fs|
    decreases |fs|
  {
    if fs != [] {
      TypedCount(s, fs[1..], vs[1..]);
    }
  }

  /** The first k fields read, the rest still zero. */
  ghost function Mixed(s: Schema, i: nat, vs: seq<FVal>, k: nat): (r: seq<FVal>)
    requires i < |s| && |vs| == |s[i]| && k <= |vs|
    ensures |r| == |vs|
  {
    NormFields(s, s[i], vs)[..k] + ZeroFields(s, i, s[i])[k..]
  }

  lemma MixedEnds(s: Schema, i: nat, vs: seq<FVal>)
    requires i < |s| && |vs| == |s[i]|
    ensures Mixed(s, i, vs, 0) == ZeroFields(s, i, s[i]) && Mixed(s, i, vs, |vs|) == NormFields(s, s[i], vs)
  {
  }

  lemma {:induction false} NormFieldsAt(s: Schema, fs: seq<FieldDef>, vs: seq<FVal>, k: nat)
    requires k < |vs| == |fs|
    ensures NormFields(s, fs, vs)[k] == NormField(s, fs[k], vs[k])
    decreases |fs|
  {
    hide NormField;
    if k > 0 {
      NormFieldsAt(s, fs[1..], vs[1..], k - 1);
    }
  }

  lemma MixedNext(s: Schema, i: nat, vs: seq<FVal>, k: nat)
    requires i < |s| && |vs| == |s[i]| && k < |vs|
    ensures Mixed(s, i, vs, k)[k] == ZeroField(s, i, s[i][k])
    ensures Mixed(s, i, vs, k)[k := NormField(s, s[i][k], vs[k])] == Mixed(s, i, vs, k + 1)
  {
    hide NormFields, ZeroFields, NormField, ZeroField;
    NormFieldsAt(s, s[i], vs, k);
    ZeroFieldsAt(s, i, s[i], k);
    var n, z := NormFields(s, s[i], vs), ZeroFields(s, i, s[i]);
    assert n[..k + 1] == n[..k] + [n[k]] && z[k..] == [z[k]] + z[k + 1..];
  }

  /** The fields from k on, read over a struct whose first k fields are in place. */
  lemma {:induction false} FieldsRead(s: Schema, i: nat, vs: seq<FVal>, k: nat, depth: nat, lim: Limits)
    requires SchemaOk(s) && i < |s| && depth <= lim.maxDepth && k <= |vs| == |s[i]|
    requires TypedFields(s, s[i][k..], vs[k..]) && SmallFields(vs[k..], lim.maxRepeated)
    requires FieldsBytes(s, s[i][k..], vs[k..], depth, lim.maxDepth).Some?
    requires |FieldsBytes(s, s[i][k..], vs[k..], depth, lim.maxDepth).value| < SIZE_LIMIT
    ensures ReadRecords(s, s[i], FieldsBytes(s, s[i][k..], vs[k..], depth, lim.maxDepth).value, Mixed(s, i, vs, k),
                        depth, lim)
            == Some(Mixed(s, i, vs, |vs|))
    decreases Room(depth, lim.maxDepth), 5, |vs| - k
  {
    hide SchemaOk, FieldBytes, ReadRecords, Mixed, TypedField, SmallField, NormField, ZeroField, FieldOk;
    var fs := s[i];
    if k == |vs| {
      NoRecords(s, fs, Mixed(s, i, vs, k), depth, lim);
    } else {
      assert fs[k..][0] == fs[k] && fs[k..][1..] == fs[k + 1..] && vs[k..][0] == vs[k] && vs[k..][1..] == vs[k + 1..];
      var b := FieldBytes(s, fs[k], vs[k], depth, lim.maxDepth).value;
      var rest := FieldsBytes(s, fs[k + 1..], vs[k + 1..], depth, lim.maxDepth).value;
      MixedNext(s, i, vs, k);
      FieldReads(s, i, k, vs[k], Mixed(s, i, vs, k), rest, depth, lim);
      FieldsRead(s, i, vs, k + 1, depth, lim);
    }
  }

  lemma NoRecords(s: Schema, fs: seq<FieldDef>, cur: seq<FVal>, depth: nat, lim: Limits)
    requires |cur| == |fs|
    ensures ReadRecords(s, fs, [], cur, depth, lim) == Some(cur)
  {
  }

  lemma {:induction false} NumberFound(s: Schema, i: nat, k: nat)
    requires SchemaOk(s) && i < |s| && k < |s[i]|
    ensures FindNumber(s[i], s[i][k].number) == k && FieldOk(s, s[i][k])
  {
    assert StructOk(s, i);
    var j := FindNumber(s[i], s[i][k].number);
    FirstFound(s[i], k);
  }

  lemma {:induction false} FirstFound(fs: seq<FieldDef>, k: nat)
    requires k < |fs|
    ensures FindNumber(fs, fs[k].number) <= k
    decreases k
  {
    if k > 0 && fs[0].number != fs[k].number {
      FirstFound(fs[1..], k - 1);
    }
  }

  /** One record of field k, and then what follows it. */
  lemma {:induction false} RecordReads(s: Schema, i: nat, k: nat, typ: WireType, p: seq<Byte>, rest: seq<Byte>,
                                       cur: seq<FVal>, x: FVal, depth: nat, lim: Limits)
    requires SchemaOk(s) && i < |s| && k < |s[i]| == |cur|
    requires ReadField(s, s[i][k], p + rest, typ, cur[k], depth, lim) == Got(x, |p|)
    ensures ReadRecords(s, s[i], TagBytes(s[i][k].number, typ) + p + rest, cur, depth, lim)
            == ReadRecords(s, s[i], rest, cur[k := x], depth, lim)
  {
    hide SchemaOk, ReadField, TagBytes, ReadTag, FindNumber, FieldOk;
    NumberFound(s, i, k);
    var num := s[i][k].number;
    assert ValidNumber(num) by { FieldNumber(s, s[i][k]); }
    var tag := TagBytes(num, typ);
    TagReads(num, typ, p + rest);
    assert tag + p + rest == tag + (p + rest);
    assert (tag + (p + rest))[|tag|..] == p + rest && (p + rest)[|p|..] == rest;
  }

  lemma FieldNumber(s: Schema, f: FieldDef)
    requires FieldOk(s, f)
    ensures ValidNumber(f.number)
  {
  }

  /** All the records of field k, read over its zero value. */
  lemma {:induction false} FieldReads(s: Schema, i: nat, k: nat, v: FVal, cur: seq<FVal>, rest: seq<Byte>, depth: nat,
                                      lim: Limits)
    requires SchemaOk(s) && i < |s| && k < |s[i]| == |cur| && cur[k] == ZeroField(s, i, s[i][k])
             && depth <= lim.maxDepth
    requires TypedField(s, s[i][k], v) && SmallField(v, lim.maxRepeated)
    requires FieldBytes(s, s[i][k], v, depth, lim.maxDepth).Some?
    requires |FieldBytes(s, s[i][k], v, depth, lim.maxDepth).value| < SIZE_LIMIT
    ensures ReadRecords(s, s[i], FieldBytes(s, s[i][k], v, depth, lim.maxDepth).value + rest, cur, depth, lim)
            == ReadRecords(s, s[i], rest, cur[k := NormField(s, s[i][k], v)], depth, lim)
    decreases Room(depth, lim.maxDepth), 4
  {
    hide SchemaOk, ReadRecords, ReadScalar, Payload, Packed, Records, MapBytes, Typed, TypedAll, Small, SmallAll,
         SmallPairs, TypedPairs;
    hide Norm, NormAll, NormPairs, TagBytes, Bytes, DistinctKeys;
    var f := s[i][k];
    var b := FieldBytes(s, f, v, depth, lim.maxDepth).value;
    NumberFound(s, i, k);
    if b == [] {
      assert b + rest == rest;
      EmptyField(s, i, f, v, depth, lim.maxDepth);
      assert cur[k := cur[k]] == cur;
    } else {
      match f.typ {
        case Plain(t) => SingleReads(s, i, k, t, v.v, cur, rest, depth, lim);
        case Opt(t) => SingleReads(s, i, k, t, v.o.value, cur, rest, depth, lim);
        case Ptr(t) => SingleReads(s, i, k, t, v.o.value, cur, rest, depth, lim);
        case Vec(t) =>
          if Packable(t) {
            BytesLonger(Packed(s, t, f.zigzag, v.vs, depth, lim.maxDepth).value);
            PackedField(s, i, k, v.vs, cur, rest, depth, lim);
          } else {
            assert [] + NormAll(s, t, v.vs) == NormAll(s, t, v.vs);
            RecordsRead(s, i, k, v.vs, [], cur, rest, depth, lim);
          }
        case MapOf(_, t, _) =>
          assert [] + NormPairs(s, t, v.es) == NormPairs(s, t, v.es);
          MapReads(s, i, k, v.es, [], cur, rest, depth, lim);
      }
    }
  }

  /** A field with nothing written is read back as its zero. */
  lemma {:induction false} EmptyField(s: Schema, i: nat, f: FieldDef, v: FVal, depth: nat, max: nat)
    requires FieldBytes(s, f, v, depth, max) == Some([]) && TypedField(s, f, v)
    ensures NormField(s, f, v) == ZeroField(s, i, f)
  {
    hide Payload, Packed, Typed, Norm;
    if f.typ.Vec? && v.vs != [] && !Packable(f.typ.t) {
      FirstRecord(s, f.number, f.typ.t, f.zigzag, v.vs, depth, max);
    }
    if f.typ.MapOf? && v.es != [] && depth + 1 <= max {
      FirstEntry(s, f, v.es, depth + 1, max);
    }
  }

  lemma FirstRecord(s: Schema, num: nat, t: ScalarType, zz: bool, vs: seq<PVal>, depth: nat, max: nat)
    requires vs != []
    ensures Records(s, num, t, zz, vs, depth, max) != Some([])
  {
    hide Payload;
  }

  lemma FirstEntry(s: Schema, f: FieldDef, es: seq<Pair>, depth: nat, max: nat)
    requires es != [] && f.typ.MapOf?
    ensures MapBytes(s, f, es, depth, max) != Some([])
  {
    hide EntryBytes;
  }

  /** A field that holds one value: plain, optional or boxed. */
  lemma {:induction false} SingleReads(s: Schema, i: nat, k: nat, t: ScalarType, v: PVal, cur: seq<FVal>,
                                       rest: seq<Byte>, depth: nat, lim: Limits)
    requires SchemaOk(s) && i < |s| && k < |s[i]| == |cur| && cur[k] == ZeroField(s, i, s[i][k])
    requires var f := s[i][k].typ; f == Plain(t) || f == Opt(t) || f == Ptr(t)
    requires Typed(s, t, v) && Small(v, lim.maxRepeated)
    requires Record(s, s[i][k].number, t, s[i][k].zigzag, v, depth, lim.maxDepth).Some?
    requires |Record(s, s[i][k].number, t, s[i][k].zigzag, v, depth, lim.maxDepth).value| < SIZE_LIMIT
    ensures var x := if s[i][k].typ.Plain? then PlainF(Norm(s, t, v)) else OptF(Some(Norm(s, t, v)));
            ReadRecords(s, s[i], Record(s, s[i][k].number, t, s[i][k].zigzag, v, depth, lim.maxDepth).value + rest,
                        cur, depth, lim)
            == ReadRecords(s, s[i], rest, cur[k := x], depth, lim)
    decreases Room(depth, lim.maxDepth), 2
  {
    hide SchemaOk, ReadRecords, ReadScalar, Payload, Typed, Small, Norm, TagBytes, Zero, ZeroField;
    var f := s[i][k];
    NumberFound(s, i, k);
    var p := Payload(s, t, f.zigzag, v, depth, lim.maxDepth).value;
    ScalarReads(s, t, f.zigzag, v, rest, depth, lim);
    PlainZero(s, i, k, t);
    var x := if f.typ.Plain? then PlainF(Norm(s, t, v)) else OptF(Some(Norm(s, t, v)));
    RecordReads(s, i, k, WireOf(t), p, rest, cur, x, depth, lim);
  }

  lemma PlainZero(s: Schema, i: nat, k: nat, t: ScalarType)
    requires SchemaOk(s) && i < |s| && k < |s[i]|
    ensures s[i][k].typ == Plain(t) ==> ZeroField(s, i, s[i][k]) == PlainF(Zero(s, t))
    ensures s[i][k].typ == Opt(t) || s[i][k].typ == Ptr(t) ==> ZeroField(s, i, s[i][k]) == OptF(None)
  {
    assert StructOk(s, i);
    assert FieldOk(s, s[i][k]) && Complete(s[i][k], i);
  }

  // ---- Lists ----

  lemma {:induction false} PackedReads(s: Schema, t: ScalarType, zz: bool, vs: seq<PVal>, done: seq<PVal>, depth: nat,
                                       lim: Limits)
    requires ScalarOk(s, t) && Packable(t) && TypedAll(s, t, vs) && |done| + |vs| <= lim.maxRepeated
    requires Packed(s, t, zz, vs, depth, lim.maxDepth).Some?
    ensures ReadPacked(s, t, zz, Packed(s, t, zz, vs, depth, lim.maxDepth).value, done, depth, lim)
            == Some(done + NormAll(s, t, vs))
    decreases |vs|
  {
    hide Payload, ReadScalar, Typed, Norm, Zero;
    if vs == [] {
      assert done + [] == done;
    } else {
      var p := Payload(s, t, zz, vs[0], depth, lim.maxDepth).value;
      var more := Packed(s, t, zz, vs[1..], depth, lim.maxDepth).value;
      PlainReads(s, t, zz, vs[0], Zero(s, t), more, depth, lim);
      PackedReads(s, t, zz, vs[1..], done + [Norm(s, t, vs[0])], depth, lim);
      assert (p + more)[|p|..] == more;
      assert (done + [Norm(s, t, vs[0])]) + NormAll(s, t, vs[1..]) == done + NormAll(s, t, vs);
    }
  }

  lemma {:induction false} PackedField(s: Schema, i: nat, k: nat, vs: seq<PVal>, cur: seq<FVal>, rest: seq<Byte>,
                                       depth: nat, lim: Limits)
    requires SchemaOk(s) && i < |s| && k < |s[i]| == |cur| && cur[k] == VecF([])
    requires s[i][k].typ.Vec? && Packable(s[i][k].typ.t) && TypedAll(s, s[i][k].typ.t, vs) && |vs| <= lim.maxRepeated
    requires Packed(s, s[i][k].typ.t, s[i][k].zigzag, vs, depth, lim.maxDepth).Some?
    requires |Packed(s, s[i][k].typ.t, s[i][k].zigzag, vs, depth, lim.maxDepth).value| < SIZE_LIMIT
    ensures var f := s[i][k];
            var b := TagBytes(f.number, BytesType) + Bytes(Packed(s, f.typ.t, f.zigzag, vs, depth, lim.maxDepth).value);
            ReadRecords(s, s[i], b + rest, cur, depth, lim)
            == ReadRecords(s, s[i], rest, cur[k := VecF(NormAll(s, f.typ.t, vs))], depth, lim)
  {
    hide SchemaOk, ReadRecords, Packed, ReadPacked, TypedAll, NormAll, TagBytes, Bytes, ReadBytes, ReadScalar;
    var f := s[i][k];
    NumberFound(s, i, k);
    var p := Packed(s, f.typ.t, f.zigzag, vs, depth, lim.maxDepth).value;
    PackedReads(s, f.typ.t, f.zigzag, vs, [], depth, lim);
    assert [] + NormAll(s, f.typ.t, vs) == NormAll(s, f.typ.t, vs);
    BytesRead(p, rest);
    RecordReads(s, i, k, BytesType, Bytes(p), rest, cur, VecF(NormAll(s, f.typ.t, vs)), depth, lim);
  }

  /** One record for each element, over those already read; a type that is packed may come so too. */
  lemma {:induction false} RecordsRead(s: Schema, i: nat, k: nat, vs: seq<PVal>, done: seq<PVal>, cur: seq<FVal>,
                                       rest: seq<Byte>, depth: nat, lim: Limits)
    requires SchemaOk(s) && i < |s| && k < |s[i]| == |cur| && cur[k] == VecF(done)
    requires s[i][k].typ.Vec?
    requires TypedAll(s, s[i][k].typ.t, vs) && SmallAll(vs, lim.maxRepeated) && |done| + |vs| <= lim.maxRepeated
    requires Records(s, s[i][k].number, s[i][k].typ.t, s[i][k].zigzag, vs, depth, lim.maxDepth).Some?
    requires |Records(s, s[i][k].number, s[i][k].typ.t, s[i][k].zigzag, vs, depth, lim.maxDepth).value| < SIZE_LIMIT
    ensures var f := s[i][k];
            ReadRecords(s, s[i], Records(s, f.number, f.typ.t, f.zigzag, vs, depth, lim.maxDepth).value + rest, cur,
                        depth, lim)
            == ReadRecords(s, s[i], rest, cur[k := VecF(done + NormAll(s, f.typ.t, vs))], depth, lim)
    decreases Room(depth, lim.maxDepth), 2, |vs|
  {
    hide SchemaOk, ReadRecords, ReadScalar, Payload, Typed, Small, Norm, TagBytes, Zero;
    var f := s[i][k];
    NumberFound(s, i, k);
    var t := f.typ.t;
    if vs == [] {
      assert [] + rest == rest && done + [] == done && cur[k := cur[k]] == cur;
    } else {
      var p := Payload(s, t, f.zigzag, vs[0], depth, lim.maxDepth).value;
      var more := Records(s, f.number, t, f.zigzag, vs[1..], depth, lim.maxDepth).value;
      var tag := TagBytes(f.number, WireOf(t));
      var next := done + [Norm(s, t, vs[0])];
      ScalarReads(s, t, f.zigzag, vs[0], more + rest, depth, lim);
      RecordReads(s, i, k, WireOf(t), p, more + rest, cur, VecF(next), depth, lim);
      assert (tag + p + more) + rest == tag + p + (more + rest);
      RecordsRead(s, i, k, vs[1..], next, cur[k := VecF(next)], rest, depth, lim);
      assert next + NormAll(s, t, vs[1..]) == done + NormAll(s, t, vs);
      assert cur[k := VecF(next)][k := VecF(done + NormAll(s, t, vs))] == cur[k := VecF(done + NormAll(s, t, vs))];
    }
  }

  // ---- Maps ----

  /** A map key is its own normal form. */
  lemma KeyNorm(s: Schema, t: ScalarType, v: PVal)
    requires KeyOk(t)
    ensures Norm(s, t, v) == v
  {
  }

  lemma {:induction false} EntryReads(s: Schema, f: FieldDef, e: Pair, depth: nat, lim: Limits)
    requires SchemaOk(s) && FieldOk(s, f) && f.typ.MapOf? && TypedPair(s, f.typ.k, f.typ.v, f.typ.held, e)
    requires SmallPair(e, lim.maxRepeated) && EntryBytes(s, f, e, depth, lim.maxDepth).Some?
    requires |EntryBytes(s, f, e, depth, lim.maxDepth).value| < SIZE_LIMIT
    ensures ReadEntry(s, f, EntryBytes(s, f, e, depth, lim.maxDepth).value,
                      Pair(Zero(s, f.typ.k), FreshValue(s, f.typ.v, f.typ.held)), depth, lim)
            == Some(NormPair(s, f.typ.v, e))
    decreases Room(depth, lim.maxDepth), 3
  {
    hide SchemaOk, ReadScalar, Payload, Typed, Small, Norm, Zero, TagBytes, ReadTag, ReadEntry;
    var k, t := f.typ.k, f.typ.v;
    var val := if e.val.Some? then e.val.value else Zero(s, t);
    var p := Payload(s, k, f.zigzag, e.key, depth, lim.maxDepth).value;
    var q := Payload(s, t, f.zigzag, val, depth, lim.maxDepth).value;
    ZeroIs(s, t, lim.maxRepeated);
    KeyNorm(s, k, e.key);
    KeySmall(s, k, e.key, lim.maxRepeated);
    var one, two := TagBytes(1, WireOf(k)), TagBytes(2, WireOf(t));
    ScalarReads(s, k, f.zigzag, e.key, two + q, depth, lim);
    ScalarReads(s, t, f.zigzag, val, [], depth, lim);
    assert q + [] == q;
    var fresh0 := Pair(Zero(s, k), FreshValue(s, t, f.typ.held));
    EntryKey(s, f, p, two + q, fresh0, depth, lim, e.key);
    EntryValue(s, f, q, [], fresh0.(key := e.key), depth, lim, Norm(s, t, val));
    assert two + q + [] == two + q;
    assert (one + p) + (two + q) == one + p + (two + q);
    EntryEnd(s, f, Pair(e.key, Some(Norm(s, t, val))), depth, lim);
  }

  lemma KeySmall(s: Schema, t: ScalarType, v: PVal, n: nat)
    requires KeyOk(t) && Typed(s, t, v)
    ensures Small(v, n)
  {
  }

  lemma EntryEnd(s: Schema, f: FieldDef, e: Pair, depth: nat, lim: Limits)
    requires f.typ.MapOf?
    ensures ReadEntry(s, f, [], e, depth, lim) == Some(e)
  {
  }

  lemma EntryKey(s: Schema, f: FieldDef, p: seq<Byte>, rest: seq<Byte>, e: Pair, depth: nat, lim: Limits, x: PVal)
    requires f.typ.MapOf? && ReadScalar(s, f.typ.k, f.zigzag, p + rest, e.key, depth, lim) == Got(x, |p|)
    ensures ReadEntry(s, f, TagBytes(1, WireOf(f.typ.k)) + p + rest, e, depth, lim)
            == ReadEntry(s, f, rest, e.(key := x), depth, lim)
  {
    hide ReadScalar, TagBytes, ReadTag, Zero, FieldSize;
    var tag := TagBytes(1, WireOf(f.typ.k));
    TagReads(1, WireOf(f.typ.k), p + rest);
    assert tag + p + rest == tag + (p + rest);
    assert (tag + (p + rest))[|tag|..] == p + rest && (p + rest)[|p|..] == rest;
  }

  lemma EntryValue(s: Schema, f: FieldDef, q: seq<Byte>, rest: seq<Byte>, e: Pair, depth: nat, lim: Limits, x: PVal)
    requires f.typ.MapOf?
    requires ReadScalar(s, f.typ.v, f.zigzag, q + rest, ValueUnder(s, f.typ.v, f.typ.held, e.val), depth, lim)
             == Got(x, |q|)
    ensures ReadEntry(s, f, TagBytes(2, WireOf(f.typ.v)) + q + rest, e, depth, lim)
            == ReadEntry(s, f, rest, e.(val := Some(x)), depth, lim)
  {
    hide ReadScalar, TagBytes, ReadTag, Zero, FieldSize;
    var tag := TagBytes(2, WireOf(f.typ.v));
    TagReads(2, WireOf(f.typ.v), q + rest);
    assert tag + q + rest == tag + (q + rest);
    assert (tag + (q + rest))[|tag|..] == q + rest && (q + rest)[|q|..] == rest;
  }

  lemma {:induction false} InsertNew(es: seq<Pair>, e: Pair)
    requires !HasKey(es, e.key)
    ensures Insert(es, e) == es + [e]
    decreases |es|
  {
    if es != [] {
      assert es[0].key != e.key;
      forall i | 0 <= i < |es| - 1
        ensures es[1..][i].key != e.key
      {
        assert es[i + 1].key != e.key;
      }
      InsertNew(es[1..], e);
    }
  }

  /** None of the keys still to come is among those read. */
  ghost predicate NewKeys(done: seq<Pair>, es: seq<Pair>) {
    forall i, j :: 0 <= i < |done| && 0 <= j < |es| ==> done[i].key != es[j].key
  }

  lemma {:induction false} MapReads(s: Schema, i: nat, k: nat, es: seq<Pair>, done: seq<Pair>, cur: seq<FVal>,
                                    rest: seq<Byte>, depth: nat, lim: Limits)
    requires SchemaOk(s) && i < |s| && k < |s[i]| == |cur| && cur[k] == MapF(done) && depth < lim.maxDepth
    requires s[i][k].typ.MapOf? && TypedPairs(s, s[i][k].typ.k, s[i][k].typ.v, s[i][k].typ.held, es)
    requires SmallPairs(es, lim.maxRepeated) && |done| + |es| <= lim.maxRepeated && DistinctKeys(es)
             && NewKeys(done, es)
    requires MapBytes(s, s[i][k], es, depth + 1, lim.maxDepth).Some?
    requires |MapBytes(s, s[i][k], es, depth + 1, lim.maxDepth).value| < SIZE_LIMIT
    ensures ReadRecords(s, s[i], MapBytes(s, s[i][k], es, depth + 1, lim.maxDepth).value + rest, cur, depth, lim)
            == ReadRecords(s, s[i], rest, cur[k := MapF(done + NormPairs(s, s[i][k].typ.v, es))], depth, lim)
    decreases Room(depth, lim.maxDepth), 3, |es|
  {
    hide SchemaOk, ReadRecords, EntryBytes, ReadEntry, TypedPair, SmallPair, NormPair, TagBytes, Bytes, ReadBytes, Zero;
    var f := s[i][k];
    NumberFound(s, i, k);
    var t := f.typ.v;
    if es == [] {
      assert [] + rest == rest && done + [] == done && cur[k := cur[k]] == cur;
    } else {
      var b := EntryBytes(s, f, es[0], depth + 1, lim.maxDepth).value;
      var more := MapBytes(s, f, es[1..], depth + 1, lim.maxDepth).value;
      var tag := TagBytes(f.number, BytesType);
      BytesLonger(b);
      EntryReads(s, f, es[0], depth + 1, lim);
      BytesRead(b, more + rest);
      var e := NormPair(s, t, es[0]);
      NormPairKey(s, t, es[0]);
      var next := done + [e];
      assert !HasKey(done, e.key);
      InsertNew(done, e);
      RecordReads(s, i, k, BytesType, Bytes(b), more + rest, cur, MapF(next), depth, lim);
      assert (tag + Bytes(b) + more) + rest == tag + Bytes(b) + (more + rest);
      KeysStayNew(done, es, e);
      MapReads(s, i, k, es[1..], next, cur[k := MapF(next)], rest, depth, lim);
      assert next + NormPairs(s, t, es[1..]) == done + NormPairs(s, t, es);
      assert cur[k := MapF(next)][k := MapF(done + NormPairs(s, t, es))] == cur[k := MapF(done + NormPairs(s, t, es))];
    }
  }

  lemma NormPairKey(s: Schema, t: ScalarType, e: Pair)
    ensures NormPair(s, t, e).key == e.key
  {
  }

  lemma KeysStayNew(done: seq<Pair>, es: seq<Pair>, e: Pair)
    requires es != [] && DistinctKeys(es) && NewKeys(done, es) && e.key == es[0].key
    ensures DistinctKeys(es[1..]) && NewKeys(done + [e], es[1..])
  {
    var next, more := done + [e], es[1..];
    forall i, j | 0 <= i < |next| && 0 <= j < |more|
      ensures next[i].key != more[j].key
    {
      assert more[j] == es[j + 1];
    }
  }
}
