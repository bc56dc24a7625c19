/**
Which fields of a struct are written, and which structs can be: include/protowire/pb.h, MarshalField and
MarshalStruct. A field is left out exactly when it holds its default, and a struct is refused exactly when
it is nested too deep.
 */
module PbWritten {
  import opened Options
  import opened BigEndian
  import opened Wire
  import opened PbSchema
  import opened PbCodec
  import opened PbRoundTrip

  // ---- What is left out ----

  /** As a default-constructed struct would hold it, but for the sign of a floating-point zero. */
  predicate HoldsDefault(f: FieldDef, v: FVal) {
    match f.typ
    case Plain(DoubleT) => v.PlainF? && v.v.FloatP? && v.v.bits % 0x8000_0000_0000_0000 == 0
    case Plain(FloatT) => v.PlainF? && v.v.FloatP? && v.v.bits % 0x8000_0000 == 0
    case Plain(t) => v == PlainF(ZeroScalar(t))
    case Opt(_) => v == OptF(None)
    case Ptr(_) => v == OptF(None)
    case Vec(_) => v == VecF([])
    case MapOf(_, _, _) => v == MapF([])
  }

  predicate ByValue(f: FieldDef) {
    f.typ.Plain? && f.typ.t.StructT?
  }

  /** A record has a tag. */
  lemma RecordWritten(s: Schema, num: nat, t: ScalarType, zz: bool, v: PVal, depth: nat, max: nat)
    ensures Record(s, num, t, zz, v, depth, max) != Some([])
  {
    hide Payload;
    TagWritten(num, WireOf(t));
  }

  lemma TagWritten(num: nat, typ: WireType)
    ensures TagBytes(num, typ) != []
  {
  }

  lemma {:induction false} FieldOmitted(s: Schema, f: FieldDef, v: FVal, depth: nat, max: nat)
    requires TypedField(s, f, v)
    ensures FieldBytes(s, f, v, depth, max) == Some([]) <==> HoldsDefault(f, v) && !ByValue(f)
  {
    hide Record, Packed, Records, MapBytes, TagBytes, Varint;
    match f.typ {
      case Plain(t) =>
        RecordWritten(s, f.number, t, f.zigzag, v.v, depth, max);
        ZeroIsDefault(f, v.v);
      case Opt(t) =>
        if v.o.Some? {
          RecordWritten(s, f.number, t, f.zigzag, v.o.value, depth, max);
        }
      case Ptr(t) =>
        if v.o.Some? {
          RecordWritten(s, f.number, t, f.zigzag, v.o.value, depth, max);
        }
      case Vec(t) =>
        TagWritten(f.number, BytesType);
        if v.vs != [] && !Packable(t) {
          FirstRecord(s, f.number, t, f.zigzag, v.vs, depth, max);
        }
      case MapOf(_, _, _) =>
        if v.es != [] {
          FirstEntry(s, f, v.es, depth + 1, max);
        }
    }
  }

  lemma ZeroIsDefault(f: FieldDef, v: PVal)
    requires f.typ.Plain?
    requires f.typ.t.DoubleT? ==> v.FloatP? && v.bits < 0x1_0000_0000_0000_0000
    requires f.typ.t.FloatT? ==> v.FloatP? && v.bits < 0x1_0000_0000
    ensures IsZero(f.typ.t, v) <==> HoldsDefault(f, PlainF(v)) && !ByValue(f)
  {
  }

  ghost predicate AllDefault(fs: seq<FieldDef>, vs: seq<FVal>) {
    |vs| == |fs| && forall k :: 0 <= k < |fs| ==> HoldsDefault(fs[k], vs[k]) && !ByValue(fs[k])
  }

  lemma {:induction false} FieldsOmitted(s: Schema, fs: seq<FieldDef>, vs: seq<FVal>, depth: nat, max: nat)
    requires TypedFields(s, fs, vs)
    ensures FieldsBytes(s, fs, vs, depth, max) == Some([]) <==> AllDefault(fs, vs)
    decreases |fs|
  {
    hide FieldBytes, HoldsDefault, ByValue, TypedField;
    if fs != [] {
      hide AllDefault;
      FieldOmitted(s, fs[0], vs[0], depth, max);
      FieldsOmitted(s, fs[1..], vs[1..], depth, max);
      DefaultCons(fs, vs);
      JoinedNothing(FieldBytes(s, fs[0], vs[0], depth, max), FieldsBytes(s, fs[1..], vs[1..], depth, max));
    }
  }

  lemma JoinedNothing(a: Option<seq<Byte>>, b: Option<seq<Byte>>)
    ensures Joined(a, b) == Some([]) <==> a == Some([]) && b == Some([])
  {
    if a.Some? && b.Some? {
      assert |a.value + b.value| == |a.value| + |b.value|;
    }
  }

  lemma DefaultCons(fs: seq<FieldDef>, vs: seq<FVal>)
    requires fs != [] && vs != []
    ensures AllDefault(fs, vs) <==> HoldsDefault(fs[0], vs[0]) && !ByValue(fs[0]) && AllDefault(fs[1..], vs[1..])
  {
    hide HoldsDefault, ByValue;
    if AllDefault(fs, vs) {
      forall k | 0 <= k < |fs| - 1 ensures HoldsDefault(fs[1..][k], vs[1..][k]) && !ByValue(fs[1..][k]) {
        assert fs[1..][k] == fs[k + 1] && vs[1..][k] == vs[k + 1];
      }
    }
    if HoldsDefault(fs[0], vs[0]) && !ByValue(fs[0]) && AllDefault(fs[1..], vs[1..]) {
      forall k | 0 < k < |fs| ensures HoldsDefault(fs[k], vs[k]) && !ByValue(fs[k]) {
        assert fs[k] == fs[1..][k - 1] && vs[k] == vs[1..][k - 1];
      }
    }
  }

  /** A struct is written as no bytes exactly when every field holds its default and none is a struct by value. */
  lemma StructOmitted(s: Schema, i: nat, vs: seq<FVal>, depth: nat, max: nat)
    requires i < |s| && TypedFields(s, s[i], vs) && depth <= max
    ensures StructBytes(s, i, vs, depth, max) == Some([]) <==> AllDefault(s[i], vs)
  {
    FieldsOmitted(s, s[i], vs, depth, max);
  }

  // ---- What is refused ----

  function Deeper(a: nat, b: nat): nat {
    if a < b then b else a
  }

  /** How many levels a default-constructed struct is nested: by the structs it holds by value. */
  function ZeroNesting(s: Schema, i: nat, fs: seq<FieldDef>): nat
    decreases i, |fs|
  {
    if fs == [] then 0
    else
      var f := fs[0];
      Deeper(if ByValue(f) && f.typ.t.i < i && f.typ.t.i < |s| then 1 + ZeroNesting(s, f.typ.t.i, s[f.typ.t.i]) else 0,
             ZeroNesting(s, i, fs[1..]))
  }

  /** How many messages lie one inside another in a value: a struct is one, and so is a map entry. */
  ghost function Nesting(s: Schema, t: ScalarType, v: PVal): nat
    decreases v
  {
    if t.StructT? && v.StructP? && t.i < |s| then 1 + FieldsNesting(s, s[t.i], v.fields) else 0
  }

  ghost function FieldsNesting(s: Schema, fs: seq<FieldDef>, vs: seq<FVal>): nat
    decreases vs
  {
    if fs == [] || vs == [] then 0
    else Deeper(FieldNesting(s, fs[0], vs[0]), FieldsNesting(s, fs[1..], vs[1..]))
  }

  ghost function FieldNesting(s: Schema, f: FieldDef, v: FVal): nat
    decreases v
  {
    match v
    case PlainF(x) => if f.typ.Plain? then Nesting(s, f.typ.t, x) else 0
    case OptF(None) => 0
    case OptF(Some(x)) => if f.typ.Opt? || f.typ.Ptr? then Nesting(s, f.typ.t, x) else 0
    case VecF(xs) => if f.typ.Vec? then AllNesting(s, f.typ.t, xs) else 0
    case MapF(es) => if f.typ.MapOf? && es != [] then 1 + PairsNesting(s, f.typ.v, es) else 0
  }

  ghost function AllNesting(s: Schema, t: ScalarType, vs: seq<PVal>): nat
    decreases vs
  {
    if vs == [] then 0 else Deeper(Nesting(s, t, vs[0]), AllNesting(s, t, vs[1..]))
  }

  ghost function PairsNesting(s: Schema, t: ScalarType, es: seq<Pair>): nat
    decreases es
  {
    if es == [] then 0 else Deeper(PairNesting(s, t, es[0]), PairsNesting(s, t, es[1..]))
  }

  /** An unset value is written, as a default one. */
  ghost function PairNesting(s: Schema, t: ScalarType, e: Pair): nat
    decreases e
  {
    match e.val
    case Some(v) => Nesting(s, t, v)
    case None => if t.StructT? && t.i < |s| then 1 + ZeroNesting(s, t.i, s[t.i]) else 0
  }

  // A default struct's nesting is that of the value it is.

  lemma {:induction false} ZeroNestingIs(s: Schema, i: nat, fs: seq<FieldDef>)
    requires forall k :: 0 <= k < |fs| ==> Complete(fs[k], i) && FieldOk(s, fs[k])
    requires SchemaOk(s)
    ensures FieldsNesting(s, fs, ZeroFields(s, i, fs)) == ZeroNesting(s, i, fs)
    decreases i, |fs|
  {
    if fs != [] {
      var f, rest := fs[0], fs[1..];
      assert Complete(f, i) && FieldOk(s, f);
      forall k | 0 <= k < |rest| ensures Complete(rest[k], i) && FieldOk(s, rest[k]) { assert rest[k] == fs[k + 1]; }
      ZeroNestingIs(s, i, rest);
      var r := ZeroFields(s, i, fs);
      assert r[0] == ZeroField(s, i, f) && r[1..] == ZeroFields(s, i, rest);
      if ByValue(f) {
        var j := f.typ.t.i;
        assert StructOk(s, j);
        ZeroNestingIs(s, j, s[j]);
        var z := StructP(ZeroFields(s, j, s[j]));
        assert r[0] == PlainF(z) && Nesting(s, f.typ.t, z) == 1 + ZeroNesting(s, j, s[j]);
      } else {
        assert FieldNesting(s, f, r[0]) == 0;
      }
      assert FieldsNesting(s, fs, r) == Deeper(FieldNesting(s, f, r[0]), FieldsNesting(s, rest, r[1..]));
    }
  }

  lemma ZeroValueNesting(s: Schema, t: ScalarType)
    requires SchemaOk(s) && ScalarOk(s, t)
    ensures Nesting(s, t, Zero(s, t)) == if t.StructT? then 1 + ZeroNesting(s, t.i, s[t.i]) else 0
  {
    if t.StructT? {
      assert StructOk(s, t.i);
      ZeroNestingIs(s, t.i, s[t.i]);
    }
  }

  lemma {:induction false} PayloadFits(s: Schema, t: ScalarType, zz: bool, v: PVal, depth: nat, max: nat)
    requires SchemaOk(s) && ScalarOk(s, t) && Typed(s, t, v) && depth <= max
    ensures Payload(s, t, zz, v, depth, max).Some? <==> depth + Nesting(s, t, v) <= max
    decreases Room(depth, max), 0
  {
    hide SchemaOk, StructBytes, FieldsNesting, TypedFields, Varint, Fixed, Bytes;
    if t.StructT? && depth + 1 <= max {
      StructFits(s, t.i, v.fields, depth + 1, max);
    } else if !t.StructT? {
      WidthWithin(s, t, v);
    }
  }

  /** Every integer type fits 64 bits. */
  lemma WidthWithin(s: Schema, t: ScalarType, v: PVal)
    requires ScalarOk(s, t) && Typed(s, t, v)
    ensures t.SignedT? ==> -0x8000_0000_0000_0000 <= v.i < 0x8000_0000_0000_0000
    ensures t.UnsignedT? ==> 0 <= v.i < 0x1_0000_0000_0000_0000
  {
  }

  lemma {:induction false} RecordFits(s: Schema, num: nat, t: ScalarType, zz: bool, v: PVal, depth: nat, max: nat)
    requires SchemaOk(s) && ScalarOk(s, t) && Typed(s, t, v) && depth <= max
    ensures Record(s, num, t, zz, v, depth, max).Some? <==> depth + Nesting(s, t, v) <= max
    decreases Room(depth, max), 1
  {
    hide SchemaOk, Payload, Nesting, Typed;
    PayloadFits(s, t, zz, v, depth, max);
  }

  /** A struct can be written exactly when it is nested no deeper than the limit. */
  lemma {:induction false} StructFits(s: Schema, i: nat, vs: seq<FVal>, depth: nat, max: nat)
    requires SchemaOk(s) && i < |s| && TypedFields(s, s[i], vs) && depth <= max
    ensures StructBytes(s, i, vs, depth, max).Some? <==> depth + FieldsNesting(s, s[i], vs) <= max
    decreases Room(depth, max), 6
  {
    hide FieldsBytes, FieldsNesting, TypedFields;
    assert StructOk(s, i);
    FieldsFit(s, s[i], vs, depth, max);
  }

  lemma {:induction false} FieldsFit(s: Schema, fs: seq<FieldDef>, vs: seq<FVal>, depth: nat, max: nat)
    requires SchemaOk(s) && (forall k :: 0 <= k < |fs| ==> FieldOk(s, fs[k])) && TypedFields(s, fs, vs) && depth <= max
    ensures FieldsBytes(s, fs, vs, depth, max).Some? <==> depth + FieldsNesting(s, fs, vs) <= max
    decreases Room(depth, max), 5, |fs|
  {
    hide SchemaOk, FieldOk, FieldBytes, FieldNesting, TypedField;
    if fs != [] {
      assert FieldOk(s, fs[0]);
      forall k | 0 <= k < |fs[1..]| ensures FieldOk(s, fs[1..][k]) { assert fs[1..][k] == fs[k + 1]; }
      FieldFits(s, fs[0], vs[0], depth, max);
      FieldsFit(s, fs[1..], vs[1..], depth, max);
    }
  }

  lemma {:induction false} FieldFits(s: Schema, f: FieldDef, v: FVal, depth: nat, max: nat)
    requires SchemaOk(s) && FieldOk(s, f) && TypedField(s, f, v) && depth <= max
    ensures FieldBytes(s, f, v, depth, max).Some? <==> depth + FieldNesting(s, f, v) <= max
    decreases Room(depth, max), 4
  {
    hide SchemaOk, Record, Records, Packed, MapBytes, Nesting, AllNesting, PairsNesting, Typed, TypedAll, TypedPairs;
    match f.typ {
      case Plain(t) =>
        RecordFits(s, f.number, t, f.zigzag, v.v, depth, max);
        ZeroNotNested(s, t, v.v);
      case Opt(t) =>
        if v.o.Some? {
          RecordFits(s, f.number, t, f.zigzag, v.o.value, depth, max);
        }
      case Ptr(t) =>
        if v.o.Some? {
          RecordFits(s, f.number, t, f.zigzag, v.o.value, depth, max);
        }
      case Vec(t) =>
        if Packable(t) {
          PackedFits(s, t, f.zigzag, v.vs, depth, max);
        } else {
          RecordsFit(s, f.number, t, f.zigzag, v.vs, depth, max);
        }
        NoElements(s, t);
      case MapOf(_, _, _) =>
        if v.es != [] && depth + 1 <= max {
          MapFits(s, f, v.es, depth + 1, max);
        }
    }
  }

  lemma ZeroNotNested(s: Schema, t: ScalarType, v: PVal)
    ensures IsZero(t, v) ==> Nesting(s, t, v) == 0
  {
  }

  lemma NoElements(s: Schema, t: ScalarType)
    ensures AllNesting(s, t, []) == 0
  {
  }

  lemma {:induction false} PackedFits(s: Schema, t: ScalarType, zz: bool, vs: seq<PVal>, depth: nat, max: nat)
    requires SchemaOk(s) && ScalarOk(s, t) && Packable(t) && TypedAll(s, t, vs) && depth <= max
    ensures Packed(s, t, zz, vs, depth, max).Some? && AllNesting(s, t, vs) == 0
    decreases Room(depth, max), 1, |vs|
  {
    hide SchemaOk, Payload, Typed;
    if vs != [] {
      PayloadFits(s, t, zz, vs[0], depth, max);
      PackedFits(s, t, zz, vs[1..], depth, max);
    }
  }

  lemma {:induction false} RecordsFit(s: Schema, num: nat, t: ScalarType, zz: bool, vs: seq<PVal>, depth: nat, max: nat)
    requires SchemaOk(s) && ScalarOk(s, t) && TypedAll(s, t, vs) && depth <= max
    ensures Records(s, num, t, zz, vs, depth, max).Some? <==> depth + AllNesting(s, t, vs) <= max
    decreases Room(depth, max), 2, |vs|
  {
    hide SchemaOk, Record, Typed, Nesting;
    if vs != [] {
      RecordFits(s, num, t, zz, vs[0], depth, max);
      RecordsFit(s, num, t, zz, vs[1..], depth, max);
    }
  }

  lemma {:induction false} EntryFits(s: Schema, f: FieldDef, e: Pair, depth: nat, max: nat)
    requires SchemaOk(s) && FieldOk(s, f) && f.typ.MapOf? && depth <= max
    requires TypedPair(s, f.typ.k, f.typ.v, f.typ.held, e)
    ensures EntryBytes(s, f, e, depth, max).Some? <==> depth + PairNesting(s, f.typ.v, e) <= max
    decreases Room(depth, max), 2
  {
    hide SchemaOk, Record, Typed, Zero;
    var v := if e.val.Some? then e.val.value else Zero(s, f.typ.v);
    RecordFits(s, 1, f.typ.k, f.zigzag, e.key, depth, max);
    if e.val.None? {
      ZeroIs(s, f.typ.v, 0);
      ZeroValueNesting(s, f.typ.v);
    }
    RecordFits(s, 2, f.typ.v, f.zigzag, v, depth, max);
  }

  lemma {:induction false} MapFits(s: Schema, f: FieldDef, es: seq<Pair>, depth: nat, max: nat)
    requires SchemaOk(s) && FieldOk(s, f) && f.typ.MapOf? && depth <= max
    requires TypedPairs(s, f.typ.k, f.typ.v, f.typ.held, es)
    ensures MapBytes(s, f, es, depth, max).Some? <==> depth + PairsNesting(s, f.typ.v, es) <= max
    decreases Room(depth, max), 3, |es|
  {
    hide SchemaOk, FieldOk, EntryBytes, TypedPair, PairNesting, TagBytes, Bytes;
    if es != [] {
      EntryFits(s, f, es[0], depth, max);
      MapFits(s, f, es[1..], depth, max);
    }
  }
}
