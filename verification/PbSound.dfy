/**
Whatever the decoder accepts is a value of the struct's type within the limits: include/protowire/pb.h. Integers are in
the range of their fields, strings are valid UTF-8, the keys of a map are distinct, and no list or map is longer than
the count limit, for every input.
 */
module PbSound {
  import opened Options
  import opened Powers
  import opened BigEndian
  import opened Wire
  import opened Utf8
  import opened PbSchema
  import opened PbCodec
  import opened PbRoundTrip

  ghost predicate Good(s: Schema, t: ScalarType, v: PVal, n: nat) {
    Typed(s, t, v) && Small(v, n)
  }

  ghost predicate GoodField(s: Schema, f: FieldDef, v: FVal, n: nat) {
    TypedField(s, f, v) && SmallField(v, n)
  }

  ghost predicate GoodFields(s: Schema, fs: seq<FieldDef>, vs: seq<FVal>, n: nat) {
    TypedFields(s, fs, vs) && SmallFields(vs, n)
  }

  ghost predicate GoodAll(s: Schema, t: ScalarType, vs: seq<PVal>, n: nat) {
    TypedAll(s, t, vs) && SmallAll(vs, n)
  }

  ghost predicate GoodPairs(s: Schema, k: ScalarType, t: ScalarType, held: Held, es: seq<Pair>, n: nat) {
    TypedPairs(s, k, t, held, es) && SmallPairs(es, n)
  }

  ghost predicate GoodPair(s: Schema, k: ScalarType, t: ScalarType, held: Held, e: Pair, n: nat) {
    TypedPair(s, k, t, held, e) && SmallPair(e, n)
  }

  // ---- Collections ----

  lemma {:induction false} FieldAt(s: Schema, fs: seq<FieldDef>, vs: seq<FVal>, k: nat, n: nat)
    requires GoodFields(s, fs, vs, n) && k < |fs|
    ensures k < |vs| && GoodField(s, fs[k], vs[k], n)
    decreases |fs|
  {
    hide TypedField, SmallField;
    if k > 0 {
      FieldAt(s, fs[1..], vs[1..], k - 1, n);
    }
  }

  lemma {:induction false} FieldSet(s: Schema, fs: seq<FieldDef>, vs: seq<FVal>, k: nat, x: FVal, n: nat)
    requires GoodFields(s, fs, vs, n) && k < |fs| && k < |vs| && GoodField(s, fs[k], x, n)
    ensures GoodFields(s, fs, vs[k := x], n)
    decreases |fs|
  {
    hide TypedField, SmallField;
    if k > 0 {
      FieldSet(s, fs[1..], vs[1..], k - 1, x, n);
      assert vs[k := x][1..] == vs[1..][k - 1 := x];
    } else {
      assert vs[k := x][1..] == vs[1..];
    }
  }

  lemma {:induction false} AllSnoc(s: Schema, t: ScalarType, vs: seq<PVal>, x: PVal, n: nat)
    requires GoodAll(s, t, vs, n) && Good(s, t, x, n)
    ensures GoodAll(s, t, vs + [x], n)
    decreases |vs|
  {
    hide Typed, Small;
    if vs != [] {
      AllSnoc(s, t, vs[1..], x, n);
      assert (vs + [x])[1..] == vs[1..] + [x];
    } else {
      assert (vs + [x])[1..] == [];
    }
  }

  lemma PairsCons(s: Schema, k: ScalarType, t: ScalarType, held: Held, es: seq<Pair>, n: nat)
    ensures GoodPairs(s, k, t, held, es, n) <==>
            es == [] || (GoodPair(s, k, t, held, es[0], n) && GoodPairs(s, k, t, held, es[1..], n))
  {
    hide TypedPair, SmallPair;
  }

  lemma {:induction false} PairsInsert(
      s: Schema, k: ScalarType, t: ScalarType, held: Held, es: seq<Pair>, e: Pair, n: nat)
    requires GoodPairs(s, k, t, held, es, n) && GoodPair(s, k, t, held, e, n)
    ensures GoodPairs(s, k, t, held, Insert(es, e), n)
    decreases |es|
  {
    hide GoodPair, GoodPairs;
    var all := Insert(es, e);
    PairsCons(s, k, t, held, es, n);
    PairsCons(s, k, t, held, all, n);
    if es == [] {
      assert all[1..] == [];
    } else if es[0].key == e.key {
      assert all[0] == e && all[1..] == es[1..];
    } else {
      PairsInsert(s, k, t, held, es[1..], e, n);
      assert all[0] == es[0] && all[1..] == Insert(es[1..], e);
    }
  }

  lemma {:induction false} InsertKeys(es: seq<Pair>, e: Pair)
    requires HasKey(es, e.key)
    ensures |Insert(es, e)| == |es| && forall i :: 0 <= i < |es| ==> Insert(es, e)[i].key == es[i].key
    decreases |es|
  {
    if es[0].key != e.key {
      var i :| 0 <= i < |es| && es[i].key == e.key;
      assert es[1..][i - 1].key == e.key;
      InsertKeys(es[1..], e);
    }
  }

  lemma InsertDistinct(es: seq<Pair>, e: Pair, n: nat)
    requires DistinctKeys(es) && |es| <= n && (|es| >= n ==> HasKey(es, e.key))
    ensures DistinctKeys(Insert(es, e)) && |Insert(es, e)| <= n
  {
    if HasKey(es, e.key) {
      InsertKeys(es, e);
    } else {
      InsertNew(es, e);
    }
  }

  // ---- Scalars ----

  lemma SignedInRange(bits: nat, v: int)
    requires bits == 8 || bits == 16 || bits == 32 || bits == 64
    ensures -SignedLimit(bits) <= ToSigned(bits, v) < SignedLimit(bits)
    ensures 0 <= ToUnsigned(bits, v) < 2 * SignedLimit(bits)
  {
  }

  lemma {:induction false} LeafSound(s: Schema, t: ScalarType, zz: bool, data: seq<Byte>, cur: PVal, depth: nat,
                                     lim: Limits)
    requires ScalarOk(s, t) && !t.StructT? && |data| < SIZE_LIMIT && ReadScalar(s, t, zz, data, cur, depth, lim).Got?
    ensures Good(s, t, ReadScalar(s, t, zz, data, cur, depth, lim).value, lim.maxRepeated)
  {
    hide ReadVarint, ReadBytes, FixedValue, ValidUtf8, ToSigned, ToUnsigned, SignedLimit, UnZigZag, Pow;
    match t {
      case SignedT(bits) =>
        var x := ReadVarint(data).value;
        SignedInRange(bits, if zz then UnZigZag(x) else x);
      case UnsignedT(bits) => SignedInRange(bits, ReadVarint(data).value);
      case DoubleT =>
        FixedWidths();
        FixedBound(data[..8]);
      case FloatT =>
        FixedWidths();
        FixedBound(data[..4]);
      case _ =>
    }
  }

  lemma {:induction false} ScalarSound(s: Schema, t: ScalarType, zz: bool, data: seq<Byte>, cur: PVal, depth: nat,
                                       lim: Limits)
    requires SchemaOk(s) && ScalarOk(s, t) && Good(s, t, cur, lim.maxRepeated) && |data| < SIZE_LIMIT
    requires ReadScalar(s, t, zz, data, cur, depth, lim).Got?
    ensures Good(s, t, ReadScalar(s, t, zz, data, cur, depth, lim).value, lim.maxRepeated)
    decreases |data|, 0
  {
    hide SchemaOk, ReadStruct, ReadBytes, TypedFields, SmallFields;
    if t.StructT? {
      var b := ReadBytes(data).value;
      TypedCount(s, s[t.i], cur.fields);
      StructSound(s, t.i, b, cur.fields, depth + 1, lim);
    } else {
      LeafSound(s, t, zz, data, cur, depth, lim);
    }
  }

  // ---- Structs ----

  lemma {:induction false} PackedSound(s: Schema, t: ScalarType, zz: bool, data: seq<Byte>, vs: seq<PVal>, depth: nat,
                                       lim: Limits)
    requires SchemaOk(s) && ScalarOk(s, t) && |data| < SIZE_LIMIT
    requires GoodAll(s, t, vs, lim.maxRepeated) && |vs| <= lim.maxRepeated
    requires ReadPacked(s, t, zz, data, vs, depth, lim).Some?
    ensures var r := ReadPacked(s, t, zz, data, vs, depth, lim).value;
            GoodAll(s, t, r, lim.maxRepeated) && |r| <= lim.maxRepeated
    decreases |data|, 1
  {
    hide SchemaOk, ReadScalar, Good, GoodAll, Zero;
    if data != [] {
      var x, k := ReadScalar(s, t, zz, data, Zero(s, t), depth, lim).value,
                  ReadScalar(s, t, zz, data, Zero(s, t), depth, lim).size;
      ZeroGood(s, t, lim.maxRepeated);
      ScalarSound(s, t, zz, data, Zero(s, t), depth, lim);
      AllSnoc(s, t, vs, x, lim.maxRepeated);
      PackedSound(s, t, zz, data[k..], vs + [x], depth, lim);
    }
  }

  lemma ZeroGood(s: Schema, t: ScalarType, n: nat)
    requires SchemaOk(s) && ScalarOk(s, t)
    ensures Good(s, t, Zero(s, t), n)
  {
    hide SchemaOk, Typed, Small, Zero;
    ZeroIs(s, t, n);
  }

  lemma {:induction false} EntrySound(s: Schema, f: FieldDef, data: seq<Byte>, e: Pair, depth: nat, lim: Limits)
    requires SchemaOk(s) && FieldOk(s, f) && f.typ.MapOf? && |data| < SIZE_LIMIT
    requires GoodPair(s, f.typ.k, f.typ.v, f.typ.held, e, lim.maxRepeated)
    requires ReadEntry(s, f, data, e, depth, lim).Some?
    ensures GoodPair(s, f.typ.k, f.typ.v, f.typ.held, ReadEntry(s, f, data, e, depth, lim).value, lim.maxRepeated)
    decreases |data|, 1
  {
    hide SchemaOk, ReadScalar, ReadTag, FieldSize, Zero, Typed, Small;
    var n := lim.maxRepeated;
    if data != [] {
      var tag, m := ReadTag(data).value, ReadTag(data).size;
      var rest := data[m..];
      if tag.num == 1 {
        KeySmall(s, f.typ.k, e.key, n);
        var r := ReadScalar(s, f.typ.k, f.zigzag, rest, e.key, depth, lim);
        ScalarSound(s, f.typ.k, f.zigzag, rest, e.key, depth, lim);
        EntrySound(s, f, rest[r.size..], e.(key := r.value), depth, lim);
      } else if tag.num == 2 {
        var under := ValueUnder(s, f.typ.v, f.typ.held, e.val);
        ZeroGood(s, f.typ.v, n);
        var r := ReadScalar(s, f.typ.v, f.zigzag, rest, under, depth, lim);
        ScalarSound(s, f.typ.v, f.zigzag, rest, under, depth, lim);
        EntrySound(s, f, rest[r.size..], e.(val := Some(r.value)), depth, lim);
      } else {
        EntrySound(s, f, rest[FieldSize(rest, tag.num, tag.typ).size..], e, depth, lim);
      }
    }
  }

  lemma {:induction false} FieldSound(s: Schema, f: FieldDef, data: seq<Byte>, typ: WireType, cur: FVal, depth: nat,
                                      lim: Limits)
    requires SchemaOk(s) && FieldOk(s, f) && GoodField(s, f, cur, lim.maxRepeated) && |data| < SIZE_LIMIT
    requires ReadField(s, f, data, typ, cur, depth, lim).Got?
    ensures GoodField(s, f, ReadField(s, f, data, typ, cur, depth, lim).value, lim.maxRepeated)
    decreases |data|, 2
  {
    hide SchemaOk, ReadScalar, ReadPacked, ReadBytes, ReadEntry, Zero, Typed, Small, TypedAll, SmallAll;
    hide TypedPairs, SmallPairs, TypedPair, SmallPair, DistinctKeys, Insert, HasKey;
    var n := lim.maxRepeated;
    match f.typ {
      case Plain(t) => ScalarSound(s, t, f.zigzag, data, cur.v, depth, lim);
      case Opt(t) =>
        ZeroGood(s, t, n);
        ScalarSound(s, t, f.zigzag, data, Zero(s, t), depth, lim);
      case Ptr(t) =>
        ZeroGood(s, t, n);
        ScalarSound(s, t, f.zigzag, data, if cur.o.Some? then cur.o.value else Zero(s, t), depth, lim);
      case Vec(t) =>
        if Packable(t) && typ.BytesType? {
          PackedSound(s, t, f.zigzag, ReadBytes(data).value, cur.vs, depth, lim);
        } else {
          ZeroGood(s, t, n);
          ScalarSound(s, t, f.zigzag, data, Zero(s, t), depth, lim);
          AllSnoc(s, t, cur.vs, ReadScalar(s, t, f.zigzag, data, Zero(s, t), depth, lim).value, n);
        }
      case MapOf(k, t, held) =>
        MapSound(s, f, data, typ, cur, depth, lim);
    }
  }

  lemma {:induction false} MapSound(s: Schema, f: FieldDef, data: seq<Byte>, typ: WireType, cur: FVal, depth: nat,
                                    lim: Limits)
    requires SchemaOk(s) && FieldOk(s, f) && GoodField(s, f, cur, lim.maxRepeated) && |data| < SIZE_LIMIT
    requires f.typ.MapOf? && ReadField(s, f, data, typ, cur, depth, lim).Got?
    ensures GoodField(s, f, ReadField(s, f, data, typ, cur, depth, lim).value, lim.maxRepeated)
    decreases |data|, 1
  {
    hide SchemaOk, ReadScalar, ReadPacked, ReadBytes, ReadEntry, Zero, Typed, Small, TypedPairs, SmallPairs;
    hide DistinctKeys, Insert, HasKey;
    var n, k, t, held := lim.maxRepeated, f.typ.k, f.typ.v, f.typ.held;
    var e0 := Pair(Zero(s, k), FreshValue(s, t, held));
    ZeroGood(s, k, n);
    ZeroGood(s, t, n);
    EntrySound(s, f, ReadBytes(data).value, e0, depth + 1, lim);
    var e := ReadEntry(s, f, ReadBytes(data).value, e0, depth + 1, lim).value;
    PairsInsert(s, k, t, held, cur.es, e, n);
    InsertDistinct(cur.es, e, n);
  }

  lemma {:induction false} RecordsSound(s: Schema, fs: seq<FieldDef>, data: seq<Byte>, cur: seq<FVal>, depth: nat,
                                        lim: Limits)
    requires SchemaOk(s) && (forall k :: 0 <= k < |fs| ==> FieldOk(s, fs[k])) && |data| < SIZE_LIMIT
    requires |cur| == |fs| && GoodFields(s, fs, cur, lim.maxRepeated) && ReadRecords(s, fs, data, cur, depth, lim).Some?
    ensures GoodFields(s, fs, ReadRecords(s, fs, data, cur, depth, lim).value, lim.maxRepeated)
    decreases |data|, 3
  {
    hide SchemaOk, FieldOk, ReadTag, ReadField, FieldSize, FindNumber, GoodField, GoodFields;
    if data != [] {
      var tag, m := ReadTag(data).value, ReadTag(data).size;
      var rest := data[m..];
      var k := FindNumber(fs, tag.num);
      if k < |fs| {
        var r := ReadField(s, fs[k], rest, tag.typ, cur[k], depth, lim);
        FieldAt(s, fs, cur, k, lim.maxRepeated);
        FieldSound(s, fs[k], rest, tag.typ, cur[k], depth, lim);
        FieldSet(s, fs, cur, k, r.value, lim.maxRepeated);
        RecordsSound(s, fs, rest[r.size..], cur[k := r.value], depth, lim);
      } else {
        RecordsSound(s, fs, rest[FieldSize(rest, tag.num, tag.typ).size..], cur, depth, lim);
      }
    }
  }

  /** Read over a value of the type and within the limits, any input that is accepted gives another. */
  lemma {:induction false} StructSound(s: Schema, i: nat, data: seq<Byte>, cur: seq<FVal>, depth: nat, lim: Limits)
    requires SchemaOk(s) && i < |s| && |data| < SIZE_LIMIT && |cur| == |s[i]|
    requires GoodFields(s, s[i], cur, lim.maxRepeated) && ReadStruct(s, i, data, cur, depth, lim).Some?
    ensures GoodFields(s, s[i], ReadStruct(s, i, data, cur, depth, lim).value, lim.maxRepeated)
    decreases |data|, 4
  {
    hide FieldOk, ReadRecords, GoodFields;
    assert StructOk(s, i);
    RecordsSound(s, s[i], data, cur, depth, lim);
  }

  /** Whatever bytes are accepted, a struct of the type is read from them, within the limits. */
  lemma AcceptedIsTyped(s: Schema, i: nat, data: seq<Byte>, depth: nat, lim: Limits)
    requires SchemaOk(s) && i < |s| && |data| < SIZE_LIMIT
    requires ReadStruct(s, i, data, ZeroFields(s, i, s[i]), depth, lim).Some?
    ensures var vs := ReadStruct(s, i, data, ZeroFields(s, i, s[i]), depth, lim).value;
            depth <= lim.maxDepth && TypedFields(s, s[i], vs) && SmallFields(vs, lim.maxRepeated)
  {
    hide ReadRecords, TypedFields, SmallFields, ZeroFields;
    assert StructOk(s, i);
    ZeroFieldsAre(s, i, s[i], lim.maxRepeated);
    StructSound(s, i, data, ZeroFields(s, i, s[i]), depth, lim);
  }

  /** At the depth limit no struct and no map entry is read. */
  lemma TooDeep(s: Schema, f: FieldDef, data: seq<Byte>, typ: WireType, cur: FVal, depth: nat, lim: Limits)
    requires depth >= lim.maxDepth
    requires f.typ.MapOf? || f.typ.t.StructT?
    ensures ReadField(s, f, data, typ, cur, depth, lim).Bad?
  {
    hide ReadBytes, ReadEntry, ReadScalar, Zero;
    if !f.typ.MapOf? {
      forall v | true ensures ReadScalar(s, f.typ.t, f.zigzag, data, v, depth, lim).Bad? {
        StructTooDeep(s, f.typ.t, f.zigzag, data, v, depth, lim);
      }
    }
  }

  lemma StructTooDeep(s: Schema, t: ScalarType, zz: bool, data: seq<Byte>, cur: PVal, depth: nat, lim: Limits)
    requires depth >= lim.maxDepth && t.StructT?
    ensures ReadScalar(s, t, zz, data, cur, depth, lim).Bad?
  {
    hide ReadBytes, ReadRecords;
    if t.i < |s| && ReadBytes(data).Got? {
      assert ReadStruct(s, t.i, ReadBytes(data).value, FieldsOf(s, t.i, cur), depth + 1, lim).None?;
    }
  }
}
