/**
Reading over what is there: include/protowire/pb.h, Unmarshal into a struct that already has values. A written scalar
replaces the one that is there, lists grow, map entries are replaced by key, and a struct that is held by value or by a
pointer is merged field by field; an optional struct and a map's value are replaced whole.
 */
module PbMerge {
  import opened Options
  import opened BigEndian
  import opened Wire
  import opened PbSchema
  import opened PbCodec
  import opened PbRoundTrip
  import opened PbUnknown

  // ---- The merge ----

  /** v over cur. */
  ghost function Merge(s: Schema, t: ScalarType, cur: PVal, v: PVal): PVal
    decreases v
  {
    if t.StructT? && t.i < |s| && v.StructP? then StructP(MergeFields(s, s[t.i], FieldsOf(s, t.i, cur), v.fields))
    else Norm(s, t, v)
  }

  ghost function MergeFields(s: Schema, fs: seq<FieldDef>, cur: seq<FVal>, vs: seq<FVal>): (r: seq<FVal>)
    ensures |r| == |cur|
    decreases vs
  {
    if vs == [] || fs == [] || cur == [] then cur
    else [MergeField(s, fs[0], cur[0], vs[0])] + MergeFields(s, fs[1..], cur[1..], vs[1..])
  }

  ghost function MergeField(s: Schema, f: FieldDef, cur: FVal, v: FVal): FVal
    decreases v
  {
    match f.typ
    case Plain(t) =>
      if !v.PlainF? || IsZero(t, v.v) then cur else PlainF(Merge(s, t, if cur.PlainF? then cur.v else Zero(s, t), v.v))
    case Opt(t) => if !v.OptF? || v.o.None? then cur else OptF(Some(Norm(s, t, v.o.value)))
    case Ptr(t) =>
      if !v.OptF? || v.o.None? then cur
      else OptF(Some(Merge(s, t, if cur.OptF? && cur.o.Some? then cur.o.value else Zero(s, t), v.o.value)))
    case Vec(t) => if cur.VecF? && v.VecF? then VecF(cur.vs + NormAll(s, t, v.vs)) else cur
    case MapOf(_, t, _) => if cur.MapF? && v.MapF? then MapF(InsertAll(cur.es, NormPairs(s, t, v.es))) else cur
  }

  function InsertAll(es: seq<Pair>, new1: seq<Pair>): seq<Pair>
    decreases |new1|
  {
    if new1 == [] then es else InsertAll(Insert(es, new1[0]), new1[1..])
  }

  /** The lists and maps stay within the count limit. */
  ghost predicate Fits(s: Schema, t: ScalarType, cur: PVal, v: PVal, n: nat)
    decreases v
  {
    t.StructT? && t.i < |s| && v.StructP? ==> FitsFields(s, s[t.i], FieldsOf(s, t.i, cur), v.fields, n)
  }

  ghost predicate FitsFields(s: Schema, fs: seq<FieldDef>, cur: seq<FVal>, vs: seq<FVal>, n: nat)
    decreases vs
  {
    vs == [] || fs == [] || cur == []
    || (FitsField(s, fs[0], cur[0], vs[0], n) && FitsFields(s, fs[1..], cur[1..], vs[1..], n))
  }

  /** Both are of the field's form, and there is room for what v adds. */
  ghost predicate FitsField(s: Schema, f: FieldDef, cur: FVal, v: FVal, n: nat)
    decreases v
  {
    match f.typ
    case Plain(t) => cur.PlainF? && (v.PlainF? ==> Fits(s, t, cur.v, v.v, n))
    case Opt(t) => cur.OptF? && (v.OptF? && v.o.Some? ==> Small(v.o.value, n))
    case Ptr(t) =>
      cur.OptF? && (v.OptF? && v.o.Some? ==> Fits(s, t, if cur.o.Some? then cur.o.value else Zero(s, t), v.o.value, n))
    case Vec(_) => cur.VecF? && (v.VecF? ==> |cur.vs| + |v.vs| <= n && SmallAll(v.vs, n))
    case MapOf(_, _, _) => cur.MapF? && (v.MapF? ==> |cur.es| + |v.es| <= n && SmallPairs(v.es, n))
  }

  // ---- Maps: the last of a key stays ----

  function ValueOf(es: seq<Pair>, key: PVal): Option<Pair> {
    if es == [] then None else if es[0].key == key then Some(es[0]) else ValueOf(es[1..], key)
  }

  lemma {:induction false} InsertIs(es: seq<Pair>, e: Pair, key: PVal)
    ensures ValueOf(Insert(es, e), key) == if key == e.key then Some(e) else ValueOf(es, key)
    ensures |Insert(es, e)| <= |es| + 1
    decreases |es|
  {
    if es != [] && es[0].key != e.key {
      InsertIs(es[1..], e, key);
    }
  }

  lemma {:induction false} ValueFound(es: seq<Pair>, key: PVal)
    ensures ValueOf(es, key).Some? <==> HasKey(es, key)
    decreases |es|
  {
    if es != [] && es[0].key != key {
      ValueFound(es[1..], key);
      if HasKey(es[1..], key) {
        var i :| 0 <= i < |es[1..]| && es[1..][i].key == key;
        assert es[i + 1].key == key;
      }
      if HasKey(es, key) {
        var i :| 0 <= i < |es| && es[i].key == key;
        assert es[1..][i - 1].key == key;
      }
    }
  }

  /** After a merge a key has the entry of the map that came last, and else the one it had. */
  lemma {:induction false} LastKeyStays(es: seq<Pair>, new1: seq<Pair>, key: PVal)
    requires DistinctKeys(new1)
    ensures ValueOf(InsertAll(es, new1), key)
            == if HasKey(new1, key) then ValueOf(new1, key) else ValueOf(es, key)
    decreases |new1|
  {
    if new1 != [] {
      var rest := new1[1..];
      InsertIs(es, new1[0], key);
      LastKeyStays(Insert(es, new1[0]), rest, key);
      ValueFound(new1, key);
      ValueFound(rest, key);
      if HasKey(rest, key) {
        var i :| 0 <= i < |rest| && rest[i].key == key;
        assert new1[i + 1].key == key;
      }
    }
  }

  // ---- Reading is merging ----

  lemma {:induction false} ScalarMerges(s: Schema, t: ScalarType, zz: bool, cur: PVal, v: PVal, rest: seq<Byte>,
                                        depth: nat, lim: Limits)
    requires SchemaOk(s) && ScalarOk(s, t) && Typed(s, t, v) && Fits(s, t, cur, v, lim.maxRepeated)
    requires Payload(s, t, zz, v, depth, lim.maxDepth).Some?
    requires |Payload(s, t, zz, v, depth, lim.maxDepth).value| < SIZE_LIMIT
    ensures var p := Payload(s, t, zz, v, depth, lim.maxDepth).value;
            ReadScalar(s, t, zz, p + rest, cur, depth, lim) == Got(Merge(s, t, cur, v), |p|)
    decreases Room(depth, lim.maxDepth), 0
  {
    hide SchemaOk, StructBytes, ReadStruct, NormFields, ZeroFields, Bytes, ReadBytes, FitsFields, TypedFields;
    hide MergeFields, FieldsOf;
    if t.StructT? {
      var b := StructBytes(s, t.i, v.fields, depth + 1, lim.maxDepth).value;
      BytesLonger(b);
      StructMerges(s, t.i, FieldsOf(s, t.i, cur), v.fields, depth + 1, lim);
      BytesRead(b, rest);
    } else {
      PlainReads(s, t, zz, v, cur, rest, depth, lim);
    }
  }

  /** What is written is read over any struct of the type as the merge of the two. */
  lemma {:induction false} StructMerges(s: Schema, i: nat, cur: seq<FVal>, vs: seq<FVal>, depth: nat, lim: Limits)
    requires SchemaOk(s) && i < |s| && |cur| == |s[i]| && TypedFields(s, s[i], vs)
    requires FitsFields(s, s[i], cur, vs, lim.maxRepeated)
    requires StructBytes(s, i, vs, depth, lim.maxDepth).Some?
    requires |StructBytes(s, i, vs, depth, lim.maxDepth).value| < SIZE_LIMIT
    ensures ReadStruct(s, i, StructBytes(s, i, vs, depth, lim.maxDepth).value, cur, depth, lim)
            == Some(MergeFields(s, s[i], cur, vs))
    decreases Room(depth, lim.maxDepth), 6
  {
    hide SchemaOk, FieldsBytes, ReadRecords, MergeFields, TypedFields, FitsFields;
    TypedCount(s, s[i], vs);
    assert s[i][0..] == s[i] && vs[0..] == vs && cur[0..] == cur && cur[..0] + cur[0..] == cur;
    FieldsMerge(s, i, cur, vs, 0, depth, lim);
    assert cur[..0] + MergeFields(s, s[i], cur, vs) == MergeFields(s, s[i], cur, vs);
  }

  /** The fields from k on, the first k merged already. */
  lemma {:induction false} FieldsMerge(s: Schema, i: nat, cur: seq<FVal>, vs: seq<FVal>, k: nat, depth: nat,
                                       lim: Limits)
    requires SchemaOk(s) && i < |s| && depth <= lim.maxDepth && k <= |vs| == |s[i]| == |cur|
    requires TypedFields(s, s[i][k..], vs[k..]) && FitsFields(s, s[i][k..], cur[k..], vs[k..], lim.maxRepeated)
    requires FieldsBytes(s, s[i][k..], vs[k..], depth, lim.maxDepth).Some?
    requires |FieldsBytes(s, s[i][k..], vs[k..], depth, lim.maxDepth).value| < SIZE_LIMIT
    ensures ReadRecords(s, s[i], FieldsBytes(s, s[i][k..], vs[k..], depth, lim.maxDepth).value, cur, depth, lim)
            == Some(cur[..k] + MergeFields(s, s[i][k..], cur[k..], vs[k..]))
    decreases Room(depth, lim.maxDepth), 5, |vs| - k
  {
    hide SchemaOk, FieldBytes, ReadRecords, TypedField, FitsField, MergeField, FieldOk;
    var fs := s[i];
    if k == |vs| {
      assert cur[..k] + cur[k..] == cur;
      NoRecords(s, fs, cur, depth, lim);
    } else {
      assert fs[k..][0] == fs[k] && fs[k..][1..] == fs[k + 1..] && vs[k..][0] == vs[k] && vs[k..][1..] == vs[k + 1..];
      assert cur[k..][0] == cur[k] && cur[k..][1..] == cur[k + 1..];
      var b := FieldBytes(s, fs[k], vs[k], depth, lim.maxDepth).value;
      var rest := FieldsBytes(s, fs[k + 1..], vs[k + 1..], depth, lim.maxDepth).value;
      var x := MergeField(s, fs[k], cur[k], vs[k]);
      FieldMerges(s, i, k, cur, vs[k], rest, depth, lim);
      var next := cur[k := x];
      assert next[k + 1..] == cur[k + 1..] && next[..k + 1] == cur[..k] + [x];
      FieldsMerge(s, i, next, vs, k + 1, depth, lim);
      var more := MergeFields(s, fs[k + 1..], cur[k + 1..], vs[k + 1..]);
      assert cur[..k] + [x] + more == cur[..k] + ([x] + more);
    }
  }

  /** All the records of field k. */
  lemma {:induction false} FieldMerges(s: Schema, i: nat, k: nat, cur: seq<FVal>, v: FVal, rest: seq<Byte>, depth: nat,
                                       lim: Limits)
    requires SchemaOk(s) && i < |s| && k < |s[i]| == |cur| && depth <= lim.maxDepth
    requires TypedField(s, s[i][k], v) && FitsField(s, s[i][k], cur[k], v, lim.maxRepeated)
    requires FieldBytes(s, s[i][k], v, depth, lim.maxDepth).Some?
    requires |FieldBytes(s, s[i][k], v, depth, lim.maxDepth).value| < SIZE_LIMIT
    ensures ReadRecords(s, s[i], FieldBytes(s, s[i][k], v, depth, lim.maxDepth).value + rest, cur, depth, lim)
            == ReadRecords(s, s[i], rest, cur[k := MergeField(s, s[i][k], cur[k], v)], depth, lim)
    decreases Room(depth, lim.maxDepth), 4
  {
    hide SchemaOk, ReadRecords, ReadScalar, Payload, Packed, Records, MapBytes, Typed, TypedAll, Small, SmallAll,
         SmallPairs, TypedPairs, InsertAll, Fits;
    hide Norm, NormAll, NormPairs, TagBytes, Bytes, DistinctKeys, Merge, Zero;
    var f := s[i][k];
    var b := FieldBytes(s, f, v, depth, lim.maxDepth).value;
    if b == [] {
      assert b + rest == rest;
      EmptyMerge(s, f, cur[k], v, depth, lim.maxDepth);
      assert cur[k := cur[k]] == cur;
    } else {
      match f.typ {
        case Plain(t) => SingleMerges(s, i, k, t, v.v, cur, rest, depth, lim);
        case Opt(t) => SingleMerges(s, i, k, t, v.o.value, cur, rest, depth, lim);
        case Ptr(t) => SingleMerges(s, i, k, t, v.o.value, cur, rest, depth, lim);
        case Vec(t) =>
          if Packable(t) {
            BytesLonger(Packed(s, t, f.zigzag, v.vs, depth, lim.maxDepth).value);
            PackedMerges(s, i, k, v.vs, cur, rest, depth, lim);
          } else {
            RecordsRead(s, i, k, v.vs, cur[k].vs, cur, rest, depth, lim);
          }
        case MapOf(_, t, _) => MapMerges(s, i, k, v.es, cur, rest, depth, lim);
      }
    }
  }

  /** A field with nothing written changes nothing. */
  lemma EmptyMerge(s: Schema, f: FieldDef, cur: FVal, v: FVal, depth: nat, max: nat)
    requires FieldBytes(s, f, v, depth, max) == Some([]) && TypedField(s, f, v)
    ensures MergeField(s, f, cur, v) == cur
  {
    hide Payload, Packed, Typed, Norm, Merge;
    if f.typ.Vec? && v.vs != [] && !Packable(f.typ.t) {
      FirstRecord(s, f.number, f.typ.t, f.zigzag, v.vs, depth, max);
    }
    if f.typ.MapOf? && v.es != [] && depth + 1 <= max {
      FirstEntry(s, f, v.es, depth + 1, max);
    }
  }

  lemma {:induction false} SingleMerges(s: Schema, i: nat, k: nat, t: ScalarType, v: PVal, cur: seq<FVal>,
                                        rest: seq<Byte>, depth: nat, lim: Limits)
    requires SchemaOk(s) && i < |s| && k < |s[i]| == |cur|
    requires var f := s[i][k].typ; f == Plain(t) || f == Opt(t) || f == Ptr(t)
    requires Typed(s, t, v) && FitsField(s, s[i][k], cur[k], if s[i][k].typ.Plain? then PlainF(v) else OptF(Some(v)),
                                         lim.maxRepeated)
    requires s[i][k].typ.Plain? ==> !IsZero(t, v)
    requires Record(s, s[i][k].number, t, s[i][k].zigzag, v, depth, lim.maxDepth).Some?
    requires |Record(s, s[i][k].number, t, s[i][k].zigzag, v, depth, lim.maxDepth).value| < SIZE_LIMIT
    ensures var x := MergeField(s, s[i][k], cur[k], if s[i][k].typ.Plain? then PlainF(v) else OptF(Some(v)));
            ReadRecords(s, s[i], Record(s, s[i][k].number, t, s[i][k].zigzag, v, depth, lim.maxDepth).value + rest,
                        cur, depth, lim)
            == ReadRecords(s, s[i], rest, cur[k := x], depth, lim)
    decreases Room(depth, lim.maxDepth), 2
  {
    hide SchemaOk, ReadRecords, ReadScalar, Payload, Typed, Small, Norm, TagBytes, Zero, Merge, Fits, IsZero;
    var f := s[i][k];
    NumberFound(s, i, k);
    var p := Payload(s, t, f.zigzag, v, depth, lim.maxDepth).value;
    var x := MergeField(s, f, cur[k], if f.typ.Plain? then PlainF(v) else OptF(Some(v)));
    match f.typ {
      case Plain(_) => ScalarMerges(s, t, f.zigzag, cur[k].v, v, rest, depth, lim);
      case Opt(_) => ScalarReads(s, t, f.zigzag, v, rest, depth, lim);
      case Ptr(_) =>
        ScalarMerges(s, t, f.zigzag, if cur[k].o.Some? then cur[k].o.value else Zero(s, t), v, rest, depth, lim);
    }
    RecordReads(s, i, k, WireOf(t), p, rest, cur, x, depth, lim);
  }

  lemma {:induction false} PackedMerges(s: Schema, i: nat, k: nat, vs: seq<PVal>, cur: seq<FVal>, rest: seq<Byte>,
                                        depth: nat, lim: Limits)
    requires SchemaOk(s) && i < |s| && k < |s[i]| == |cur| && cur[k].VecF?
    requires s[i][k].typ.Vec? && Packable(s[i][k].typ.t) && TypedAll(s, s[i][k].typ.t, vs)
    requires |cur[k].vs| + |vs| <= lim.maxRepeated
    requires Packed(s, s[i][k].typ.t, s[i][k].zigzag, vs, depth, lim.maxDepth).Some?
    requires |Packed(s, s[i][k].typ.t, s[i][k].zigzag, vs, depth, lim.maxDepth).value| < SIZE_LIMIT
    ensures var f := s[i][k];
            var b := TagBytes(f.number, BytesType) + Bytes(Packed(s, f.typ.t, f.zigzag, vs, depth, lim.maxDepth).value);
            ReadRecords(s, s[i], b + rest, cur, depth, lim)
            == ReadRecords(s, s[i], rest, cur[k := VecF(cur[k].vs + NormAll(s, f.typ.t, vs))], depth, lim)
  {
    hide SchemaOk, ReadRecords, Packed, ReadPacked, TypedAll, NormAll, TagBytes, Bytes, ReadBytes, ReadScalar;
    var f := s[i][k];
    NumberFound(s, i, k);
    var p := Packed(s, f.typ.t, f.zigzag, vs, depth, lim.maxDepth).value;
    PackedReads(s, f.typ.t, f.zigzag, vs, cur[k].vs, depth, lim);
    BytesRead(p, rest);
    RecordReads(s, i, k, BytesType, Bytes(p), rest, cur, VecF(cur[k].vs + NormAll(s, f.typ.t, vs)), depth, lim);
  }

  lemma {:induction false} MapMerges(s: Schema, i: nat, k: nat, es: seq<Pair>, cur: seq<FVal>, rest: seq<Byte>,
                                     depth: nat, lim: Limits)
    requires SchemaOk(s) && i < |s| && k < |s[i]| == |cur| && cur[k].MapF? && depth < lim.maxDepth
    requires s[i][k].typ.MapOf? && TypedPairs(s, s[i][k].typ.k, s[i][k].typ.v, s[i][k].typ.held, es)
    requires SmallPairs(es, lim.maxRepeated) && |cur[k].es| + |es| <= lim.maxRepeated
    requires MapBytes(s, s[i][k], es, depth + 1, lim.maxDepth).Some?
    requires |MapBytes(s, s[i][k], es, depth + 1, lim.maxDepth).value| < SIZE_LIMIT
    ensures ReadRecords(s, s[i], MapBytes(s, s[i][k], es, depth + 1, lim.maxDepth).value + rest, cur, depth, lim)
            == ReadRecords(s, s[i], rest,
                           cur[k := MapF(InsertAll(cur[k].es, NormPairs(s, s[i][k].typ.v, es)))], depth, lim)
    decreases Room(depth, lim.maxDepth), 3, |es|
  {
    hide SchemaOk, ReadRecords, EntryBytes, ReadEntry, TypedPair, SmallPair, NormPair, TagBytes, Bytes, ReadBytes, Zero;
    hide Insert;
    var f := s[i][k];
    NumberFound(s, i, k);
    var t, had := f.typ.v, cur[k].es;
    if es == [] {
      assert [] + rest == rest && cur[k := cur[k]] == cur;
    } else {
      var b := EntryBytes(s, f, es[0], depth + 1, lim.maxDepth).value;
      var more := MapBytes(s, f, es[1..], depth + 1, lim.maxDepth).value;
      var tag := TagBytes(f.number, BytesType);
      BytesLonger(b);
      EntryReads(s, f, es[0], depth + 1, lim);
      BytesRead(b, more + rest);
      var e := NormPair(s, t, es[0]);
      var next := MapF(Insert(had, e));
      RecordReads(s, i, k, BytesType, Bytes(b), more + rest, cur, next, depth, lim);
      assert (tag + Bytes(b) + more) + rest == tag + Bytes(b) + (more + rest);
      InsertIs(had, e, e.key);
      MapMerges(s, i, k, es[1..], cur[k := next], rest, depth, lim);
      InsertStep(had, e, NormPairs(s, t, es), NormPairs(s, t, es[1..]));
      assert cur[k := next][k := MapF(InsertAll(had, NormPairs(s, t, es)))]
          == cur[k := MapF(InsertAll(had, NormPairs(s, t, es)))];
    }
  }

  lemma InsertStep(es: seq<Pair>, e: Pair, all: seq<Pair>, rest: seq<Pair>)
    requires all == [e] + rest
    ensures InsertAll(es, all) == InsertAll(Insert(es, e), rest)
  {
    hide Insert;
    assert all[1..] == rest;
  }

  /** Two encodings of a struct, one after the other, are read as the second merged into the first. */
  lemma ConcatMerges(s: Schema, i: nat, a: seq<FVal>, b: seq<FVal>, depth: nat, lim: Limits)
    requires SchemaOk(s) && i < |s| && TypedFields(s, s[i], a) && TypedFields(s, s[i], b)
    requires SmallFields(a, lim.maxRepeated) && FitsFields(s, s[i], NormFields(s, s[i], a), b, lim.maxRepeated)
    requires StructBytes(s, i, a, depth, lim.maxDepth).Some? && StructBytes(s, i, b, depth, lim.maxDepth).Some?
    requires |StructBytes(s, i, a, depth, lim.maxDepth).value| < SIZE_LIMIT
    requires |StructBytes(s, i, b, depth, lim.maxDepth).value| < SIZE_LIMIT
    ensures var x := StructBytes(s, i, a, depth, lim.maxDepth).value;
            var y := StructBytes(s, i, b, depth, lim.maxDepth).value;
            ReadStruct(s, i, x + y, ZeroFields(s, i, s[i]), depth, lim)
            == Some(MergeFields(s, s[i], NormFields(s, s[i], a), b))
  {
    hide SchemaOk, StructBytes, ReadRecords, TypedFields, SmallFields, FitsFields, MergeFields, NormFields, ZeroFields;
    var x, y := StructBytes(s, i, a, depth, lim.maxDepth).value, StructBytes(s, i, b, depth, lim.maxDepth).value;
    TypedCount(s, s[i], a);
    StructReads(s, i, a, depth, lim);
    StructMerges(s, i, NormFields(s, s[i], a), b, depth, lim);
    RecordsConcat(s, s[i], x, y, ZeroFields(s, i, s[i]), depth, lim);
  }
}
