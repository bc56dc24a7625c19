/**
Messages that differ only in fields nobody knows: records of unknown numbers, any number of them, between any
two records, at the top, in submessages and in map entries, the lengths in front of these rewritten.
include/protowire/pb.h reads them all alike.
 */
module PbAlike {
  import opened Options
  import opened BigEndian
  import opened Wire
  import opened Utf8
  import opened PbSchema
  import opened PbCodec
  import opened PbRoundTrip
  import opened PbUnknown

  // ---- The relation ----

  /** A map entry's two fields. */
  function EntryFields(f: FieldDef): seq<FieldDef>
    requires f.typ.MapOf?
  {
    [FieldDef(1, Plain(f.typ.k), f.zigzag), FieldDef(2, Plain(f.typ.v), f.zigzag)]
  }

  function StructFields(s: Schema, t: ScalarType): Option<seq<FieldDef>> {
    if t.StructT? && t.i < |s| then Some(s[t.i]) else None
  }

  /** The fields of the records inside a value: a submessage's or a map entry's. */
  function Inner(s: Schema, f: FieldDef): Option<seq<FieldDef>> {
    match f.typ
    case Plain(t) => StructFields(s, t)
    case Opt(t) => StructFields(s, t)
    case Ptr(t) => StructFields(s, t)
    case Vec(t) => StructFields(s, t)
    case MapOf(_, _, _) => Some(EntryFields(f))
  }

  /** How a field's value is delimited after a tag of that wire type. */
  function ValueWire(f: FieldDef, typ: WireType): WireType {
    match f.typ
    case Plain(t) => WireOf(t)
    case Opt(t) => WireOf(t)
    case Ptr(t) => WireOf(t)
    case Vec(t) => if Packable(t) && typ.BytesType? then BytesType else WireOf(t)
    case MapOf(_, _, _) => BytesType
  }

  /** The size of a record of a number that is not in fs, at the front of a; 0 where there is none. */
  function UnknownFront(fs: seq<FieldDef>, a: seq<Byte>): (n: nat)
    ensures n <= |a|
  {
    match ReadTag(a)
    case Bad => 0
    case Got(tag, n) =>
      if FindNumber(fs, tag.num) < |fs| then 0
      else
        match FieldSize(a[n..], tag.num, tag.typ)
        case Bad => 0
        case Got(_, m) => n + m
  }

  /** The records of a and b, those of unknown numbers left out, are the same ones in the same order. */
  ghost predicate Alike(s: Schema, fs: seq<FieldDef>, a: seq<Byte>, b: seq<Byte>)
    decreases |a| + |b|
  {
    var ua, ub := UnknownFront(fs, a), UnknownFront(fs, b);
    if ua > 0 then Alike(s, fs, a[ua..], b)
    else if ub > 0 then Alike(s, fs, a, b[ub..])
    else if a == [] || b == [] then a == b
    else RecordAlike(s, fs, a, b)
  }

  /** Both start with a record of one known field and alike values, and go on alike. */
  ghost predicate RecordAlike(s: Schema, fs: seq<FieldDef>, a: seq<Byte>, b: seq<Byte>)
    requires a != [] && b != []
    decreases |a| + |b|, 0
  {
    var x, y := ReadTag(a), ReadTag(b);
    && x.Got? && y.Got? && x.value == y.value
    && var k := FindNumber(fs, x.value.num);
       && k < |fs|
       && var w := ValueWire(fs[k], x.value.typ);
          var p, q := a[x.size..], b[y.size..];
          var m, n := ScalarSize(p, w), ScalarSize(q, w);
          && m.Got? && n.Got?
          && ValueAlike(s, Inner(s, fs[k]), p, q, m.size, n.size)
          && Alike(s, fs, p[m.size..], q[n.size..])
  }

  /** The values at the front of p and q, m and n bytes long: alike inside, or the same bytes. */
  ghost predicate ValueAlike(s: Schema, inner: Option<seq<FieldDef>>, p: seq<Byte>, q: seq<Byte>, m: nat, n: nat)
    requires m <= |p| && n <= |q|
    decreases |p| + |q|
  {
    match inner
    case None => m == n && p[..m] == q[..n]
    case Some(fs) =>
      ReadBytes(p).Got? && ReadBytes(q).Got? && Alike(s, fs, ReadBytes(p).value, ReadBytes(q).value)
  }

  // ---- A value is told by its own bytes ----

  lemma {:induction false} VarintSame(p: seq<Byte>, q: seq<Byte>, i: nat)
    requires VarintFrom(p, i).Got? && |q| >= VarintFrom(p, i).size
    requires p[..VarintFrom(p, i).size] == q[..VarintFrom(p, i).size]
    ensures VarintFrom(q, i) == VarintFrom(p, i)
    decreases 10 - i
  {
    var n := VarintFrom(p, i).size;
    assert p[i] == p[..n][i] == q[..n][i] == q[i];
    if p[i] >= 0x80 {
      VarintSame(p, q, i + 1);
    }
  }

  lemma BytesSame(p: seq<Byte>, q: seq<Byte>)
    requires ReadBytes(p).Got? && |q| >= ReadBytes(p).size && p[..ReadBytes(p).size] == q[..ReadBytes(p).size]
    ensures ReadBytes(q) == ReadBytes(p)
  {
    hide VarintFrom;
    var n, all := ReadVarint(p).size, ReadBytes(p).size;
    assert p[..n] == p[..all][..n] == q[..all][..n] == q[..n];
    VarintSame(p, q, 0);
    assert p[n..all] == p[..all][n..] == q[..all][n..] == q[n..all];
  }

  /** Two reads come to the same, each of its own size. */
  ghost predicate SameRead<T(!new)>(x: Read<T>, y: Read<T>, m: nat, n: nat) {
    if x.Bad? then y.Bad? else y.Got? && x.value == y.value && x.size == m && y.size == n
  }

  lemma VarintLeaf(s: Schema, t: ScalarType, zz: bool, p: seq<Byte>, q: seq<Byte>, cur: PVal, depth: nat, lim: Limits)
    requires WireOf(t).VarintType? && ReadVarint(p).Got? && ReadVarint(q) == ReadVarint(p)
    ensures SameRead(ReadScalar(s, t, zz, p, cur, depth, lim), ReadScalar(s, t, zz, q, cur, depth, lim),
                     ReadVarint(p).size, ReadVarint(p).size)
  {
    hide ReadVarint, ReadBytes, ReadFixed, ReadStruct, ToSigned, ToUnsigned, UnZigZag;
  }

  lemma BytesLeaf(s: Schema, t: ScalarType, zz: bool, p: seq<Byte>, q: seq<Byte>, cur: PVal, depth: nat, lim: Limits)
    requires WireOf(t).BytesType? && ReadBytes(p).Got? && ReadBytes(q) == ReadBytes(p)
    ensures SameRead(ReadScalar(s, t, zz, p, cur, depth, lim), ReadScalar(s, t, zz, q, cur, depth, lim),
                     ReadBytes(p).size, ReadBytes(p).size)
  {
    hide ReadVarint, ReadBytes, ReadFixed, ReadStruct, ValidUtf8;
  }

  lemma FixedLeaf(s: Schema, t: ScalarType, zz: bool, p: seq<Byte>, q: seq<Byte>, cur: PVal, depth: nat, lim: Limits)
    requires t.DoubleT? || t.FloatT?
    requires var n := if t.DoubleT? then 8 else 4; n <= |p| && n <= |q| && p[..n] == q[..n]
    ensures var n := if t.DoubleT? then 8 else 4;
            SameRead(ReadScalar(s, t, zz, p, cur, depth, lim), ReadScalar(s, t, zz, q, cur, depth, lim), n, n)
  {
    hide ReadVarint, ReadBytes, ReadStruct, FixedValue;
  }

  lemma LeafAlike(s: Schema, t: ScalarType, zz: bool, p: seq<Byte>, q: seq<Byte>, cur: PVal, depth: nat, lim: Limits)
    requires ScalarSize(p, WireOf(t)).Got?
    requires var m := ScalarSize(p, WireOf(t)).size; m <= |q| && p[..m] == q[..m]
    ensures var m := ScalarSize(p, WireOf(t)).size;
            SameRead(ReadScalar(s, t, zz, p, cur, depth, lim), ReadScalar(s, t, zz, q, cur, depth, lim), m, m)
  {
    hide VarintFrom, ReadBytes, ReadScalar, SameRead;
    var w := WireOf(t);
    if w.VarintType? {
      VarintSame(p, q, 0);
      VarintLeaf(s, t, zz, p, q, cur, depth, lim);
    } else if w.BytesType? {
      BytesSame(p, q);
      BytesLeaf(s, t, zz, p, q, cur, depth, lim);
    } else {
      FixedLeaf(s, t, zz, p, q, cur, depth, lim);
    }
  }

  // ---- Alike messages are read alike ----

  lemma StructFromRecords(s: Schema, i: nat, zz: bool, p: seq<Byte>, q: seq<Byte>, cur: PVal, depth: nat, lim: Limits)
    requires i < |s| && ReadBytes(p).Got? && ReadBytes(q).Got?
    requires ReadRecords(s, s[i], ReadBytes(p).value, FieldsOf(s, i, cur), depth + 1, lim)
             == ReadRecords(s, s[i], ReadBytes(q).value, FieldsOf(s, i, cur), depth + 1, lim)
    ensures SameRead(ReadScalar(s, StructT(i), zz, p, cur, depth, lim),
                     ReadScalar(s, StructT(i), zz, q, cur, depth, lim),
                     ReadBytes(p).size, ReadBytes(q).size)
  {
    hide ReadBytes, ReadRecords, FieldsOf;
  }

  lemma {:induction false} ScalarAlike(s: Schema, t: ScalarType, zz: bool, p: seq<Byte>, q: seq<Byte>, cur: PVal,
                                       depth: nat, lim: Limits)
    requires ScalarSize(p, WireOf(t)).Got? && ScalarSize(q, WireOf(t)).Got?
    requires var m, n := ScalarSize(p, WireOf(t)).size, ScalarSize(q, WireOf(t)).size;
             ValueAlike(s, StructFields(s, t), p, q, m, n)
    ensures var m, n := ScalarSize(p, WireOf(t)).size, ScalarSize(q, WireOf(t)).size;
            SameRead(ReadScalar(s, t, zz, p, cur, depth, lim), ReadScalar(s, t, zz, q, cur, depth, lim), m, n)
    decreases |p| + |q|, 0
  {
    hide ReadBytes, Alike, ReadRecords, ReadScalar, SameRead, FieldsOf;
    if StructFields(s, t).None? {
      LeafAlike(s, t, zz, p, q, cur, depth, lim);
    } else {
      AlikeReads(s, s[t.i], ReadBytes(p).value, ReadBytes(q).value, FieldsOf(s, t.i, cur), depth + 1, lim);
      StructFromRecords(s, t.i, zz, p, q, cur, depth, lim);
    }
  }

  /** What the value of a field that is not a map is read over. */
  function Under(s: Schema, f: FieldDef, cur: FVal): PVal
    requires !f.typ.MapOf?
  {
    if f.typ.Plain? && cur.PlainF? then cur.v
    else if f.typ.Ptr? && cur.OptF? && cur.o.Some? then cur.o.value
    else Zero(s, f.typ.t)
  }

  lemma FieldFromScalar(s: Schema, f: FieldDef, p: seq<Byte>, q: seq<Byte>, typ: WireType, cur: FVal,
                        depth: nat, lim: Limits, m: nat, n: nat)
    requires !f.typ.MapOf? && !(f.typ.Vec? && Packable(f.typ.t) && typ.BytesType?)
    requires SameRead(ReadScalar(s, f.typ.t, f.zigzag, p, Under(s, f, cur), depth, lim),
                      ReadScalar(s, f.typ.t, f.zigzag, q, Under(s, f, cur), depth, lim), m, n)
    ensures SameRead(ReadField(s, f, p, typ, cur, depth, lim), ReadField(s, f, q, typ, cur, depth, lim), m, n)
  {
    hide ReadScalar, ReadBytes, ReadPacked, ReadEntry, Zero, Packable;
  }

  lemma PackedFromBytes(s: Schema, f: FieldDef, p: seq<Byte>, q: seq<Byte>, typ: WireType, cur: FVal,
                        depth: nat, lim: Limits)
    requires f.typ.Vec? && Packable(f.typ.t) && typ.BytesType? && ReadBytes(p).Got? && ReadBytes(q) == ReadBytes(p)
    ensures SameRead(ReadField(s, f, p, typ, cur, depth, lim), ReadField(s, f, q, typ, cur, depth, lim),
                     ReadBytes(p).size, ReadBytes(q).size)
  {
    hide ReadScalar, ReadBytes, ReadPacked, ReadEntry, Zero, Packable;
  }

  lemma MapFromEntry(s: Schema, f: FieldDef, p: seq<Byte>, q: seq<Byte>, typ: WireType, cur: FVal,
                     depth: nat, lim: Limits)
    requires f.typ.MapOf? && ReadBytes(p).Got? && ReadBytes(q).Got?
    requires var e := Pair(Zero(s, f.typ.k), FreshValue(s, f.typ.v, f.typ.held));
             ReadEntry(s, f, ReadBytes(p).value, e, depth + 1, lim)
                 == ReadEntry(s, f, ReadBytes(q).value, e, depth + 1, lim)
    ensures SameRead(ReadField(s, f, p, typ, cur, depth, lim), ReadField(s, f, q, typ, cur, depth, lim),
                     ReadBytes(p).size, ReadBytes(q).size)
  {
    hide ReadScalar, ReadBytes, ReadPacked, ReadEntry, Zero, Insert, HasKey, FreshValue;
  }

  lemma {:induction false} FieldAlike(s: Schema, f: FieldDef, p: seq<Byte>, q: seq<Byte>, typ: WireType, cur: FVal,
                                      depth: nat, lim: Limits)
    requires ScalarSize(p, ValueWire(f, typ)).Got? && ScalarSize(q, ValueWire(f, typ)).Got?
    requires var m, n := ScalarSize(p, ValueWire(f, typ)).size, ScalarSize(q, ValueWire(f, typ)).size;
             ValueAlike(s, Inner(s, f), p, q, m, n)
    ensures var m, n := ScalarSize(p, ValueWire(f, typ)).size, ScalarSize(q, ValueWire(f, typ)).size;
            SameRead(ReadField(s, f, p, typ, cur, depth, lim), ReadField(s, f, q, typ, cur, depth, lim), m, n)
    decreases |p| + |q|, 1
  {
    hide ReadField, ReadScalar, ReadBytes, Zero, Alike, SameRead, FreshValue, WireOf, StructFields;
    var w := ValueWire(f, typ);
    if f.typ.MapOf? {
      var e := Pair(Zero(s, f.typ.k), FreshValue(s, f.typ.v, f.typ.held));
      EntryAlike(s, f, ReadBytes(p).value, ReadBytes(q).value, e, depth + 1, lim);
      MapFromEntry(s, f, p, q, typ, cur, depth, lim);
    } else if f.typ.Vec? && Packable(f.typ.t) && typ.BytesType? {
      NoStruct(s, f.typ.t);
      BytesSame(p, q);
      PackedFromBytes(s, f, p, q, typ, cur, depth, lim);
    } else {
      ScalarAlike(s, f.typ.t, f.zigzag, p, q, Under(s, f, cur), depth, lim);
      FieldFromScalar(s, f, p, q, typ, cur, depth, lim, ScalarSize(p, w).size, ScalarSize(q, w).size);
    }
  }

  lemma NoStruct(s: Schema, t: ScalarType)
    requires Packable(t)
    ensures StructFields(s, t).None?
  {
  }

  /** One unknown record at the front is as good as none. */
  lemma UnknownFirst(s: Schema, fs: seq<FieldDef>, a: seq<Byte>, cur: seq<FVal>, depth: nat, lim: Limits)
    requires |cur| == |fs| && UnknownFront(fs, a) > 0
    ensures ReadRecords(s, fs, a, cur, depth, lim) == ReadRecords(s, fs, a[UnknownFront(fs, a)..], cur, depth, lim)
  {
    hide ReadTag, FieldSize, FindNumber, ReadField;
    var n := ReadTag(a).size;
    var m := UnknownFront(fs, a) - n;
    assert a[n..][m..] == a[n + m..];
  }

  /** Whatever the struct already holds, at whatever depth, under whatever limits. */
  lemma {:induction false} AlikeReads(s: Schema, fs: seq<FieldDef>, a: seq<Byte>, b: seq<Byte>, cur: seq<FVal>,
                                      depth: nat, lim: Limits)
    requires |cur| == |fs| && Alike(s, fs, a, b)
    ensures ReadRecords(s, fs, a, cur, depth, lim) == ReadRecords(s, fs, b, cur, depth, lim)
    decreases |a| + |b|, 2
  {
    hide ReadTag, ReadField, FindNumber, UnknownFront, ScalarSize, ValueAlike, ValueWire, Inner, FieldSize;
    var ua, ub := UnknownFront(fs, a), UnknownFront(fs, b);
    if ua > 0 {
      UnknownFirst(s, fs, a, cur, depth, lim);
      AlikeReads(s, fs, a[ua..], b, cur, depth, lim);
    } else if ub > 0 {
      UnknownFirst(s, fs, b, cur, depth, lim);
      AlikeReads(s, fs, a, b[ub..], cur, depth, lim);
    } else if a != [] && b != [] {
      var tag := ReadTag(a).value;
      var p, q := a[ReadTag(a).size..], b[ReadTag(b).size..];
      var k := FindNumber(fs, tag.num);
      var w := ValueWire(fs[k], tag.typ);
      FieldAlike(s, fs[k], p, q, tag.typ, cur[k], depth, lim);
      var x := ReadField(s, fs[k], p, tag.typ, cur[k], depth, lim);
      if x.Got? {
        AlikeReads(s, fs, p[ScalarSize(p, w).size..], q[ScalarSize(q, w).size..], cur[k := x.value], depth, lim);
      }
    }
  }

  /** One unknown record at the front of a map entry is as good as none. */
  lemma UnknownFirstInEntry(s: Schema, f: FieldDef, a: seq<Byte>, e: Pair, depth: nat, lim: Limits)
    requires f.typ.MapOf? && UnknownFront(EntryFields(f), a) > 0
    ensures ReadEntry(s, f, a, e, depth, lim) == ReadEntry(s, f, a[UnknownFront(EntryFields(f), a)..], e, depth, lim)
  {
    hide ReadTag, FieldSize, ReadScalar;
    var n := ReadTag(a).size;
    EntryNumbers(f, ReadTag(a).value.num);
    var m := UnknownFront(EntryFields(f), a) - n;
    assert a[n..][m..] == a[n + m..];
  }

  lemma EntryNumbers(f: FieldDef, num: nat)
    requires f.typ.MapOf?
    ensures FindNumber(EntryFields(f), num) == if num == 1 then 0 else if num == 2 then 1 else 2
  {
    var fs := EntryFields(f);
    assert fs[1..][1..] == [];
    assert FindNumber(fs[1..][1..], num) == 0;
    assert FindNumber(fs[1..], num) == if num == 2 then 0 else 1;
  }

  lemma {:induction false} EntryAlike(s: Schema, f: FieldDef, a: seq<Byte>, b: seq<Byte>, e: Pair, depth: nat,
                                      lim: Limits)
    requires f.typ.MapOf? && Alike(s, EntryFields(f), a, b)
    ensures ReadEntry(s, f, a, e, depth, lim) == ReadEntry(s, f, b, e, depth, lim)
    decreases |a| + |b|, 2
  {
    hide ReadTag, ReadScalar, FindNumber, UnknownFront, ScalarSize, ValueAlike, FieldSize, ValueUnder, WireOf;
    var fs := EntryFields(f);
    var ua, ub := UnknownFront(fs, a), UnknownFront(fs, b);
    if ua > 0 {
      UnknownFirstInEntry(s, f, a, e, depth, lim);
      EntryAlike(s, f, a[ua..], b, e, depth, lim);
    } else if ub > 0 {
      UnknownFirstInEntry(s, f, b, e, depth, lim);
      EntryAlike(s, f, a, b[ub..], e, depth, lim);
    } else if a != [] && b != [] {
      var num := ReadTag(a).value.num;
      var p, q := a[ReadTag(a).size..], b[ReadTag(b).size..];
      EntryNumbers(f, num);
      var t, under := if num == 1 then f.typ.k else f.typ.v,
                      if num == 1 then e.key else ValueUnder(s, f.typ.v, f.typ.held, e.val);
      ScalarAlike(s, t, f.zigzag, p, q, under, depth, lim);
      var x := ReadScalar(s, t, f.zigzag, p, under, depth, lim);
      if x.Got? {
        var next := if num == 1 then e.(key := x.value) else e.(val := Some(x.value));
        EntryAlike(s, f, p[ScalarSize(p, WireOf(t)).size..], q[ScalarSize(q, WireOf(t)).size..], next, depth, lim);
      }
    }
  }

  /** What Marshal writes, with unknown fields anywhere in it, is read back as it is without. */
  lemma RoundTripWithUnknown(s: Schema, i: nat, vs: seq<FVal>, data: seq<Byte>, depth: nat, lim: Limits)
    requires SchemaOk(s) && i < |s| && TypedFields(s, s[i], vs) && SmallFields(vs, lim.maxRepeated)
    requires StructBytes(s, i, vs, depth, lim.maxDepth).Some?
    requires |StructBytes(s, i, vs, depth, lim.maxDepth).value| < SIZE_LIMIT
    requires Alike(s, s[i], StructBytes(s, i, vs, depth, lim.maxDepth).value, data)
    ensures ReadStruct(s, i, data, ZeroFields(s, i, s[i]), depth, lim) == Some(NormFields(s, s[i], vs))
  {
    hide SchemaOk, TypedFields, SmallFields, FieldsBytes, ReadRecords, ZeroFields, NormFields, Alike;
    StructReads(s, i, vs, depth, lim);
    AlikeReads(s, s[i], StructBytes(s, i, vs, depth, lim.maxDepth).value, data, ZeroFields(s, i, s[i]), depth, lim);
  }

  // ---- What is alike ----

  lemma BothEmpty(s: Schema, fs: seq<FieldDef>)
    ensures Alike(s, fs, [], [])
  {
    assert ReadTag([]).Bad?;
  }

  /** An unknown record in front of b. */
  lemma {:induction false} UnknownRight(s: Schema, fs: seq<FieldDef>, a: seq<Byte>, b: seq<Byte>)
    requires UnknownFront(fs, b) > 0 && Alike(s, fs, a, b[UnknownFront(fs, b)..])
    ensures Alike(s, fs, a, b)
    decreases |a|
  {
    hide UnknownFront, RecordAlike;
    var ua := UnknownFront(fs, a);
    if ua > 0 {
      UnknownRight(s, fs, a[ua..], b);
    }
  }

  lemma FrontStable(fs: seq<FieldDef>, a: seq<Byte>, x: seq<Byte>)
    requires UnknownFront(fs, a) > 0
    ensures UnknownFront(fs, a + x) == UnknownFront(fs, a)
  {
    hide ReadTag, FieldSize, FindNumber;
    TagStable(a, x);
    var tag, n := ReadTag(a).value, ReadTag(a).size;
    assert (a + x)[n..] == a[n..] + x;
    FieldSizeStable(a[n..], x, tag.num, tag.typ);
  }

  /** What is alike, and then what is alike. */
  lemma {:induction false} AlikeAppend(s: Schema, fs: seq<FieldDef>, a: seq<Byte>, b: seq<Byte>, x: seq<Byte>,
                                       y: seq<Byte>)
    requires Alike(s, fs, a, b) && Alike(s, fs, x, y)
    ensures Alike(s, fs, a + x, b + y)
    decreases |a| + |b|
  {
    hide UnknownFront, RecordAlike;
    var ua, ub := UnknownFront(fs, a), UnknownFront(fs, b);
    if ua > 0 {
      FrontStable(fs, a, x);
      assert (a + x)[ua..] == a[ua..] + x;
      AlikeAppend(s, fs, a[ua..], b, x, y);
    } else if ub > 0 {
      FrontStable(fs, b, y);
      assert (b + y)[ub..] == b[ub..] + y;
      AlikeAppend(s, fs, a, b[ub..], x, y);
      UnknownRight(s, fs, a + x, b + y);
    } else if a == [] || b == [] {
      assert a + x == x && b + y == y;
    } else {
      RecordParts(s, fs, a, b);
      var p, q := a[ReadTag(a).size..], b[ReadTag(b).size..];
      var w := ValueWire(fs[FindNumber(fs, ReadTag(a).value.num)], ReadTag(a).value.typ);
      var m, n := ScalarSize(p, w).size, ScalarSize(q, w).size;
      AlikeAppend(s, fs, p[m..], q[n..], x, y);
      RecordStable(s, fs, a, b, x, y);
    }
  }

  /** The parts of a record that two messages start with. */
  lemma RecordParts(s: Schema, fs: seq<FieldDef>, a: seq<Byte>, b: seq<Byte>)
    requires a != [] && b != [] && RecordAlike(s, fs, a, b)
    ensures ReadTag(a).Got? && ReadTag(b).Got? && ReadTag(a).value == ReadTag(b).value
    ensures var tag := ReadTag(a).value;
            var k := FindNumber(fs, tag.num);
            && k < |fs|
            && var w := ValueWire(fs[k], tag.typ);
               var p, q := a[ReadTag(a).size..], b[ReadTag(b).size..];
               && ScalarSize(p, w).Got? && ScalarSize(q, w).Got?
               && ValueAlike(s, Inner(s, fs[k]), p, q, ScalarSize(p, w).size, ScalarSize(q, w).size)
               && Alike(s, fs, p[ScalarSize(p, w).size..], q[ScalarSize(q, w).size..])
  {
    hide ReadTag, ScalarSize, FindNumber, ValueWire, Inner, ValueAlike, Alike;
  }

  lemma RecordStable(s: Schema, fs: seq<FieldDef>, a: seq<Byte>, b: seq<Byte>, x: seq<Byte>, y: seq<Byte>)
    requires a != [] && b != [] && RecordAlike(s, fs, a, b)
    requires ReadTag(a).Got? && ReadTag(b).Got? && FindNumber(fs, ReadTag(a).value.num) < |fs|
    requires var w := ValueWire(fs[FindNumber(fs, ReadTag(a).value.num)], ReadTag(a).value.typ);
             var p, q := a[ReadTag(a).size..], b[ReadTag(b).size..];
             && ScalarSize(p, w).Got? && ScalarSize(q, w).Got?
             && Alike(s, fs, p[ScalarSize(p, w).size..] + x, q[ScalarSize(q, w).size..] + y)
    ensures Alike(s, fs, a + x, b + y)
  {
    hide ReadTag, ScalarSize, FindNumber, ValueWire, Inner, ValueAlike, FieldSize;
    RecordParts(s, fs, a, b);
    TagStable(a, x);
    TagStable(b, y);
    var tag := ReadTag(a).value;
    var f := fs[FindNumber(fs, tag.num)];
    var w := ValueWire(f, tag.typ);
    var p, q := a[ReadTag(a).size..], b[ReadTag(b).size..];
    assert (a + x)[ReadTag(a).size..] == p + x && (b + y)[ReadTag(b).size..] == q + y;
    ScalarSizeStable(p, x, w);
    ScalarSizeStable(q, y, w);
    var m, n := ScalarSize(p, w).size, ScalarSize(q, w).size;
    assert (p + x)[m..] == p[m..] + x && (q + y)[n..] == q[n..] + y;
    ValueStable(s, Inner(s, f), p, q, m, n, x, y);
    assert RecordAlike(s, fs, a + x, b + y);
  }

  lemma ValueStable(s: Schema, inner: Option<seq<FieldDef>>, p: seq<Byte>, q: seq<Byte>, m: nat, n: nat,
                    x: seq<Byte>, y: seq<Byte>)
    requires m <= |p| && n <= |q| && ValueAlike(s, inner, p, q, m, n)
    ensures ValueAlike(s, inner, p + x, q + y, m, n)
  {
    hide ReadBytes, Alike;
    if inner.None? {
      assert (p + x)[..m] == p[..m] && (q + y)[..n] == q[..n];
    } else {
      BytesStable(p, x);
      BytesStable(q, y);
    }
  }

  /** An unknown record, put between two runs of records. */
  lemma UnknownBetween(s: Schema, fs: seq<FieldDef>, a: seq<Byte>, b: seq<Byte>, num: nat, typ: WireType,
                       value: seq<Byte>, x: seq<Byte>, y: seq<Byte>)
    requires Alike(s, fs, a, b) && Alike(s, fs, x, y) && UnknownRecord(fs, num, typ, value)
    ensures Alike(s, fs, a + x, b + (TagBytes(num, typ) + value + y))
  {
    hide Alike, ReadTag, FieldSize, FindNumber, TagBytes;
    var tag := TagBytes(num, typ);
    var u := tag + value + y;
    TagReads(num, typ, value + y);
    assert u == tag + (value + y) && u[|tag|..] == value + y;
    FieldSizeStable(value, y, num, typ);
    assert UnknownFront(fs, u) == |tag| + |value|;
    assert u[|tag| + |value|..] == y;
    UnknownRight(s, fs, x, u);
    AlikeAppend(s, fs, a, b, x, u);
  }

  /** Unknown records inside a submessage or a map entry, its length written anew. */
  lemma UnknownInside(s: Schema, fs: seq<FieldDef>, num: nat, b: seq<Byte>, c: seq<Byte>)
    requires ValidNumber(num) && FindNumber(fs, num) < |fs| && Inner(s, fs[FindNumber(fs, num)]).Some?
    requires |b| < SIZE_LIMIT && |c| < SIZE_LIMIT
    requires Alike(s, Inner(s, fs[FindNumber(fs, num)]).value, b, c)
    ensures Alike(s, fs, TagBytes(num, BytesType) + Bytes(b), TagBytes(num, BytesType) + Bytes(c))
  {
    hide ReadTag, FindNumber, TagBytes, Bytes, ReadBytes, Inner, FieldSize;
    var f, tag := fs[FindNumber(fs, num)], TagBytes(num, BytesType);
    InnerWire(s, f);
    TagReads(num, BytesType, Bytes(b));
    TagReads(num, BytesType, Bytes(c));
    BytesRead(b, []);
    BytesRead(c, []);
    assert Bytes(b) + [] == Bytes(b) && Bytes(c) + [] == Bytes(c);
    var x, y := tag + Bytes(b), tag + Bytes(c);
    assert x[|tag|..] == Bytes(b) && y[|tag|..] == Bytes(c);
    assert Bytes(b)[|Bytes(b)|..] == [] && Bytes(c)[|Bytes(c)|..] == [];
    BothEmpty(s, fs);
    assert RecordAlike(s, fs, x, y);
  }

  lemma InnerWire(s: Schema, f: FieldDef)
    requires Inner(s, f).Some?
    ensures ValueWire(f, BytesType).BytesType?
  {
  }

  // ---- Any message that is read is alike itself ----

  lemma ScalarSpan(s: Schema, t: ScalarType, zz: bool, p: seq<Byte>, cur: PVal, depth: nat, lim: Limits)
    requires ReadScalar(s, t, zz, p, cur, depth, lim).Got?
    ensures ScalarSize(p, WireOf(t)) == Got((), ReadScalar(s, t, zz, p, cur, depth, lim).size)
  {
    hide ReadVarint, ReadBytes, ReadStruct, ValidUtf8, ToSigned, ToUnsigned, UnZigZag, FixedValue;
  }

  lemma {:induction false} ScalarSelf(s: Schema, t: ScalarType, zz: bool, p: seq<Byte>, cur: PVal, depth: nat,
                                      lim: Limits)
    requires ReadScalar(s, t, zz, p, cur, depth, lim).Got?
    ensures var m := ReadScalar(s, t, zz, p, cur, depth, lim).size;
            ScalarSize(p, WireOf(t)) == Got((), m) && ValueAlike(s, StructFields(s, t), p, p, m, m)
    decreases |p|, 0
  {
    hide Alike, ReadBytes, ReadRecords, FieldsOf, ScalarSize;
    ScalarSpan(s, t, zz, p, cur, depth, lim);
    if StructFields(s, t).Some? {
      AlikeSelf(s, s[t.i], ReadBytes(p).value, FieldsOf(s, t.i, cur), depth + 1, lim);
    }
  }

  lemma {:induction false} FieldSelf(s: Schema, f: FieldDef, p: seq<Byte>, typ: WireType, cur: FVal, depth: nat,
                                     lim: Limits)
    requires ReadField(s, f, p, typ, cur, depth, lim).Got?
    ensures var m := ReadField(s, f, p, typ, cur, depth, lim).size;
            ScalarSize(p, ValueWire(f, typ)) == Got((), m) && ValueAlike(s, Inner(s, f), p, p, m, m)
    decreases |p|, 1
  {
    hide ReadScalar, ReadBytes, ReadPacked, ReadEntry, Zero, Insert, HasKey, Alike, WireOf;
    if f.typ.MapOf? {
      EntrySelf(s, f, ReadBytes(p).value, Pair(Zero(s, f.typ.k), FreshValue(s, f.typ.v, f.typ.held)), depth + 1, lim);
    } else if f.typ.Vec? && Packable(f.typ.t) && typ.BytesType? {
      NoStruct(s, f.typ.t);
    } else {
      ScalarSelf(s, f.typ.t, f.zigzag, p, Under(s, f, cur), depth, lim);
    }
  }

  lemma {:induction false} AlikeSelf(s: Schema, fs: seq<FieldDef>, a: seq<Byte>, cur: seq<FVal>, depth: nat,
                                     lim: Limits)
    requires |cur| == |fs| && ReadRecords(s, fs, a, cur, depth, lim).Some?
    ensures Alike(s, fs, a, a)
    decreases |a|, 2
  {
    hide ReadTag, ReadField, FindNumber, ScalarSize, ValueWire, ValueAlike, Inner, FieldSize;
    var u := UnknownFront(fs, a);
    if u > 0 {
      UnknownFirst(s, fs, a, cur, depth, lim);
      AlikeSelf(s, fs, a[u..], cur, depth, lim);
      UnknownRight(s, fs, a[u..], a);
    } else if a != [] {
      var tag, n := ReadTag(a).value, ReadTag(a).size;
      var p, k := a[n..], FindNumber(fs, tag.num);
      FieldSelf(s, fs[k], p, tag.typ, cur[k], depth, lim);
      var x := ReadField(s, fs[k], p, tag.typ, cur[k], depth, lim);
      AlikeSelf(s, fs, p[x.size..], cur[k := x.value], depth, lim);
      assert RecordAlike(s, fs, a, a);
    }
  }

  lemma {:induction false} EntrySelf(s: Schema, f: FieldDef, a: seq<Byte>, e: Pair, depth: nat, lim: Limits)
    requires f.typ.MapOf? && ReadEntry(s, f, a, e, depth, lim).Some?
    ensures Alike(s, EntryFields(f), a, a)
    decreases |a|, 2
  {
    hide ReadTag, ReadScalar, FindNumber, ScalarSize, ValueAlike, FieldSize, ValueUnder, WireOf;
    var fs := EntryFields(f);
    var u := UnknownFront(fs, a);
    if u > 0 {
      UnknownFirstInEntry(s, f, a, e, depth, lim);
      EntrySelf(s, f, a[u..], e, depth, lim);
      UnknownRight(s, fs, a[u..], a);
    } else if a != [] {
      var num, n := ReadTag(a).value.num, ReadTag(a).size;
      var p := a[n..];
      EntryNumbers(f, num);
      var t, under := if num == 1 then f.typ.k else f.typ.v,
                      if num == 1 then e.key else ValueUnder(s, f.typ.v, f.typ.held, e.val);
      ScalarSelf(s, t, f.zigzag, p, under, depth, lim);
      var x := ReadScalar(s, t, f.zigzag, p, under, depth, lim);
      EntrySelf(s, f, p[x.size..], if num == 1 then e.(key := x.value) else e.(val := Some(x.value)), depth, lim);
      assert RecordAlike(s, fs, a, a);
    }
  }
}
