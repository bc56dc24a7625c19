/**
Fields a struct does not know change nothing, wherever they stand between records: a reader
that has read a record never looks past it.
 */
module PbUnknown {
  import opened BigEndian
  import opened Wire
  import opened PbSchema
  import opened PbCodec

  // ---- Reading is not changed by what follows ----

  lemma {:induction false} VarintStable(s: seq<Byte>, t: seq<Byte>, i: nat)
    requires VarintFrom(s, i).Got?
    ensures VarintFrom(s + t, i) == VarintFrom(s, i)
    decreases 10 - i
  {
    assert (s + t)[i] == s[i];
    if s[i] >= 0x80 {
      VarintStable(s, t, i + 1);
    }
  }

  lemma TagStable(s: seq<Byte>, t: seq<Byte>)
    requires ReadTag(s).Got?
    ensures ReadTag(s + t) == ReadTag(s)
  {
    hide VarintFrom;
    VarintStable(s, t, 0);
  }

  lemma BytesStable(s: seq<Byte>, t: seq<Byte>)
    requires ReadBytes(s).Got?
    ensures ReadBytes(s + t) == ReadBytes(s)
  {
    hide VarintFrom;
    VarintStable(s, t, 0);
    var len, n := ReadVarint(s).value, ReadVarint(s).size;
    assert (s + t)[n..n + len] == s[n..n + len];
  }

  lemma FixedStable(n: nat, s: seq<Byte>, t: seq<Byte>)
    requires ReadFixed(n, s).Got?
    ensures ReadFixed(n, s + t) == ReadFixed(n, s)
  {
    assert (s + t)[..n] == s[..n];
  }

  lemma ScalarSizeStable(s: seq<Byte>, t: seq<Byte>, typ: WireType)
    requires ScalarSize(s, typ).Got?
    ensures ScalarSize(s + t, typ) == ScalarSize(s, typ)
  {
    hide VarintFrom, ReadBytes;
    match typ {
      case VarintType => VarintStable(s, t, 0);
      case BytesType => BytesStable(s, t);
      case Fixed64Type =>
      case Fixed32Type =>
      case _ =>
    }
  }

  lemma {:induction false} GroupSizeStable(s: seq<Byte>, t: seq<Byte>, open: seq<nat>)
    requires GroupSize(s, open).Got?
    ensures GroupSize(s + t, open) == GroupSize(s, open)
    decreases |s|
  {
    hide ReadTag, ScalarSize;
    if open != [] {
      TagStable(s, t);
      var tag, n := ReadTag(s).value, ReadTag(s).size;
      var rest := s[n..];
      assert (s + t)[n..] == rest + t;
      if tag.typ.EndGroup? {
        GroupSizeStable(rest, t, open[..|open| - 1]);
      } else if tag.typ.StartGroup? {
        GroupSizeStable(rest, t, open + [tag.num]);
      } else {
        ScalarSizeStable(rest, t, tag.typ);
        var m := ScalarSize(rest, tag.typ).size;
        assert (rest + t)[m..] == rest[m..] + t;
        GroupSizeStable(rest[m..], t, open);
      }
    }
  }

  lemma FieldSizeStable(s: seq<Byte>, t: seq<Byte>, num: nat, typ: WireType)
    requires FieldSize(s, num, typ).Got?
    ensures FieldSize(s + t, num, typ) == FieldSize(s, num, typ)
  {
    hide GroupSize, ScalarSize;
    if typ.StartGroup? {
      GroupSizeStable(s, t, [num]);
    } else {
      ScalarSizeStable(s, t, typ);
    }
  }

  lemma {:induction false} ScalarStable(s: Schema, t: ScalarType, zz: bool, data: seq<Byte>, more: seq<Byte>, cur: PVal,
                                        depth: nat, lim: Limits)
    requires ReadScalar(s, t, zz, data, cur, depth, lim).Got?
    ensures ReadScalar(s, t, zz, data + more, cur, depth, lim) == ReadScalar(s, t, zz, data, cur, depth, lim)
  {
    hide VarintFrom, ReadBytes, ReadFixed, ReadStruct;
    match t {
      case DoubleT => FixedStable(8, data, more);
      case FloatT => FixedStable(4, data, more);
      case StringT => BytesStable(data, more);
      case BytesT => BytesStable(data, more);
      case StructT(_) => BytesStable(data, more);
      case _ => VarintStable(data, more, 0);
    }
  }

  lemma {:induction false} FieldStable(s: Schema, f: FieldDef, data: seq<Byte>, more: seq<Byte>, typ: WireType,
                                       cur: FVal, depth: nat, lim: Limits)
    requires ReadField(s, f, data, typ, cur, depth, lim).Got?
    ensures ReadField(s, f, data + more, typ, cur, depth, lim) == ReadField(s, f, data, typ, cur, depth, lim)
  {
    hide ReadScalar, ReadBytes, ReadPacked, ReadEntry, Zero, Insert, HasKey;
    match f.typ {
      case Plain(t) => ScalarStable(s, t, f.zigzag, data, more, if cur.PlainF? then cur.v else Zero(s, t), depth, lim);
      case Opt(t) => ScalarStable(s, t, f.zigzag, data, more, Zero(s, t), depth, lim);
      case Ptr(t) =>
        ScalarStable(s, t, f.zigzag, data, more, if cur.OptF? && cur.o.Some? then cur.o.value else Zero(s, t), depth,
                     lim);
      case Vec(t) =>
        if Packable(t) && typ.BytesType? {
          BytesStable(data, more);
        } else {
          ScalarStable(s, t, f.zigzag, data, more, Zero(s, t), depth, lim);
        }
      case MapOf(_, _, _) => BytesStable(data, more);
    }
  }

  // ---- Records in sequence ----

  /** Records that are complete are read, and then the rest. */
  lemma {:induction false} RecordsConcat(s: Schema, fs: seq<FieldDef>, a: seq<Byte>, b: seq<Byte>, cur: seq<FVal>,
                                         depth: nat, lim: Limits)
    requires |cur| == |fs| && ReadRecords(s, fs, a, cur, depth, lim).Some?
    ensures ReadRecords(s, fs, a + b, cur, depth, lim)
            == ReadRecords(s, fs, b, ReadRecords(s, fs, a, cur, depth, lim).value, depth, lim)
    decreases |a|
  {
    hide ReadTag, ReadField, FieldSize, FindNumber;
    if a == [] {
      assert a + b == b;
    } else {
      TagStable(a, b);
      var tag, n := ReadTag(a).value, ReadTag(a).size;
      var rest := a[n..];
      assert (a + b)[n..] == rest + b;
      var k := FindNumber(fs, tag.num);
      if k < |fs| {
        FieldStable(s, fs[k], rest, b, tag.typ, cur[k], depth, lim);
        var m := ReadField(s, fs[k], rest, tag.typ, cur[k], depth, lim).size;
        assert (rest + b)[m..] == rest[m..] + b;
        RecordsConcat(s, fs, rest[m..], b, cur[k := ReadField(s, fs[k], rest, tag.typ, cur[k], depth, lim).value],
                      depth, lim);
      } else {
        FieldSizeStable(rest, b, tag.num, tag.typ);
        var m := FieldSize(rest, tag.num, tag.typ).size;
        assert (rest + b)[m..] == rest[m..] + b;
        RecordsConcat(s, fs, rest[m..], b, cur, depth, lim);
      }
    }
  }

  /** A record of a number the struct does not have: its tag, and a value of that wire type. */
  ghost predicate UnknownRecord(fs: seq<FieldDef>, num: nat, typ: WireType, value: seq<Byte>) {
    && ValidNumber(num) && FindNumber(fs, num) == |fs|
    && FieldSize(value, num, typ) == Got((), |value|)
  }

  lemma {:induction false} UnknownSkipped(s: Schema, fs: seq<FieldDef>, num: nat, typ: WireType, value: seq<Byte>,
                                          b: seq<Byte>, cur: seq<FVal>, depth: nat, lim: Limits)
    requires |cur| == |fs| && UnknownRecord(fs, num, typ, value)
    ensures ReadRecords(s, fs, TagBytes(num, typ) + value + b, cur, depth, lim)
            == ReadRecords(s, fs, b, cur, depth, lim)
  {
    hide ReadTag, FieldSize, FindNumber, TagBytes;
    var tag := TagBytes(num, typ);
    TagReads(num, typ, value + b);
    FieldSizeStable(value, b, num, typ);
    assert tag + value + b == tag + (value + b);
    assert (tag + (value + b))[|tag|..] == value + b && (value + b)[|value|..] == b;
  }

  /** An unknown record between two others changes nothing. */
  lemma {:induction false} UnknownIgnored(s: Schema, fs: seq<FieldDef>, a: seq<Byte>, num: nat, typ: WireType,
                                          value: seq<Byte>, b: seq<Byte>, cur: seq<FVal>, depth: nat, lim: Limits)
    requires |cur| == |fs| && UnknownRecord(fs, num, typ, value) && ReadRecords(s, fs, a, cur, depth, lim).Some?
    ensures ReadRecords(s, fs, a + (TagBytes(num, typ) + value + b), cur, depth, lim)
            == ReadRecords(s, fs, a + b, cur, depth, lim)
  {
    hide ReadRecords, UnknownRecord, TagBytes;
    RecordsConcat(s, fs, a, TagBytes(num, typ) + value + b, cur, depth, lim);
    RecordsConcat(s, fs, a, b, cur, depth, lim);
    UnknownSkipped(s, fs, num, typ, value, b, ReadRecords(s, fs, a, cur, depth, lim).value, depth, lim);
  }
}
