/**
The codec's loops: include/protowire/pb.h. Marshalling appends to an output buffer field by
field; unmarshalling shrinks its input record by record and assigns into the struct.
 */
module PbStruct {
  import opened Options
  import opened BigEndian
  import opened Wire
  import opened Utf8
  import opened PbSchema
  import opened PbCodec

  /** What appending b to out leaves, where there is anything to append. */
  ghost predicate Appended(ok: bool, out: seq<Byte>, out0: seq<Byte>, b: Option<seq<Byte>>) {
    ok == b.Some? && (ok ==> out == out0 + b.value)
  }

  lemma AppendJoined(a: seq<Byte>, b: Option<seq<Byte>>, c: Option<seq<Byte>>)
    ensures b.Some? && c.Some? ==> Joined(b, c).Some? && a + Joined(b, c).value == (a + b.value) + c.value
  {
  }

  // ---- Marshal ----

  method MarshalScalar(s: Schema, num: nat, t: ScalarType, zz: bool, v: PVal, out0: seq<Byte>, depth: nat, max: nat)
    returns (ok: bool, out: seq<Byte>)
    ensures Appended(ok, out, out0, Record(s, num, t, zz, v, depth, max))
    decreases Room(depth, max), 1
  {
    hide StructBytes, Bytes, TagBytes;
    out := out0;
    var p: seq<Byte> := [];
    if t.StructT? {
      if !v.StructP? || t.i >= |s| || depth + 1 > max {
        return false, out;
      }
      var sub;
      ok, sub := MarshalStruct(s, t.i, v.fields, [], depth + 1, max);
      if !ok {
        return;
      }
      ghost var b := StructBytes(s, t.i, v.fields, depth + 1, max).value;
      assert [] + b == b;
      p := Bytes(sub);
    } else if t.StringT? || t.BytesT? {
      if !v.BytesP? {
        return false, out;
      }
      p := Bytes(v.s);
    } else {
      ok, p := AppendElement([], t, zz, v);
      ElementIs(s, t, zz, v, depth, max);
      if !ok {
        return false, out;
      }
      ghost var b := Payload(s, t, zz, v, depth, max).value;
      assert [] + b == b;
    }
    out := out + (TagBytes(num, WireOf(t)) + p);
    ok := true;
  }

  /** The value of a number or bool, without a tag. */
  method AppendElement(out0: seq<Byte>, t: ScalarType, zz: bool, v: PVal) returns (ok: bool, out: seq<Byte>)
    requires Packable(t)
    ensures Appended(ok, out, out0, Payload([], t, zz, v, 0, 0))
  {
    hide Varint, Fixed;
    out := out0;
    match t {
      case BoolT =>
        if !v.BoolP? {
          return false, out;
        }
        out := AppendVarint(out, if v.b then 1 else 0);
      case DoubleT =>
        if !v.FloatP? {
          return false, out;
        }
        out := AppendFixed(out, 8, DoubleBits(v.bits));
      case FloatT =>
        if !v.FloatP? {
          return false, out;
        }
        out := AppendFixed(out, 4, FloatBits(v.bits));
      case SignedT(_) =>
        if !v.IntP? || v.i < -0x8000_0000_0000_0000 || v.i >= 0x8000_0000_0000_0000 {
          return false, out;
        }
        out := AppendVarint(out, if zz then ZigZag(v.i) else Bits64(v.i));
      case UnsignedT(_) =>
        if !v.IntP? || v.i < 0 || v.i >= 0x1_0000_0000_0000_0000 {
          return false, out;
        }
        out := AppendVarint(out, v.i);
    }
    ok := true;
  }

  /** It has no struct in it, and so no depth. */
  lemma ElementIs(s: Schema, t: ScalarType, zz: bool, v: PVal, depth: nat, max: nat)
    requires Packable(t)
    ensures Payload(s, t, zz, v, depth, max) == Payload([], t, zz, v, 0, 0)
  {
  }

  /** The low n bytes of v, least significant first. */
  method AppendFixed(out0: seq<Byte>, n: nat, v: nat) returns (out: seq<Byte>)
    ensures out == out0 + Fixed(n, v)
  {
    out := out0;
    var i, rest := 0, v;
    while i < n
      invariant 0 <= i <= n && out + Fixed(n - i, rest) == out0 + Fixed(n, v)
    {
      assert out + ([rest % 0x100] + Fixed(n - i - 1, rest / 0x100))
             == (out + [rest % 0x100]) + Fixed(n - i - 1, rest / 0x100);
      out := out + [rest % 0x100];
      rest := rest / 0x100;
      i := i + 1;
    }
    assert out + [] == out;
  }

  method MarshalRepeated(s: Schema, f: FieldDef, t: ScalarType, vs: seq<PVal>, out0: seq<Byte>, depth: nat, max: nat)
    returns (ok: bool, out: seq<Byte>)
    ensures Appended(ok, out, out0, Records(s, f.number, t, f.zigzag, vs, depth, max))
    decreases Room(depth, max), 2
  {
    hide Record;
    out := out0;
    var i := 0;
    assert vs[0..] == vs;
    while i < |vs|
      invariant 0 <= i <= |vs|
      invariant Records(s, f.number, t, f.zigzag, vs, depth, max).Some?
                <==> Records(s, f.number, t, f.zigzag, vs[i..], depth, max).Some?
      invariant Records(s, f.number, t, f.zigzag, vs, depth, max).Some? ==>
                  out + Records(s, f.number, t, f.zigzag, vs[i..], depth, max).value
                  == out0 + Records(s, f.number, t, f.zigzag, vs, depth, max).value
    {
      ghost var before := out;
      assert vs[i..][0] == vs[i] && vs[i..][1..] == vs[i + 1..];
      AppendJoined(before, Record(s, f.number, t, f.zigzag, vs[i], depth, max),
                   Records(s, f.number, t, f.zigzag, vs[i + 1..], depth, max));
      ok, out := MarshalScalar(s, f.number, t, f.zigzag, vs[i], out, depth, max);
      if !ok {
        return;
      }
      i := i + 1;
    }
    assert vs[i..] == [] && out + [] == out;
    ok := true;
  }

  method MarshalPacked(s: Schema, t: ScalarType, zz: bool, vs: seq<PVal>, depth: nat, max: nat)
    returns (ok: bool, payload: seq<Byte>)
    requires Packable(t)
    ensures Appended(ok, payload, [], Packed(s, t, zz, vs, depth, max))
  {
    hide Payload;
    payload := [];
    var i := 0;
    assert vs[0..] == vs;
    while i < |vs|
      invariant 0 <= i <= |vs|
      invariant Packed(s, t, zz, vs, depth, max).Some? <==> Packed(s, t, zz, vs[i..], depth, max).Some?
      invariant Packed(s, t, zz, vs, depth, max).Some? ==>
                  payload + Packed(s, t, zz, vs[i..], depth, max).value == [] + Packed(s, t, zz, vs, depth, max).value
    {
      assert vs[i..][0] == vs[i] && vs[i..][1..] == vs[i + 1..];
      AppendJoined(payload, Payload(s, t, zz, vs[i], depth, max), Packed(s, t, zz, vs[i + 1..], depth, max));
      ElementIs(s, t, zz, vs[i], depth, max);
      ok, payload := AppendElement(payload, t, zz, vs[i]);
      if !ok {
        return;
      }
      i := i + 1;
    }
    assert vs[i..] == [] && payload + [] == payload;
    ok := true;
  }

  method MarshalMap(s: Schema, f: FieldDef, es: seq<Pair>, out0: seq<Byte>, depth: nat, max: nat)
    returns (ok: bool, out: seq<Byte>)
    requires f.typ.MapOf?
    ensures Appended(ok, out, out0, MapBytes(s, f, es, depth, max))
    decreases Room(depth, max), 3
  {
    hide EntryBytes, TagBytes, Bytes;
    out := out0;
    var i := 0;
    assert es[0..] == es;
    while i < |es|
      invariant 0 <= i <= |es|
      invariant MapBytes(s, f, es, depth, max).Some? <==> MapBytes(s, f, es[i..], depth, max).Some?
      invariant MapBytes(s, f, es, depth, max).Some? ==>
                  out + MapBytes(s, f, es[i..], depth, max).value == out0 + MapBytes(s, f, es, depth, max).value
    {
      assert es[i..][0] == es[i] && es[i..][1..] == es[i + 1..];
      var entry;
      ok, entry := MarshalEntry(s, f, es[i], depth, max);
      if !ok {
        return;
      }
      assert [] + EntryBytes(s, f, es[i], depth, max).value == EntryBytes(s, f, es[i], depth, max).value;
      var record := TagBytes(f.number, BytesType) + Bytes(entry);
      AppendJoined(out, Some(record), MapBytes(s, f, es[i + 1..], depth, max));
      out := out + record;
      i := i + 1;
    }
    assert es[i..] == [] && out + [] == out;
    ok := true;
  }

  method MarshalEntry(s: Schema, f: FieldDef, e: Pair, depth: nat, max: nat) returns (ok: bool, entry: seq<Byte>)
    requires f.typ.MapOf?
    ensures Appended(ok, entry, [], EntryBytes(s, f, e, depth, max))
    decreases Room(depth, max), 2
  {
    hide Record, Zero;
    ok, entry := MarshalScalar(s, 1, f.typ.k, f.zigzag, e.key, [], depth, max);
    if !ok {
      return;
    }
    var val := if e.val.Some? then e.val.value else Zero(s, f.typ.v);
    AppendJoined([], Record(s, 1, f.typ.k, f.zigzag, e.key, depth, max),
                 Record(s, 2, f.typ.v, f.zigzag, val, depth, max));
    ok, entry := MarshalScalar(s, 2, f.typ.v, f.zigzag, val, entry, depth, max);
  }

  method MarshalField(s: Schema, f: FieldDef, v: FVal, out0: seq<Byte>, depth: nat, max: nat)
    returns (ok: bool, out: seq<Byte>)
    ensures Appended(ok, out, out0, FieldBytes(s, f, v, depth, max))
    decreases Room(depth, max), 4
  {
    hide Record, Packed, Records, MapBytes, TagBytes, Bytes, IsZero;
    out := out0;
    assert out0 + [] == out0;
    match f.typ {
      case Plain(t) =>
        if !v.PlainF? {
          return false, out;
        }
        if IsZero(t, v.v) {
          return true, out;
        }
        ok, out := MarshalScalar(s, f.number, t, f.zigzag, v.v, out, depth, max);
      case Opt(t) =>
        if !v.OptF? {
          return false, out;
        }
        if v.o.None? {
          return true, out;
        }
        ok, out := MarshalScalar(s, f.number, t, f.zigzag, v.o.value, out, depth, max);
      case Ptr(t) =>
        if !v.OptF? {
          return false, out;
        }
        if v.o.None? {
          return true, out;
        }
        ok, out := MarshalScalar(s, f.number, t, f.zigzag, v.o.value, out, depth, max);
      case Vec(t) =>
        if !v.VecF? {
          return false, out;
        }
        if v.vs == [] {
          return true, out;
        }
        if Packable(t) {
          var payload;
          ok, payload := MarshalPacked(s, t, f.zigzag, v.vs, depth, max);
          if !ok {
            return;
          }
          assert [] + Packed(s, t, f.zigzag, v.vs, depth, max).value == Packed(s, t, f.zigzag, v.vs, depth, max).value;
          out := out + (TagBytes(f.number, BytesType) + Bytes(payload));
        } else {
          ok, out := MarshalRepeated(s, f, t, v.vs, out, depth, max);
        }
      case MapOf(_, _, _) =>
        if !v.MapF? {
          return false, out;
        }
        if v.es == [] {
          return true, out;
        }
        if depth + 1 > max {
          return false, out;
        }
        ok, out := MarshalMap(s, f, v.es, out, depth + 1, max);
    }
  }

  /** The fields of a struct in order, stopping at the first that cannot be written. */
  method MarshalStruct(s: Schema, i: nat, vs: seq<FVal>, out0: seq<Byte>, depth: nat, max: nat)
    returns (ok: bool, out: seq<Byte>)
    requires i < |s|
    ensures Appended(ok, out, out0, StructBytes(s, i, vs, depth, max))
    decreases Room(depth, max), 6
  {
    hide FieldBytes;
    out := out0;
    if depth > max {
      return false, out;
    }
    var fs := s[i];
    var k := 0;
    assert fs[0..] == fs && vs[0..] == vs;
    while k < |fs|
      invariant 0 <= k <= |fs| && k <= |vs|
      invariant FieldsBytes(s, fs, vs, depth, max).Some? <==> FieldsBytes(s, fs[k..], vs[k..], depth, max).Some?
      invariant FieldsBytes(s, fs, vs, depth, max).Some? ==>
                  out + FieldsBytes(s, fs[k..], vs[k..], depth, max).value
                      == out0 + FieldsBytes(s, fs, vs, depth, max).value
    {
      if k == |vs| {
        return false, out;
      }
      assert fs[k..][0] == fs[k] && fs[k..][1..] == fs[k + 1..] && vs[k..][0] == vs[k] && vs[k..][1..] == vs[k + 1..];
      AppendJoined(out, FieldBytes(s, fs[k], vs[k], depth, max), FieldsBytes(s, fs[k + 1..], vs[k + 1..], depth, max));
      ok, out := MarshalField(s, fs[k], vs[k], out, depth, max);
      if !ok {
        return;
      }
      k := k + 1;
    }
    assert fs[k..] == [] && out + [] == out;
    ok := true;
  }

  // ---- Unmarshal ----

  method UnmarshalScalar(s: Schema, t: ScalarType, zz: bool, data: seq<Byte>, cur: PVal, depth: nat, lim: Limits)
    returns (r: Read<PVal>)
    ensures r == ReadScalar(s, t, zz, data, cur, depth, lim)
    decreases |data|, 0
  {
    hide ReadVarint, ReadBytes, ReadFixed, ReadStruct, FieldsOf, ToSigned, ToUnsigned, UnZigZag, ValidUtf8;
    if t.BoolT? || t.SignedT? || t.UnsignedT? {
      var x := ConsumeVarint(data);
      if x.Bad? {
        return Bad;
      }
      if t.BoolT? {
        return Got(BoolP(x.value != 0), x.size);
      }
      if t.UnsignedT? {
        return Got(IntP(ToUnsigned(t.bits, x.value)), x.size);
      }
      return Got(IntP(ToSigned(t.bits, if zz then UnZigZag(x.value) else x.value)), x.size);
    }
    if t.DoubleT? || t.FloatT? {
      var x := ReadFixed(if t.DoubleT? then 8 else 4, data);
      return if x.Bad? then Bad else Got(FloatP(x.value), x.size);
    }
    if t.StructT? {
      var bytes := ReadBytes(data);
      if bytes.Bad? || t.i >= |s| {
        return Bad;
      }
      var fields := UnmarshalStruct(s, t.i, bytes.value, FieldsOf(s, t.i, cur), depth + 1, lim);
      if fields.None? {
        return Bad;
      }
      r := Got(StructP(fields.value), bytes.size);
    } else {
      var bytes := ReadBytes(data);
      if bytes.Bad? {
        return Bad;
      }
      if t.StringT? {
        var valid := IsValidUTF8(bytes.value);
        if !valid {
          return Bad;
        }
      }
      r := Got(BytesP(bytes.value), bytes.size);
    }
  }

  method UnmarshalPacked(s: Schema, t: ScalarType, zz: bool, payload0: seq<Byte>, vs0: seq<PVal>, depth: nat,
                         lim: Limits)
    returns (r: Option<seq<PVal>>)
    ensures r == ReadPacked(s, t, zz, payload0, vs0, depth, lim)
    decreases |payload0|, 1
  {
    hide ReadScalar, Zero;
    var payload, vs := payload0, vs0;
    while payload != []
      invariant |payload| <= |payload0|
      invariant ReadPacked(s, t, zz, payload, vs, depth, lim) == ReadPacked(s, t, zz, payload0, vs0, depth, lim)
      decreases |payload|
    {
      var v := UnmarshalScalar(s, t, zz, payload, Zero(s, t), depth, lim);
      if v.Bad? {
        return None;
      }
      if |vs| >= lim.maxRepeated {
        return None;
      }
      payload, vs := payload[v.size..], vs + [v.value];
    }
    r := Some(vs);
  }

  method UnmarshalEntry(s: Schema, f: FieldDef, data0: seq<Byte>, e0: Pair, depth: nat, lim: Limits)
    returns (r: Option<Pair>)
    requires f.typ.MapOf?
    ensures r == ReadEntry(s, f, data0, e0, depth, lim)
    decreases |data0|, 1
  {
    hide ReadScalar, ReadTag, FieldSize, ValueUnder;
    var data, e := data0, e0;
    while data != []
      invariant |data| <= |data0|
      invariant ReadEntry(s, f, data, e, depth, lim) == ReadEntry(s, f, data0, e0, depth, lim)
      decreases |data|
    {
      var t := ReadTag(data);
      if t.Bad? {
        return None;
      }
      var rest := data[t.size..];
      if t.value.num == 1 {
        var x := UnmarshalScalar(s, f.typ.k, f.zigzag, rest, e.key, depth, lim);
        if x.Bad? {
          return None;
        }
        data, e := rest[x.size..], e.(key := x.value);
      } else if t.value.num == 2 {
        var x := UnmarshalScalar(s, f.typ.v, f.zigzag, rest, ValueUnder(s, f.typ.v, f.typ.held, e.val), depth, lim);
        if x.Bad? {
          return None;
        }
        data, e := rest[x.size..], e.(val := Some(x.value));
      } else {
        var k := ConsumeFieldValue(rest, t.value.num, t.value.typ);
        if k.Bad? {
          return None;
        }
        data := rest[k.size..];
      }
    }
    r := Some(e);
  }

  method UnmarshalField(s: Schema, f: FieldDef, data: seq<Byte>, typ: WireType, cur: FVal, depth: nat, lim: Limits)
    returns (r: Read<FVal>)
    ensures r == ReadField(s, f, data, typ, cur, depth, lim)
    decreases |data|, 2
  {
    hide ReadScalar, ReadBytes, ReadPacked, ReadEntry, Zero, Insert, HasKey, FreshValue;
    match f.typ {
      case Plain(t) =>
        var x := UnmarshalScalar(s, t, f.zigzag, data, if cur.PlainF? then cur.v else Zero(s, t), depth, lim);
        r := if x.Bad? then Bad else Got(PlainF(x.value), x.size);
      case Opt(t) =>
        var x := UnmarshalScalar(s, t, f.zigzag, data, Zero(s, t), depth, lim);
        r := if x.Bad? then Bad else Got(OptF(Some(x.value)), x.size);
      case Ptr(t) =>
        var x := UnmarshalScalar(s, t, f.zigzag, data, if cur.OptF? && cur.o.Some? then cur.o.value else Zero(s, t),
                                 depth, lim);
        r := if x.Bad? then Bad else Got(OptF(Some(x.value)), x.size);
      case Vec(_) =>
        r := UnmarshalElements(s, f, data, typ, cur, depth, lim);
      case MapOf(_, _, _) =>
        r := UnmarshalMapField(s, f, data, typ, cur, depth, lim);
    }
  }

  /** A packed record of elements, or a record of one. */
  method UnmarshalElements(s: Schema, f: FieldDef, data: seq<Byte>, typ: WireType, cur: FVal, depth: nat, lim: Limits)
    returns (r: Read<FVal>)
    requires f.typ.Vec?
    ensures r == ReadField(s, f, data, typ, cur, depth, lim)
    decreases |data|, 1
  {
    hide ReadScalar, ReadBytes, ReadPacked, Zero;
    var t := f.typ.t;
    var vs := if cur.VecF? then cur.vs else [];
    if Packable(t) && typ.BytesType? {
      var payload := ReadBytes(data);
      if payload.Bad? {
        return Bad;
      }
      var all := UnmarshalPacked(s, t, f.zigzag, payload.value, vs, depth, lim);
      r := if all.None? then Bad else Got(VecF(all.value), payload.size);
    } else {
      var x := UnmarshalScalar(s, t, f.zigzag, data, Zero(s, t), depth, lim);
      r := if x.Bad? || |vs| >= lim.maxRepeated then Bad else Got(VecF(vs + [x.value]), x.size);
    }
  }

  /** A map entry: a descent of its own, counted before it is added. */
  method UnmarshalMapField(s: Schema, f: FieldDef, data: seq<Byte>, typ: WireType, cur: FVal, depth: nat, lim: Limits)
    returns (r: Read<FVal>)
    requires f.typ.MapOf?
    ensures r == ReadField(s, f, data, typ, cur, depth, lim)
    decreases |data|, 1
  {
    hide ReadScalar, ReadBytes, ReadEntry, Zero, Insert, HasKey, FreshValue;
    var es := if cur.MapF? then cur.es else [];
    var entry := ReadBytes(data);
    if entry.Bad? || depth + 1 > lim.maxDepth {
      return Bad;
    }
    var e := UnmarshalEntry(s, f, entry.value, Pair(Zero(s, f.typ.k), FreshValue(s, f.typ.v, f.typ.held)), depth + 1,
                            lim);
    if e.None? || (|es| >= lim.maxRepeated && !HasKey(es, e.value.key)) {
      return Bad;
    }
    r := Got(MapF(Insert(es, e.value)), entry.size);
  }

  method UnmarshalStruct(s: Schema, i: nat, data0: seq<Byte>, cur0: seq<FVal>, depth: nat, lim: Limits)
    returns (r: Option<seq<FVal>>)
    requires i < |s| && |cur0| == |s[i]|
    ensures r == ReadStruct(s, i, data0, cur0, depth, lim)
    decreases |data0|, 4
  {
    hide ReadField, ReadTag, FieldSize, FindNumber;
    if depth > lim.maxDepth {
      return None;
    }
    var data, cur := data0, cur0;
    while data != []
      invariant |data| <= |data0| && |cur| == |s[i]|
      invariant ReadRecords(s, s[i], data, cur, depth, lim) == ReadRecords(s, s[i], data0, cur0, depth, lim)
      decreases |data|
    {
      var t := ReadTag(data);
      if t.Bad? {
        return None;
      }
      var rest := data[t.size..];
      var k := FindNumber(s[i], t.value.num);
      if k < |s[i]| {
        var x := UnmarshalField(s, s[i][k], rest, t.value.typ, cur[k], depth, lim);
        if x.Bad? {
          return None;
        }
        data, cur := rest[x.size..], cur[k := x.value];
      } else {
        var skipped := ConsumeFieldValue(rest, t.value.num, t.value.typ);
        if skipped.Bad? {
          return None;
        }
        data := rest[skipped.size..];
      }
    }
    r := Some(cur);
  }
}
