/**
Writing structs to protobuf's wire format and reading them back: include/protowire/pb.h,
MarshalStruct and UnmarshalStruct and what they call. Depth is counted alike on both sides: a
submessage or a map entry is one descent.
 */
module PbCodec {
  import opened Options
  import opened BigEndian
  import opened Wire
  import opened Utf8
  import opened PbSchema

  // ---- Integers ----

  function ZigZag(i: int): nat {
    if i >= 0 then 2 * i else -2 * i - 1
  }

  function UnZigZag(v: nat): int {
    if v % 2 == 0 then v / 2 else -(v / 2) - 1
  }

  /** A signed value's 64 bits. */
  function Bits64(i: int): int {
    if i < 0 then i + 0x1_0000_0000_0000_0000 else i
  }

  /** The low bits of v, as signed. */
  function ToSigned(bits: nat, v: int): int {
    var half := SignedLimit(bits);
    var r := v % (2 * half);
    if r >= half then r - 2 * half else r
  }

  function ToUnsigned(bits: nat, v: int): int {
    v % (2 * SignedLimit(bits))
  }

  function WireOf(t: ScalarType): WireType {
    match t
    case DoubleT => Fixed64Type
    case FloatT => Fixed32Type
    case StringT => BytesType
    case BytesT => BytesType
    case StructT(_) => BytesType
    case _ => VarintType
  }

  /** Written packed when repeated. */
  predicate Packable(t: ScalarType) {
    t.BoolT? || t.SignedT? || t.UnsignedT? || t.DoubleT? || t.FloatT?
  }

  // ---- Writing ----

  function Room(depth: nat, max: nat): nat {
    if depth <= max then max - depth + 1 else 0
  }

  /** A value's encoding, without its tag. */
  function Payload(s: Schema, t: ScalarType, zz: bool, v: PVal, depth: nat, max: nat): Option<seq<Byte>>
    decreases Room(depth, max), 0
  {
    match t
    case BoolT => if v.BoolP? then Some(Varint(if v.b then 1 else 0)) else None
    case SignedT(_) =>
      if v.IntP? && -0x8000_0000_0000_0000 <= v.i < 0x8000_0000_0000_0000 then
        Some(Varint(if zz then ZigZag(v.i) else Bits64(v.i)))
      else None
    case UnsignedT(_) => if v.IntP? && 0 <= v.i < 0x1_0000_0000_0000_0000 then Some(Varint(v.i)) else None
    case DoubleT => if v.FloatP? then Some(Fixed(8, DoubleBits(v.bits))) else None
    case FloatT => if v.FloatP? then Some(Fixed(4, FloatBits(v.bits))) else None
    case StringT => if v.BytesP? then Some(Bytes(v.s)) else None
    case BytesT => if v.BytesP? then Some(Bytes(v.s)) else None
    case StructT(i) =>
      if !v.StructP? || i >= |s| || depth + 1 > max then None
      else
        (match StructBytes(s, i, v.fields, depth + 1, max)
         case None => None
         case Some(b) => Some(Bytes(b)))
  }

  function Record(s: Schema, num: nat, t: ScalarType, zz: bool, v: PVal, depth: nat, max: nat): Option<seq<Byte>>
    decreases Room(depth, max), 1
  {
    match Payload(s, t, zz, v, depth, max)
    case None => None
    case Some(p) => Some(TagBytes(num, WireOf(t)) + p)
  }

  function Joined(a: Option<seq<Byte>>, b: Option<seq<Byte>>): Option<seq<Byte>> {
    if a.None? || b.None? then None else Some(a.value + b.value)
  }

  /** The elements of a packed field. */
  function Packed(s: Schema, t: ScalarType, zz: bool, vs: seq<PVal>, depth: nat, max: nat): Option<seq<Byte>>
    decreases Room(depth, max), 1, |vs|
  {
    if vs == [] then Some([])
    else Joined(Payload(s, t, zz, vs[0], depth, max), Packed(s, t, zz, vs[1..], depth, max))
  }

  /** One record for each element. */
  function Records(s: Schema, num: nat, t: ScalarType, zz: bool, vs: seq<PVal>, depth: nat, max: nat): Option<seq<Byte>>
    decreases Room(depth, max), 2, |vs|
  {
    if vs == [] then Some([])
    else Joined(Record(s, num, t, zz, vs[0], depth, max), Records(s, num, t, zz, vs[1..], depth, max))
  }

  /** A map entry: both its fields, zero or not; an unset value is written as zero. */
  function EntryBytes(s: Schema, f: FieldDef, e: Pair, depth: nat, max: nat): Option<seq<Byte>>
    requires f.typ.MapOf?
    decreases Room(depth, max), 2
  {
    var val := if e.val.Some? then e.val.value else Zero(s, f.typ.v);
    Joined(Record(s, 1, f.typ.k, f.zigzag, e.key, depth, max), Record(s, 2, f.typ.v, f.zigzag, val, depth, max))
  }

  function MapBytes(s: Schema, f: FieldDef, es: seq<Pair>, depth: nat, max: nat): Option<seq<Byte>>
    requires f.typ.MapOf?
    decreases Room(depth, max), 3, |es|
  {
    if es == [] then Some([])
    else
      match EntryBytes(s, f, es[0], depth, max)
      case None => None
      case Some(b) =>
        Joined(Some(TagBytes(f.number, BytesType) + Bytes(b)), MapBytes(s, f, es[1..], depth, max))
  }

  function FieldBytes(s: Schema, f: FieldDef, v: FVal, depth: nat, max: nat): Option<seq<Byte>>
    decreases Room(depth, max), 4
  {
    match f.typ
    case Plain(t) =>
      if !v.PlainF? then None
      else if IsZero(t, v.v) then Some([])
      else Record(s, f.number, t, f.zigzag, v.v, depth, max)
    case Opt(t) =>
      if !v.OptF? then None
      else if v.o.None? then Some([])
      else Record(s, f.number, t, f.zigzag, v.o.value, depth, max)
    case Ptr(t) =>
      if !v.OptF? then None
      else if v.o.None? then Some([])
      else Record(s, f.number, t, f.zigzag, v.o.value, depth, max)
    case Vec(t) =>
      if !v.VecF? then None
      else if v.vs == [] then Some([])
      else if Packable(t) then
        (match Packed(s, t, f.zigzag, v.vs, depth, max)
         case None => None
         case Some(p) => Some(TagBytes(f.number, BytesType) + Bytes(p)))
      else Records(s, f.number, t, f.zigzag, v.vs, depth, max)
    case MapOf(_, _, _) =>
      if !v.MapF? then None
      else if v.es == [] then Some([])
      else if depth + 1 > max then None
      else MapBytes(s, f, v.es, depth + 1, max)
  }

  function FieldsBytes(s: Schema, fs: seq<FieldDef>, vs: seq<FVal>, depth: nat, max: nat): Option<seq<Byte>>
    decreases Room(depth, max), 5, |fs|
  {
    if fs == [] then Some([])
    else if vs == [] then None
    else Joined(FieldBytes(s, fs[0], vs[0], depth, max), FieldsBytes(s, fs[1..], vs[1..], depth, max))
  }

  function StructBytes(s: Schema, i: nat, vs: seq<FVal>, depth: nat, max: nat): Option<seq<Byte>>
    requires i < |s|
    decreases Room(depth, max), 6
  {
    if depth > max then None else FieldsBytes(s, s[i], vs, depth, max)
  }

  // ---- Reading ----

  datatype Limits = Limits(maxDepth: nat, maxRepeated: nat)

  function FieldsOf(s: Schema, i: nat, v: PVal): (r: seq<FVal>)
    requires i < |s|
    ensures |r| == |s[i]|
  {
    if v.StructP? && |v.fields| == |s[i]| then v.fields else ZeroFields(s, i, s[i])
  }

  /** A value from the front of data; a struct is merged into the one already there. */
  function ReadScalar(s: Schema, t: ScalarType, zz: bool, data: seq<Byte>, cur: PVal, depth: nat,
                      lim: Limits): (r: Read<PVal>)
    ensures r.Got? ==> 0 < r.size <= |data|
    decreases |data|, 0
  {
    match t
    case BoolT => (match ReadVarint(data) case Bad => Bad case Got(x, n) => Got(BoolP(x != 0), n))
    case SignedT(bits) =>
      (match ReadVarint(data)
       case Bad => Bad
       case Got(x, n) => Got(IntP(ToSigned(bits, if zz then UnZigZag(x) else x)), n))
    case UnsignedT(bits) =>
      (match ReadVarint(data) case Bad => Bad case Got(x, n) => Got(IntP(ToUnsigned(bits, x)), n))
    case DoubleT => (match ReadFixed(8, data) case Bad => Bad case Got(x, n) => Got(FloatP(x), n))
    case FloatT => (match ReadFixed(4, data) case Bad => Bad case Got(x, n) => Got(FloatP(x), n))
    case StringT =>
      (match ReadBytes(data)
       case Bad => Bad
       case Got(b, n) => if ValidUtf8(b) then Got(BytesP(b), n) else Bad)
    case BytesT => (match ReadBytes(data) case Bad => Bad case Got(b, n) => Got(BytesP(b), n))
    case StructT(i) =>
      (match ReadBytes(data)
       case Bad => Bad
       case Got(b, n) =>
         if i >= |s| then Bad
         else
           match ReadStruct(s, i, b, FieldsOf(s, i, cur), depth + 1, lim)
           case None => Bad
           case Some(fs) => Got(StructP(fs), n))
  }

  /** The elements of a packed record, appended. */
  function ReadPacked(s: Schema, t: ScalarType, zz: bool, data: seq<Byte>, vs: seq<PVal>, depth: nat,
                      lim: Limits): Option<seq<PVal>>
    decreases |data|, 1
  {
    if data == [] then Some(vs)
    else
      match ReadScalar(s, t, zz, data, Zero(s, t), depth, lim)
      case Bad => None
      case Got(v, n) =>
        if |vs| >= lim.maxRepeated then None else ReadPacked(s, t, zz, data[n..], vs + [v], depth, lim)
  }

  /** A map value before its entry is read. */
  function FreshValue(s: Schema, t: ScalarType, held: Held): Option<PVal> {
    if held.Bare? then Some(Zero(s, t)) else None
  }

  /** What a map entry's value field is read over. */
  function ValueUnder(s: Schema, t: ScalarType, held: Held, val: Option<PVal>): PVal {
    if val.Some? && !held.InOptional? then val.value else Zero(s, t)
  }

  function ReadEntry(s: Schema, f: FieldDef, data: seq<Byte>, e: Pair, depth: nat, lim: Limits): Option<Pair>
    requires f.typ.MapOf?
    decreases |data|, 1
  {
    if data == [] then Some(e)
    else
      match ReadTag(data)
      case Bad => None
      case Got(tag, n) =>
        var rest := data[n..];
        if tag.num == 1 then
          match ReadScalar(s, f.typ.k, f.zigzag, rest, e.key, depth, lim)
          case Bad => None
          case Got(x, k) => ReadEntry(s, f, rest[k..], e.(key := x), depth, lim)
        else if tag.num == 2 then
          match ReadScalar(s, f.typ.v, f.zigzag, rest, ValueUnder(s, f.typ.v, f.typ.held, e.val), depth, lim)
          case Bad => None
          case Got(x, k) => ReadEntry(s, f, rest[k..], e.(val := Some(x)), depth, lim)
        else
          match FieldSize(rest, tag.num, tag.typ)
          case Bad => None
          case Got(_, k) => ReadEntry(s, f, rest[k..], e, depth, lim)
  }

  predicate HasKey(es: seq<Pair>, key: PVal) {
    exists i :: 0 <= i < |es| && es[i].key == key
  }

  /** insert_or_assign. */
  function Insert(es: seq<Pair>, e: Pair): seq<Pair> {
    if es == [] then [e]
    else if es[0].key == e.key then [e] + es[1..]
    else [es[0]] + Insert(es[1..], e)
  }

  function ReadField(s: Schema, f: FieldDef, data: seq<Byte>, typ: WireType, cur: FVal, depth: nat,
                     lim: Limits): (r: Read<FVal>)
    ensures r.Got? ==> 0 < r.size <= |data|
    decreases |data|, 2
  {
    match f.typ
    case Plain(t) =>
      (match ReadScalar(s, t, f.zigzag, data, if cur.PlainF? then cur.v else Zero(s, t), depth, lim)
       case Bad => Bad
       case Got(x, n) => Got(PlainF(x), n))
    case Opt(t) =>
      (match ReadScalar(s, t, f.zigzag, data, Zero(s, t), depth, lim)
       case Bad => Bad
       case Got(x, n) => Got(OptF(Some(x)), n))
    case Ptr(t) =>
      (match ReadScalar(s, t, f.zigzag, data, if cur.OptF? && cur.o.Some? then cur.o.value else Zero(s, t), depth, lim)
       case Bad => Bad
       case Got(x, n) => Got(OptF(Some(x)), n))
    case Vec(t) =>
      var vs := if cur.VecF? then cur.vs else [];
      if Packable(t) && typ.BytesType? then
        (match ReadBytes(data)
         case Bad => Bad
         case Got(b, n) =>
           match ReadPacked(s, t, f.zigzag, b, vs, depth, lim)
           case None => Bad
           case Some(all) => Got(VecF(all), n))
      else
        (match ReadScalar(s, t, f.zigzag, data, Zero(s, t), depth, lim)
         case Bad => Bad
         case Got(x, n) => if |vs| >= lim.maxRepeated then Bad else Got(VecF(vs + [x]), n))
    case MapOf(k, t, held) =>
      var es := if cur.MapF? then cur.es else [];
      (match ReadBytes(data)
       case Bad => Bad
       case Got(b, n) =>
         if depth + 1 > lim.maxDepth then Bad
         else
           match ReadEntry(s, f, b, Pair(Zero(s, k), FreshValue(s, t, held)), depth + 1, lim)
           case None => Bad
           case Some(e) =>
             if |es| >= lim.maxRepeated && !HasKey(es, e.key) then Bad else Got(MapF(Insert(es, e)), n))
  }

  /** The field of that number, or the number of fields. */
  function FindNumber(fs: seq<FieldDef>, num: nat): (k: nat)
    ensures k <= |fs| && (k < |fs| ==> fs[k].number == num)
  {
    if fs == [] || fs[0].number == num then 0 else 1 + FindNumber(fs[1..], num)
  }

  /** A struct's records, in any order; one of no field is skipped. */
  function ReadRecords(s: Schema, fs: seq<FieldDef>, data: seq<Byte>, cur: seq<FVal>, depth: nat,
                       lim: Limits): (r: Option<seq<FVal>>)
    requires |cur| == |fs|
    ensures r.Some? ==> |r.value| == |fs|
    decreases |data|, 3
  {
    if data == [] then Some(cur)
    else
      match ReadTag(data)
      case Bad => None
      case Got(tag, n) =>
        var rest := data[n..];
        var k := FindNumber(fs, tag.num);
        if k < |fs| then
          match ReadField(s, fs[k], rest, tag.typ, cur[k], depth, lim)
          case Bad => None
          case Got(x, m) => ReadRecords(s, fs, rest[m..], cur[k := x], depth, lim)
        else
          match FieldSize(rest, tag.num, tag.typ)
          case Bad => None
          case Got(_, m) => ReadRecords(s, fs, rest[m..], cur, depth, lim)
  }

  function ReadStruct(s: Schema, i: nat, data: seq<Byte>, cur: seq<FVal>, depth: nat,
                      lim: Limits): (r: Option<seq<FVal>>)
    requires i < |s| && |cur| == |s[i]|
    ensures r.Some? ==> |r.value| == |s[i]|
    decreases |data|, 4
  {
    if depth > lim.maxDepth then None else ReadRecords(s, s[i], data, cur, depth, lim)
  }
}
