/**
The structs a protobuf codec is generated for, and their values: include/protowire/pb.h. A
schema is a list of struct types; a field holds a value, an optional one, a list or a map.
 */
module PbSchema {
  import opened Options
  import opened BigEndian
  import opened Wire
  import opened Utf8

  datatype ScalarType =
    | BoolT
    | SignedT(bits: nat)
    | UnsignedT(bits: nat)
    | DoubleT
    | FloatT
    | StringT
    | BytesT
    | StructT(i: nat)

  /** How a map's value is held. */
  datatype Held = Bare | InOptional | InPointer

  datatype FieldType =
    | Plain(t: ScalarType)
    | Opt(t: ScalarType)
    | Ptr(t: ScalarType)
    | Vec(t: ScalarType)
    | MapOf(k: ScalarType, v: ScalarType, held: Held)

  datatype FieldDef = FieldDef(number: nat, typ: FieldType, zigzag: bool)

  type Schema = seq<seq<FieldDef>>

  /** A scalar or a struct; a float or double is its bit pattern, a string its bytes. */
  datatype PVal = BoolP(b: bool) | IntP(i: int) | FloatP(bits: nat) | BytesP(s: seq<Byte>) | StructP(fields: seq<FVal>)

  datatype Pair = Pair(key: PVal, val: Option<PVal>)

  datatype FVal = PlainF(v: PVal) | OptF(o: Option<PVal>) | VecF(vs: seq<PVal>) | MapF(es: seq<Pair>)

  // ---- Well-formed schemas ----

  predicate ScalarOk(s: Schema, t: ScalarType) {
    match t
    case SignedT(bits) => bits == 8 || bits == 16 || bits == 32 || bits == 64
    case UnsignedT(bits) => bits == 8 || bits == 16 || bits == 32 || bits == 64
    case StructT(i) => i < |s|
    case _ => true
  }

  predicate KeyOk(t: ScalarType) {
    t.BoolT? || t.SignedT? || t.UnsignedT? || t.StringT?
  }

  predicate FieldOk(s: Schema, f: FieldDef) {
    && ValidNumber(f.number)
    && match f.typ
       case MapOf(k, v, _) => KeyOk(k) && ScalarOk(s, k) && ScalarOk(s, v)
       case Plain(t) => ScalarOk(s, t)
       case Opt(t) => ScalarOk(s, t)
       case Ptr(t) => ScalarOk(s, t)
       case Vec(t) => ScalarOk(s, t)
  }

  /** A struct held by value is a type already complete. */
  predicate Complete(f: FieldDef, i: nat) {
    f.typ.Plain? && f.typ.t.StructT? ==> f.typ.t.i < i
  }

  predicate StructOk(s: Schema, i: nat)
    requires i < |s|
  {
    && (forall k :: 0 <= k < |s[i]| ==> FieldOk(s, s[i][k]) && Complete(s[i][k], i))
    && forall j, k :: 0 <= j < k < |s[i]| ==> s[i][j].number != s[i][k].number
  }

  predicate SchemaOk(s: Schema) {
    forall i :: 0 <= i < |s| ==> StructOk(s, i)
  }

  // ---- Zero values ----

  function ZeroScalar(t: ScalarType): PVal {
    match t
    case BoolT => BoolP(false)
    case SignedT(_) => IntP(0)
    case UnsignedT(_) => IntP(0)
    case DoubleT => FloatP(0)
    case FloatT => FloatP(0)
    case StringT => BytesP([])
    case BytesT => BytesP([])
    case StructT(_) => StructP([])
  }

  function Zero(s: Schema, t: ScalarType): PVal {
    if t.StructT? && t.i < |s| then StructP(ZeroFields(s, t.i, s[t.i])) else ZeroScalar(t)
  }

  /** A default-constructed struct. */
  function ZeroFields(s: Schema, i: nat, fs: seq<FieldDef>): (r: seq<FVal>)
    ensures |r| == |fs|
    decreases i, |fs|
  {
    if fs == [] then [] else [ZeroField(s, i, fs[0])] + ZeroFields(s, i, fs[1..])
  }

  function ZeroField(s: Schema, i: nat, f: FieldDef): FVal
    decreases i, 0
  {
    match f.typ
    case Plain(StructT(j)) => PlainF(if j < i && j < |s| then StructP(ZeroFields(s, j, s[j])) else StructP([]))
    case Plain(t) => PlainF(ZeroScalar(t))
    case Opt(_) => OptF(None)
    case Ptr(_) => OptF(None)
    case Vec(_) => VecF([])
    case MapOf(_, _, _) => MapF([])
  }

  // ---- Typed values ----

  function SignedLimit(bits: nat): int {
    if bits == 8 then 0x80 else if bits == 16 then 0x8000 else if bits == 32 then 0x8000_0000 else 0x8000_0000_0000_0000
  }

  ghost predicate Typed(s: Schema, t: ScalarType, v: PVal)
    decreases v
  {
    match t
    case BoolT => v.BoolP?
    case SignedT(bits) => v.IntP? && -SignedLimit(bits) <= v.i < SignedLimit(bits)
    case UnsignedT(bits) => v.IntP? && 0 <= v.i < 2 * SignedLimit(bits)
    case DoubleT => v.FloatP? && v.bits < 0x1_0000_0000_0000_0000
    case FloatT => v.FloatP? && v.bits < 0x1_0000_0000
    case StringT => v.BytesP? && ValidUtf8(v.s) && |v.s| < 0x1_0000_0000_0000_0000
    case BytesT => v.BytesP? && |v.s| < 0x1_0000_0000_0000_0000
    case StructT(i) => v.StructP? && i < |s| && TypedFields(s, s[i], v.fields)
  }

  ghost predicate TypedFields(s: Schema, fs: seq<FieldDef>, vs: seq<FVal>)
    decreases vs
  {
    if fs == [] then vs == []
    else vs != [] && TypedField(s, fs[0], vs[0]) && TypedFields(s, fs[1..], vs[1..])
  }

  ghost predicate TypedField(s: Schema, f: FieldDef, v: FVal)
    decreases v
  {
    match f.typ
    case Plain(t) => v.PlainF? && Typed(s, t, v.v)
    case Opt(t) => v.OptF? && (v.o.Some? ==> Typed(s, t, v.o.value))
    case Ptr(t) => v.OptF? && (v.o.Some? ==> Typed(s, t, v.o.value))
    case Vec(t) => v.VecF? && TypedAll(s, t, v.vs)
    case MapOf(k, t, held) => v.MapF? && TypedPairs(s, k, t, held, v.es) && DistinctKeys(v.es)
  }

  ghost predicate TypedAll(s: Schema, t: ScalarType, vs: seq<PVal>)
    decreases vs
  {
    vs == [] || (Typed(s, t, vs[0]) && TypedAll(s, t, vs[1..]))
  }

  ghost predicate TypedPairs(s: Schema, k: ScalarType, t: ScalarType, held: Held, es: seq<Pair>)
    decreases es
  {
    es == [] || (TypedPair(s, k, t, held, es[0]) && TypedPairs(s, k, t, held, es[1..]))
  }

  ghost predicate TypedPair(s: Schema, k: ScalarType, t: ScalarType, held: Held, e: Pair)
    decreases e
  {
    Typed(s, k, e.key) && if e.val.Some? then Typed(s, t, e.val.value) else !held.Bare?
  }

  ghost predicate DistinctKeys(es: seq<Pair>) {
    forall i, j :: 0 <= i < j < |es| ==> es[i].key != es[j].key
  }

  // ---- What a value is read back as ----

  predicate IsNaN64(bits: nat) {
    bits % 0x8000_0000_0000_0000 > 0x7FF0_0000_0000_0000
  }

  predicate IsNaN32(bits: nat) {
    bits % 0x8000_0000 > 0x7F80_0000
  }

  /** The bits written for a double: one quiet NaN for them all. */
  function DoubleBits(bits: nat): nat {
    if IsNaN64(bits) then 0x7FF8_0000_0000_0000 else bits
  }

  function FloatBits(bits: nat): nat {
    if IsNaN32(bits) then 0x7FC0_0000 else bits
  }

  /** Zero of either sign, the empty string: what a plain field leaves out. */
  predicate IsZero(t: ScalarType, v: PVal) {
    match t
    case BoolT => v == BoolP(false)
    case SignedT(_) => v == IntP(0)
    case UnsignedT(_) => v == IntP(0)
    case DoubleT => v.FloatP? && (v.bits == 0 || v.bits == 0x8000_0000_0000_0000)
    case FloatT => v.FloatP? && (v.bits == 0 || v.bits == 0x8000_0000)
    case StringT => v == BytesP([])
    case BytesT => v == BytesP([])
    case StructT(_) => false
  }

  ghost function Norm(s: Schema, t: ScalarType, v: PVal): PVal
    decreases v
  {
    match t
    case DoubleT => if v.FloatP? then FloatP(DoubleBits(v.bits)) else v
    case FloatT => if v.FloatP? then FloatP(FloatBits(v.bits)) else v
    case StructT(i) => if v.StructP? && i < |s| then StructP(NormFields(s, s[i], v.fields)) else v
    case _ => v
  }

  ghost function NormFields(s: Schema, fs: seq<FieldDef>, vs: seq<FVal>): (r: seq<FVal>)
    ensures |r| == |vs|
    decreases vs
  {
    if vs == [] || fs == [] then vs else [NormField(s, fs[0], vs[0])] + NormFields(s, fs[1..], vs[1..])
  }

  ghost function NormField(s: Schema, f: FieldDef, v: FVal): FVal
    decreases v
  {
    match f.typ
    case Plain(t) => if v.PlainF? then PlainF(if IsZero(t, v.v) then Zero(s, t) else Norm(s, t, v.v)) else v
    case Opt(t) => if v.OptF? && v.o.Some? then OptF(Some(Norm(s, t, v.o.value))) else v
    case Ptr(t) => if v.OptF? && v.o.Some? then OptF(Some(Norm(s, t, v.o.value))) else v
    case Vec(t) => if v.VecF? then VecF(NormAll(s, t, v.vs)) else v
    case MapOf(_, t, _) => if v.MapF? then MapF(NormPairs(s, t, v.es)) else v
  }

  ghost function NormAll(s: Schema, t: ScalarType, vs: seq<PVal>): (r: seq<PVal>)
    ensures |r| == |vs|
    decreases vs
  {
    if vs == [] then [] else [Norm(s, t, vs[0])] + NormAll(s, t, vs[1..])
  }

  /** An unset map value is read as zero. */
  ghost function NormPairs(s: Schema, t: ScalarType, es: seq<Pair>): (r: seq<Pair>)
    ensures |r| == |es|
    decreases es
  {
    if es == [] then [] else [NormPair(s, t, es[0])] + NormPairs(s, t, es[1..])
  }

  ghost function NormPair(s: Schema, t: ScalarType, e: Pair): Pair
    decreases e
  {
    Pair(e.key, Some(if e.val.Some? then Norm(s, t, e.val.value) else Zero(s, t)))
  }
}
