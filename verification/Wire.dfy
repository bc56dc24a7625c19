/**
Protobuf's wire format: include/protowire/detail/wire.h. Base 128 varints, tags and
length-prefixed bytes, with the readers as functions of a byte sequence.
 */
module Wire {
  import opened Powers
  import opened BigEndian
  import opened LimbArith

  /** What a Consume function returns: a value and the bytes it took, or a refusal. */
  datatype Read<+T> = Bad | Got(value: T, size: nat)

  datatype WireType = VarintType | Fixed64Type | BytesType | StartGroup | EndGroup | Fixed32Type | Reserved6 | Reserved7

  // ---- Varints ----

  function Varint(v: nat): (s: seq<Byte>)
    ensures s != []
  {
    if v < 0x80 then [v] else [v % 0x80 + 0x80] + Varint(v / 0x80)
  }

  method AppendVarint(out: seq<Byte>, v: U64) returns (r: seq<Byte>)
    ensures r == out + Varint(v)
  {
    r := out;
    var rest := v;
    while rest >= 0x80
      invariant r + Varint(rest) == out + Varint(v)
    {
      ghost var before := r + Varint(rest);
      r := r + [rest % 0x80 + 0x80];
      rest := rest / 0x80;
      assert r + Varint(rest) == before;
    }
    r := r + [rest];
  }

  /** The varint in s from byte i on, the low i groups of seven bits already read. */
  function VarintFrom(s: seq<Byte>, i: nat): (r: Read<nat>)
    ensures r.Got? ==> i < r.size <= |s|
    decreases 10 - i
  {
    if i >= |s| || i >= 10 then Bad
    else if i == 9 && s[i] > 1 then Bad
    else if s[i] < 0x80 then Got(s[i], i + 1)
    else
      match VarintFrom(s, i + 1)
      case Bad => Bad
      case Got(v, n) => Got(s[i] % 0x80 + 0x80 * v, n)
  }

  /** The varint at the front of s: at most ten bytes, and no more than 64 bits. */
  function ReadVarint(s: seq<Byte>): (r: Read<nat>)
    ensures r.Got? ==> 0 < r.size <= |s|
  {
    VarintFrom(s, 0)
  }

  lemma {:induction false} VarintFits(s: seq<Byte>, i: nat)
    requires VarintFrom(s, i).Got?
    ensures i < 10 && VarintFrom(s, i).value < 2 * Pow(0x80, 9 - i)
    decreases 10 - i
  {
    if s[i] >= 0x80 {
      if i == 9 {
        assert false;
      }
      VarintFits(s, i + 1);
    }
  }

  lemma U64Powers()
    ensures 2 * Pow(0x80, 9) == 0x1_0000_0000_0000_0000
  {
    assert Pow(0x80, 3) == 0x20_0000;
    PowAdd(0x80, 3, 3);
    PowAdd(0x80, 6, 3);
  }

  lemma ReadVarintFits(s: seq<Byte>)
    requires ReadVarint(s).Got?
    ensures ReadVarint(s).value < 0x1_0000_0000_0000_0000
  {
    VarintFits(s, 0);
    U64Powers();
  }

  /** v with the group d placed above the i groups it holds. */
  function Place(v: nat, i: nat, d: nat): nat {
    MulGrowsOrZero(Pow(0x80, i), d);
    v + Pow(0x80, i) * d
  }

  lemma MulGrowsOrZero(p: nat, d: nat)
    ensures p * d >= 0
  {
  }

  /** The loop's accumulator: v holds i groups, the rest are still to come. */
  ghost predicate VarintSoFar(s: seq<Byte>, i: nat, v: nat) {
    match VarintFrom(s, i)
    case Bad => ReadVarint(s).Bad?
    case Got(w, n) => ReadVarint(s) == Got(Place(v, i, w), n)
  }

  lemma {:induction false} VarintStep(s: seq<Byte>, i: nat, v: nat)
    requires i < |s| && i < 10 && !(i == 9 && s[i] > 1) && VarintSoFar(s, i, v)
    ensures s[i] >= 0x80 ==> VarintSoFar(s, i + 1, Place(v, i, s[i] % 0x80))
    ensures s[i] < 0x80 ==> ReadVarint(s) == Got(Place(v, i, s[i] % 0x80), i + 1)
  {
    hide Place, ReadVarint;
    if s[i] >= 0x80 && VarintFrom(s, i + 1).Got? {
      PlaceNext(v, i, s[i] % 0x80, VarintFrom(s, i + 1).value);
    }
  }

  lemma PlaceNext(v: nat, i: nat, d: nat, w: nat)
    ensures Place(v, i, d + 0x80 * w) == Place(Place(v, i, d), i + 1, w)
  {
    VarintTerms(Pow(0x80, i), d, w);
  }

  lemma VarintTerms(p: nat, d: nat, w: nat)
    ensures p * (d + 0x80 * w) == p * d + (0x80 * p) * w
  {
    MulAssoc(p, 0x80, w);
  }

  method ConsumeVarint(data: seq<Byte>) returns (r: Read<U64>)
    ensures r == ReadVarint(data)
  {
    hide VarintSoFar, Place, ReadVarint;
    var v: nat := 0;
    var i := 0;
    assert VarintSoFar(data, 0, 0) by { SoFarStart(data); }
    while i < |data| && i < 10
      invariant 0 <= i <= |data| && i <= 10 && VarintSoFar(data, i, v)
    {
      if i == 9 && data[i] > 1 {
        SoFarEnd(data, i, v);
        return Bad;
      }
      VarintStep(data, i, v);
      v := Place(v, i, data[i] % 0x80);
      if data[i] < 0x80 {
        ReadVarintFits(data);
        return Got(v, i + 1);
      }
      i := i + 1;
    }
    SoFarEnd(data, i, v);
    r := Bad;
  }

  lemma SoFarStart(s: seq<Byte>)
    ensures VarintSoFar(s, 0, 0)
  {
  }

  lemma SoFarEnd(s: seq<Byte>, i: nat, v: nat)
    requires VarintSoFar(s, i, v) && (i >= |s| || i >= 10 || (i == 9 && s[i] > 1))
    ensures ReadVarint(s).Bad?
  {
  }

  /** A varint that was written is read back, whatever is around it. */
  lemma {:induction false} VarintReadsAt(s: seq<Byte>, i: nat, v: nat)
    requires i <= 9 && i <= |s| && Varint(v) <= s[i..] && v < 2 * Pow(0x80, 9 - i)
    ensures VarintFrom(s, i) == Got(v, i + |Varint(v)|)
    decreases 10 - i
  {
    assert Pow(0x80, 0) == 1;
    assert s[i] == s[i..][0] == Varint(v)[0];
    if v >= 0x80 {
      hide Pow;
      NextGroup(v, 9 - i);
      assert Varint(v / 0x80) == Varint(v)[1..] <= s[i..][1..] == s[i + 1..];
      VarintReadsAt(s, i + 1, v / 0x80);
    }
  }

  lemma NextGroup(v: nat, n: nat)
    requires n > 0 && v < 2 * Pow(0x80, n)
    ensures v / 0x80 < 2 * Pow(0x80, n - 1)
  {
  }

  lemma VarintReads(v: U64, rest: seq<Byte>)
    ensures ReadVarint(Varint(v) + rest) == Got(v, |Varint(v)|)
  {
    U64Powers();
    var s := Varint(v) + rest;
    assert s[0..] == s;
    VarintReadsAt(s, 0, v);
  }

  // ---- Tags ----

  function TypeCode(t: WireType): (c: nat)
    ensures c < 8
  {
    match t
    case VarintType => 0
    case Fixed64Type => 1
    case BytesType => 2
    case StartGroup => 3
    case EndGroup => 4
    case Fixed32Type => 5
    case Reserved6 => 6
    case Reserved7 => 7
  }

  function CodeType(c: nat): (t: WireType)
    requires c < 8
    ensures TypeCode(t) == c
  {
    match c
    case 0 => VarintType
    case 1 => Fixed64Type
    case 2 => BytesType
    case 3 => StartGroup
    case 4 => EndGroup
    case 5 => Fixed32Type
    case 6 => Reserved6
    case 7 => Reserved7
  }

  datatype Tag = Tag(num: nat, typ: WireType)

  predicate ValidNumber(num: nat) {
    0 < num <= 0x7fff_ffff
  }

  function TagBytes(num: nat, typ: WireType): (s: seq<Byte>)
    ensures s != []
  {
    Varint(8 * num + TypeCode(typ))
  }

  function ReadTag(s: seq<Byte>): (r: Read<Tag>)
    ensures r.Got? ==> 0 < r.size <= |s| && ValidNumber(r.value.num)
  {
    match ReadVarint(s)
    case Bad => Bad
    case Got(v, n) => if ValidNumber(v / 8) then Got(Tag(v / 8, CodeType(v % 8)), n) else Bad
  }

  lemma TagReads(num: nat, typ: WireType, rest: seq<Byte>)
    requires ValidNumber(num)
    ensures ReadTag(TagBytes(num, typ) + rest) == Got(Tag(num, typ), |TagBytes(num, typ)|)
  {
    hide Varint, ReadVarint;
    VarintReads(8 * num + TypeCode(typ), rest);
  }

  // ---- Fixed-width values and length-prefixed bytes ----

  /** The low n bytes of v, least significant first. */
  function Fixed(n: nat, v: nat): (s: seq<Byte>)
    ensures |s| == n
  {
    if n == 0 then [] else [v % 0x100] + Fixed(n - 1, v / 0x100)
  }

  function FixedValue(s: seq<Byte>): nat {
    if s == [] then 0 else s[0] + 0x100 * FixedValue(s[1..])
  }

  function ReadFixed(n: nat, s: seq<Byte>): (r: Read<nat>)
    ensures r.Got? ==> r.size == n <= |s|
  {
    if |s| < n then Bad else Got(FixedValue(s[..n]), n)
  }

  lemma {:induction false} FixedOf(n: nat, v: nat)
    requires v < Pow(0x100, n)
    ensures FixedValue(Fixed(n, v)) == v
    decreases n
  {
    if n > 0 {
      FixedOf(n - 1, v / 0x100);
      assert Fixed(n, v)[1..] == Fixed(n - 1, v / 0x100);
    }
  }

  lemma {:induction false} FixedBound(s: seq<Byte>)
    ensures FixedValue(s) < Pow(0x100, |s|)
  {
    if s != [] {
      FixedBound(s[1..]);
    }
  }

  lemma FixedReads(n: nat, v: nat, rest: seq<Byte>)
    requires v < Pow(0x100, n)
    ensures ReadFixed(n, Fixed(n, v) + rest) == Got(v, n)
  {
    FixedOf(n, v);
    assert (Fixed(n, v) + rest)[..n] == Fixed(n, v);
  }

  function Bytes(b: seq<Byte>): seq<Byte> {
    Varint(|b|) + b
  }

  function ReadBytes(s: seq<Byte>): (r: Read<seq<Byte>>)
    ensures r.Got? ==> 0 < r.size <= |s| && |r.value| < r.size
  {
    match ReadVarint(s)
    case Bad => Bad
    case Got(len, n) => if |s| - n < len then Bad else Got(s[n..n + len], n + len)
  }

  lemma BytesRead(b: seq<Byte>, rest: seq<Byte>)
    requires |b| < 0x1_0000_0000_0000_0000
    ensures ReadBytes(Bytes(b) + rest) == Got(b, |Bytes(b)|)
  {
    hide Varint, ReadVarint;
    VarintReads(|b|, b + rest);
    assert Bytes(b) + rest == Varint(|b|) + (b + rest);
  }

  // ---- Skipping a field that nobody asked for ----

  const RECURSION_LIMIT: nat := 10000

  /** A value of a type that is not a group: how many bytes it takes. */
  function ScalarSize(s: seq<Byte>, typ: WireType): (r: Read<()>)
    ensures r.Got? ==> r.size <= |s|
  {
    match typ
    case VarintType => (match ReadVarint(s) case Bad => Bad case Got(_, n) => Got((), n))
    case Fixed64Type => if |s| < 8 then Bad else Got((), 8)
    case BytesType => (match ReadBytes(s) case Bad => Bad case Got(_, n) => Got((), n))
    case Fixed32Type => if |s| < 4 then Bad else Got((), 4)
    case _ => Bad
  }

  function After(n: nat, r: Read<()>): Read<()> {
    match r
    case Bad => Bad
    case Got(_, k) => Got((), n + k)
  }

  /** The bytes up to the end of the groups still open, the innermost last. */
  function GroupSize(s: seq<Byte>, open: seq<nat>): (r: Read<()>)
    ensures r.Got? ==> r.size <= |s|
    decreases |s|
  {
    if open == [] then Got((), 0)
    else
      match ReadTag(s)
      case Bad => Bad
      case Got(tag, n) =>
        var rest := s[n..];
        if tag.typ.EndGroup? then
          if tag.num != open[|open| - 1] then Bad else After(n, GroupSize(rest, open[..|open| - 1]))
        else if tag.typ.StartGroup? then
          if |open| > RECURSION_LIMIT then Bad else After(n, GroupSize(rest, open + [tag.num]))
        else
          match ScalarSize(rest, tag.typ)
          case Bad => Bad
          case Got(_, m) => After(n + m, GroupSize(rest[m..], open))
  }

  function FieldSize(s: seq<Byte>, num: nat, typ: WireType): (r: Read<()>)
    ensures r.Got? ==> r.size <= |s|
  {
    if typ.StartGroup? then GroupSize(s, [num]) else ScalarSize(s, typ)
  }

  method ConsumeFieldValue(data: seq<Byte>, num: nat, typ: WireType) returns (r: Read<()>)
    ensures r == FieldSize(data, num, typ)
  {
    hide ReadTag, ScalarSize;
    if !typ.StartGroup? {
      return ScalarSize(data, typ);
    }
    var rest := data;
    var open := [num];
    while open != []
      invariant |rest| <= |data|
      invariant GroupSize(data, [num]).Bad? <==> GroupSize(rest, open).Bad?
      invariant GroupSize(rest, open).Got?
                ==> GroupSize(data, [num]).size == |data| - |rest| + GroupSize(rest, open).size
      decreases |rest|
    {
      var t := ReadTag(rest);
      if t.Bad? {
        return Bad;
      }
      var tag := t.value;
      if tag.typ.EndGroup? {
        if tag.num != open[|open| - 1] {
          return Bad;
        }
        rest, open := rest[t.size..], open[..|open| - 1];
      } else if tag.typ.StartGroup? {
        if |open| > RECURSION_LIMIT {
          return Bad;
        }
        rest, open := rest[t.size..], open + [tag.num];
      } else {
        var n := ScalarSize(rest[t.size..], tag.typ);
        if n.Bad? {
          return Bad;
        }
        rest := rest[t.size..][n.size..];
      }
    }
    r := Got((), |data| - |rest|);
  }

  // ---- 32-bit fields carried as varints ----

  /** The 64-bit two's complement of an int32. */
  function SignExtend(x: I32): U64 {
    if x < 0 then x + 0x1_0000_0000_0000_0000 else x
  }

  /** The int32 in the low half of a word. */
  function LowInt32(v: nat): I32 {
    var lo := v % 0x1_0000_0000;
    if lo < 0x8000_0000 then lo else lo - 0x1_0000_0000
  }

  lemma SignExtendReads(x: I32)
    ensures LowInt32(SignExtend(x)) == x
  {
  }
}
