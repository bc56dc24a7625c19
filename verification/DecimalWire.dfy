/**
The wire form of a Decimal: src/pb/big.cc, Reduce, MarshalDecimalMsg and
UnmarshalDecimalMsg. One form per value.
 */
module DecimalWire {
  import opened Powers
  import opened Digits
  import opened BigEndian
  import opened LimbArith
  import opened LimbShifts
  import opened Reals
  import opened Options
  import opened Literals
  import opened BigFloatLayout
  import opened BigNat
  import opened Wire
  import opened WireFields
  import opened ByteMagnitude

  const MAX_DIGITS: int := 4096

  /** (-1)^negative * unscaled * 10^(-scale). */
  datatype DecimalNum = DecimalNum(unscaled: seq<Byte>, scale: I32, negative: bool)

  ghost function Unscaled(d: DecimalNum): nat {
    Num(256, d.unscaled)
  }

  /** The number a Decimal denotes; a zero has no sign. */
  ghost function Denotes(d: DecimalNum): real {
    var m := Decimal(Unscaled(d), 0 - d.scale);
    if d.negative then -m else m
  }

  // ---- Reduce ----

  /** u * 10^(-s) is u0 * 10^(-s0) at the smallest scale, zero or more, that holds it exactly. */
  ghost predicate SmallestScale(u0: nat, s0: int, u: nat, s: int) {
    u > 0 && s >= 0 && Decimal(u, 0 - s) == Decimal(u0, 0 - s0) && (s == 0 || u % 10 != 0)
  }

  /** There is only one such form of a value. */
  lemma {:induction false} SmallestScaleUnique(u: nat, s: int, u': nat, s': int)
    requires u > 0 && s >= 0 && (s == 0 || u % 10 != 0)
    requires u' > 0 && s' >= 0 && (s' == 0 || u' % 10 != 0)
    requires Decimal(u, 0 - s) == Decimal(u', 0 - s')
    ensures u == u' && s == s'
  {
    hide Decimal;
    if s < s' {
      LowerScale(u, s, u', s');
    } else {
      LowerScale(u', s', u, s);
    }
  }

  /** The same value at a larger scale has the zeros to show for it. */
  lemma {:induction false} LowerScale(u: nat, s: int, u': nat, s': int)
    requires s <= s' && Decimal(u, 0 - s) == Decimal(u', 0 - s')
    ensures u' == u * Pow(10, s' - s)
    ensures s < s' ==> u' % 10 == 0
  {
    hide Exp, Pow;
    var k := s' - s;
    DecimalShift(u, 0 - s', k);
    assert 0 - s' + k == 0 - s;
    SameDigits(u * Pow(10, k), u', 0 - s');
    if k > 0 {
      TensFactor(u, k);
    }
  }

  lemma SameDigits(a: nat, b: nat, e: int)
    requires Decimal(a, e) == Decimal(b, e)
    ensures a == b
  {
    hide Exp;
    TenPositive(e);
    CancelReal(a as real, b as real, Exp(10, e));
  }

  lemma TenPositive(e: int)
    ensures Exp(10, e) > 0.0
  {
  }

  lemma TensFactor(u: nat, k: nat)
    requires k > 0
    ensures (u * Pow(10, k)) % 10 == 0
  {
    var p := Pow(10, k - 1);
    assert u * Pow(10, k) == u * (10 * p);
    MulAssoc(u, 10, p);
    assert (u * 10) * p == (u * p) * 10 by { MulAssoc(u, 10, p); MulAssoc(u, p, 10); }
  }

  /** 10^step, for a batch of at most nine digits, is one limb. */
  lemma BatchFits(step: nat)
    requires step <= 9
    ensures 0 < Pow(10, step) < 0x1_0000_0000
  {
    hide Pow;
    PowMonotone(10, step, 9);
    WordPowers();
    PowPositive(10, step);
  }

  /** Multiplies by step powers of ten and counts them. */
  lemma {:induction false} RaiseScale(u: nat, s: int, step: nat)
    ensures Decimal(u * Pow(10, step), 0 - (s + step)) == Decimal(u, 0 - s)
    ensures u > 0 ==> u * Pow(10, step) > 0
  {
    hide Pow, Decimal;
    DecimalShift(u, 0 - (s + step), step);
    assert 0 - (s + step) + step == 0 - s;
    PowPositive(10, step);
    if u > 0 {
      MulGrows(u, Pow(10, step));
    }
  }

  /** Divides out 10^step while the scale and the digits allow. */
  method DivideOut(limbs0: seq<Limb>, scale0: int, step: nat) returns (limbs: seq<Limb>, scale: int)
    requires 0 < step <= 9 && scale0 >= 0 && Eval(BASE, limbs0) > 0
    ensures Eval(BASE, limbs) > 0 && 0 <= scale <= scale0
    ensures Decimal(Eval(BASE, limbs), 0 - scale) == Decimal(Eval(BASE, limbs0), 0 - scale0)
    ensures Pow(10, step) > 0 && (scale < step || Eval(BASE, limbs) % Pow(10, step) != 0)
  {
    hide Eval, Pow, Decimal;
    BatchFits(step);
    limbs, scale := limbs0, scale0;
    var exact := true;
    while scale >= step && exact
      invariant Eval(BASE, limbs) > 0 && 0 <= scale <= scale0
      invariant Decimal(Eval(BASE, limbs), 0 - scale) == Decimal(Eval(BASE, limbs0), 0 - scale0)
      invariant !exact ==> Eval(BASE, limbs) % Pow(10, step) != 0
      decreases scale, exact
    {
      var quotient, rem := DivSmallLimbs(limbs, Pow(10, step));
      DivUnique(Eval(BASE, limbs), Pow(10, step), Eval(BASE, quotient), rem);
      DropTopEval(BASE, quotient);
      quotient := DropTop(quotient);
      exact := rem == 0;
      if exact {
        RaiseScale(Eval(BASE, quotient), scale - step, step);
        PositiveQuotient(Eval(BASE, quotient), Pow(10, step));
        limbs, scale := quotient, scale - step;
      }
    }
  }

  lemma PositiveQuotient(q: nat, p: nat)
    requires q * p > 0
    ensures q > 0
  {
  }

  /** Limbs to bytes, most significant first, without leading zeros. */
  method FromLimbs(limbs: seq<Limb>) returns (mag: seq<Byte>)
    ensures Minimal(mag) && Num(256, mag) == Eval(BASE, limbs)
  {
    hide Eval, Num, Pow, DropBytes;
    var n := 4 * |limbs|;
    mag := seq(n, _ => 0);
    ghost var v := Eval(BASE, limbs);
    var i := 0;
    NumEmpty(256);
    assert mag[n..] == [];
    LowBytesStart(v);
    while i < n
      invariant 0 <= i <= n == |mag| && LowBytes(mag[n - i..], v, i)
    {
      ByteOfLimb(limbs, i);
      var b: Byte := limbs[i / 4] / Pow(256, i % 4) % 256;
      LowBytesStep(mag[n - i..], v, i, b);
      assert mag[n - 1 - i := b][n - 1 - i..] == [b] + mag[n - i..];
      mag := mag[n - 1 - i := b];
      i := i + 1;
    }
    assert mag[0..] == mag;
    LowBytesEnd(mag, limbs);
    TrimmedValue(mag);
    mag := TrimLeadingZeros(mag);
  }

  /** The low i bytes of v. */
  ghost predicate LowBytes(lo: seq<Byte>, v: nat, i: nat) {
    |lo| == i && Num(256, lo) == v % Pow(256, i)
  }

  lemma LowBytesStart(v: nat)
    ensures LowBytes([], v, 0)
  {
  }

  lemma {:induction false} LowBytesStep(lo: seq<Byte>, v: nat, i: nat, b: Byte)
    requires LowBytes(lo, v, i) && b == DropBytes(v, i) % 256
    ensures LowBytes([b] + lo, v, i + 1)
  {
    NumCons(256, b, lo);
    DivDiv(v, Pow(256, i), 256);
    assert Pow(256, i) * 256 == Pow(256, i + 1);
  }

  lemma {:induction false} LowBytesEnd(mag: seq<Byte>, limbs: seq<Limb>)
    requires LowBytes(mag, Eval(BASE, limbs), 4 * |limbs|)
    ensures Num(256, mag) == Eval(BASE, limbs)
  {
    hide Pow;
    EvalBound(BASE, limbs);
    BasePow(|limbs|);
    BytePow(4 * |limbs|);
    assert 8 * (4 * |limbs|) == |limbs| * 32;
    PowPositive(256, 4 * |limbs|);
    DivUnique(Eval(BASE, limbs), Pow(256, 4 * |limbs|), 0, Eval(BASE, limbs));
  }

  /** Rewrites a non-zero value at its smallest scale, nine digits at a time and then one. */
  method Reduce(unscaled0: seq<Byte>, scale0: int) returns (unscaled: seq<Byte>, scale: int)
    requires Num(256, unscaled0) > 0
    ensures Minimal(unscaled) && SmallestScale(Num(256, unscaled0), scale0, Num(256, unscaled), scale)
    ensures 0 <= scale <= (if scale0 > 0 then scale0 else 0)
  {
    hide Num, Eval, Pow, Decimal;
    var limbs := BytesToLimbs(unscaled0);
    scale := scale0;
    while scale < 0
      invariant Eval(BASE, limbs) > 0 && scale <= (if scale0 > 0 then scale0 else 0)
      invariant Decimal(Eval(BASE, limbs), 0 - scale) == Decimal(Num(256, unscaled0), 0 - scale0)
      decreases -scale
    {
      var step := if 9 < -scale then 9 else -scale;
      BatchFits(step);
      RaiseScale(Eval(BASE, limbs), scale, step);
      limbs := MulSmallLimbs(limbs, Pow(10, step));
      scale := scale + step;
    }
    limbs, scale := DivideOut(limbs, scale, 9);
    limbs, scale := DivideOut(limbs, scale, 1);
    TenIs();
    unscaled := FromLimbs(limbs);
  }

  lemma TenIs()
    ensures Pow(10, 1) == 10
  {
  }

  // ---- Writing ----

  /** c is the one wire form of d's value: the smallest scale, no leading zero, no minus zero. */
  ghost predicate DecimalForm(d: DecimalNum, c: DecimalNum) {
    && Minimal(c.unscaled)
    && if Unscaled(d) == 0 then c == DecimalNum([], 0, false)
       else SmallestScale(Unscaled(d), d.scale, Unscaled(c), c.scale) && c.negative == d.negative
  }

  /** Decimals of one value have one form, and Decimals of one form have one value. */
  lemma {:induction false} DecimalFormCanonical(a: DecimalNum, ca: DecimalNum, b: DecimalNum, cb: DecimalNum)
    requires DecimalForm(a, ca) && DecimalForm(b, cb)
    ensures Denotes(ca) == Denotes(a)
    ensures ca == cb <==> Denotes(a) == Denotes(b)
  {
    hide Num;
    FormDenotes(a, ca);
    FormDenotes(b, cb);
    if Denotes(a) == Denotes(b) {
      ZeroDenotes(a);
      ZeroDenotes(b);
      if Unscaled(a) > 0 {
        SignDenotes(ca, cb);
        SmallestScaleUnique(Unscaled(ca), ca.scale, Unscaled(cb), cb.scale);
        MinimalUnique(ca.unscaled, cb.unscaled);
      }
    }
  }

  lemma {:induction false} FormDenotes(d: DecimalNum, c: DecimalNum)
    requires DecimalForm(d, c)
    ensures Denotes(c) == Denotes(d)
  {
    hide Exp;
    NumEmpty(256);
  }

  lemma ZeroDenotes(d: DecimalNum)
    ensures Denotes(d) == 0.0 <==> Unscaled(d) == 0
  {
    hide Num, Exp;
    TenPositive(0 - d.scale);
  }

  /** A non-zero number's sign and magnitude are its own. */
  lemma SignDenotes(a: DecimalNum, b: DecimalNum)
    requires Unscaled(a) > 0 && Unscaled(b) > 0 && Denotes(a) == Denotes(b)
    ensures a.negative == b.negative
    ensures Decimal(Unscaled(a), 0 - a.scale) == Decimal(Unscaled(b), 0 - b.scale)
  {
    hide Num, Exp;
    TenPositive(0 - a.scale);
    TenPositive(0 - b.scale);
    var x, y := Decimal(Unscaled(a), 0 - a.scale), Decimal(Unscaled(b), 0 - b.scale);
    assert x > 0.0 && y > 0.0;
  }

  function DecimalBytes(c: DecimalNum): seq<Byte> {
    (if c.unscaled != [] then TagBytes(1, BytesType) + Bytes(c.unscaled) else [])
    + ((if c.scale != 0 then TagBytes(2, VarintType) + Varint(SignExtend(c.scale)) else [])
       + (if c.negative then TagBytes(3, VarintType) + Varint(1) else []))
  }

  /** What Marshal refuses: a scale whose magnitude passes the bound once reduced. */
  ghost predicate ScaleFits(d: DecimalNum) {
    Unscaled(d) == 0
    || (d.scale >= -MAX_DIGITS && forall c :: DecimalForm(d, c) ==> c.scale <= MAX_DIGITS)
  }

  method MarshalDecimalMsg(v: DecimalNum, out: seq<Byte>) returns (ok: bool, r: seq<Byte>, ghost c: DecimalNum)
    ensures ok <==> ScaleFits(v)
    ensures ok ==> DecimalForm(v, c) && r == out + DecimalBytes(c) && c.scale <= MAX_DIGITS
  {
    hide Num, TagBytes, Bytes, Varint, SmallestScale;
    r := out;
    c := v;
    var unscaled := TrimLeadingZeros(v.unscaled);
    TrimmedValue(v.unscaled);
    MinimalZero(unscaled);
    if unscaled == [] {
      c := DecimalNum([], 0, false);
      return true, out, c;
    }
    var scale: int := v.scale;
    if scale >= -MAX_DIGITS && scale != 0 {
      unscaled, scale := Reduce(unscaled, scale);
    } else if scale == 0 {
      AlreadySmallest(Num(256, unscaled));
    }
    c := DecimalNum(unscaled, scale, v.negative);
    if scale > MAX_DIGITS || scale < -MAX_DIGITS {
      assert scale > MAX_DIGITS ==> DecimalForm(v, c);
      return false, out, c;
    }
    FormUnique(v, c);
    NotEmpty(v, c);
    r := r + (TagBytes(1, BytesType) + Bytes(unscaled));
    if scale != 0 {
      r := r + (TagBytes(2, VarintType) + Varint(SignExtend(scale)));
    }
    if v.negative {
      r := r + (TagBytes(3, VarintType) + Varint(1));
    }
    assert r == out + DecimalBytes(c);
    ok := true;
  }

  lemma AlreadySmallest(u: nat)
    requires u > 0
    ensures SmallestScale(u, 0, u, 0)
  {
  }

  lemma NotEmpty(v: DecimalNum, c: DecimalNum)
    requires DecimalForm(v, c) && Unscaled(v) > 0
    ensures c.unscaled != []
  {
  }

  /** Every form of v is this one. */
  lemma {:induction false} FormUnique(v: DecimalNum, c: DecimalNum)
    requires DecimalForm(v, c)
    ensures forall c' :: DecimalForm(v, c') ==> c' == c
  {
    hide DecimalForm;
    forall c' | DecimalForm(v, c')
      ensures c' == c
    {
      DecimalFormCanonical(v, c, v, c');
    }
  }

  // ---- Reading ----

  /** One field of a Decimal, by its number; the wire type is not asked. */
  function DecimalField(d: seq<Byte>, num: nat, v: DecimalNum): Field<DecimalNum> {
    if num == 1 then
      (match ReadBytes(d) case Bad => Corrupt case Got(b, n) => Took(v.(unscaled := b), n))
    else if num == 2 then
      (match ReadVarint(d) case Bad => Corrupt case Got(x, n) => Took(v.(scale := LowInt32(x)), n))
    else if num == 3 then
      (match ReadVarint(d) case Bad => Corrupt case Got(x, n) => Took(v.(negative := x != 0), n))
    else Unknown
  }

  /** The bound in force: the caller's, or the default where it gives none. */
  function DigitBound(maxDigits: I32): int {
    if maxDigits <= 0 then MAX_DIGITS else maxDigits
  }

  /** The value a Decimal message holds: no leading zeros and no minus zero. */
  function DecodeDecimal(data: seq<Byte>, maxDigits: I32): Option<DecimalNum> {
    match ReadFields(data, DecimalNum([], 0, false), DecimalField)
    case None => None
    case Some(d) =>
      if d.scale > DigitBound(maxDigits) || d.scale < -DigitBound(maxDigits) then None
      else
        var unscaled := TrimLeadingZeros(d.unscaled);
        Some(DecimalNum(unscaled, d.scale, d.negative && unscaled != []))
  }

  method UnmarshalDecimalMsg(data: seq<Byte>, maxDigits0: I32) returns (r: Option<DecimalNum>)
    ensures r == DecodeDecimal(data, maxDigits0)
  {
    var maxDigits: int := maxDigits0;
    if maxDigits <= 0 {
      maxDigits := MAX_DIGITS;
    }
    var read := ReadFieldsLoop(data, DecimalNum([], 0, false), DecimalField);
    if read.None? {
      return None;
    }
    var out := read.value;
    if out.scale > maxDigits || out.scale < -maxDigits {
      return None;
    }
    out := out.(unscaled := TrimLeadingZeros(out.unscaled));
    if out.unscaled == [] {
      out := out.(negative := false);
    }
    r := Some(out);
  }

  /** The fields of any message that has them in order are read as they are. */
  lemma {:induction false} DecimalFieldsRead(c: DecimalNum)
    requires |c.unscaled| < 0x1_0000_0000_0000_0000
    ensures ReadFields(DecimalBytes(c), DecimalNum([], 0, false), DecimalField) == Some(c)
  {
    hide Bytes, Varint, ReadBytes, ReadVarint, TagBytes, ReadFields;
    var d0 := DecimalNum([], 0, false);
    var d1 := d0.(unscaled := c.unscaled);
    var d2 := d1.(scale := c.scale);
    var s3 := if c.negative then TagBytes(3, VarintType) + Varint(1) else [];
    var s2 := if c.scale != 0 then TagBytes(2, VarintType) + Varint(SignExtend(c.scale)) else [];
    assert ReadFields(s3, d2, DecimalField) == Some(c) by { ThirdField(c, d2); }
    assert ReadFields(s2 + s3, d1, DecimalField) == ReadFields(s3, d2, DecimalField) by {
      if c.scale != 0 {
        VarintReads(SignExtend(c.scale), s3);
        SignExtendReads(c.scale);
        FieldReads(2, VarintType, Varint(SignExtend(c.scale)), s3, d1, d2, DecimalField);
      } else {
        assert s2 + s3 == s3;
      }
    }
    if c.unscaled != [] {
      BytesRead(c.unscaled, s2 + s3);
      FieldReads(1, BytesType, Bytes(c.unscaled), s2 + s3, d0, d1, DecimalField);
    } else {
      assert [] + (s2 + s3) == s2 + s3;
    }
  }

  /** Any such message is accepted exactly with a scale in bound, as its value; zero has no minus and no digits. */
  lemma DecimalAccepted(c: DecimalNum, maxDigits: I32)
    requires |c.unscaled| < 0x1_0000_0000_0000_0000
    ensures var r := DecodeDecimal(DecimalBytes(c), maxDigits);
            && (r.Some? <==> -DigitBound(maxDigits) <= c.scale <= DigitBound(maxDigits))
            && (r.Some? ==> && Minimal(r.value.unscaled) && Unscaled(r.value) == Unscaled(c)
                            && r.value.scale == c.scale && r.value.negative == (c.negative && Unscaled(c) > 0))
  {
    hide ReadFields, DecimalBytes, Num;
    DecimalFieldsRead(c);
    var t := TrimLeadingZeros(c.unscaled);
    TrimmedValue(c.unscaled);
    MinimalZero(t);
  }

  /** Whatever Marshal writes, Unmarshal reads back at the default limit: the same form. */
  lemma {:induction false} DecimalReadsBack(c: DecimalNum)
    requires Minimal(c.unscaled) && (c.unscaled == [] ==> !c.negative)
    requires -MAX_DIGITS <= c.scale <= MAX_DIGITS && |c.unscaled| < 0x1_0000_0000_0000_0000
    ensures DecodeDecimal(DecimalBytes(c), 0) == Some(c)
  {
    hide ReadFields, DecimalBytes;
    DecimalFieldsRead(c);
    TrimMinimal(c.unscaled);
  }

  lemma ThirdField(c: DecimalNum, d: DecimalNum)
    requires c == d.(negative := c.negative) && !d.negative
    ensures ReadFields(if c.negative then TagBytes(3, VarintType) + Varint(1) else [], d, DecimalField) == Some(c)
  {
    hide Varint, TagBytes;
    if c.negative {
      VarintReads(1, []);
      FieldReads(3, VarintType, Varint(1), [], d, c, DecimalField);
      assert TagBytes(3, VarintType) + Varint(1) + [] == TagBytes(3, VarintType) + Varint(1);
    }
  }

  lemma TrimMinimal(mag: seq<Byte>)
    requires Minimal(mag)
    ensures TrimLeadingZeros(mag) == mag
  {
  }

  /** Every Decimal Marshal accepts is read back as its value, in its one form. */
  lemma {:induction false} DecimalRoundTrip(v: DecimalNum, c: DecimalNum)
    requires ScaleFits(v) && DecimalForm(v, c) && |c.unscaled| < 0x1_0000_0000_0000_0000
    ensures DecodeDecimal(DecimalBytes(c), 0) == Some(c) && Denotes(c) == Denotes(v)
  {
    hide Num;
    NumEmpty(256);
    DecimalFormCanonical(v, c, v, c);
    DecimalReadsBack(c);
  }
}
