/**
The natural-number class of src/pxf/bigfloat.cc: 32-bit limbs, least significant
first, with no zero limb on top. Every 64-bit intermediate is given its C++ type,
so an operation that could overflow does not verify.
 */
module BigNat {
  import opened Powers
  import opened Digits
  import opened Bits
  import opened LimbArith
  import opened LimbShifts
  import opened BigEndian
  import opened DecimalText
  import Knuth

  class Nat {
    var w: seq<Limb>

    ghost predicate Valid()
      reads this
    {
      Trimmed(w)
    }

    ghost function Value(): nat
      reads this
    {
      Eval(BASE, w)
    }

    constructor (v: Limb)
      ensures Valid() && Value() == v
    {
      w := if v != 0 then [v] else [];
      new;
      assert Eval(BASE, w) == v by {
        if v != 0 {
          assert w[1..] == [];
        }
      }
    }

    /** A number from limbs that may have zeros on top: assign, then Trim. */
    constructor Of(limbs: seq<Limb>)
      ensures Valid() && Value() == Eval(BASE, limbs)
      ensures w == DropTop(limbs)
    {
      w := limbs;
      new;
      Trim();
    }

    method Trim()
      modifies this
      ensures Valid() && w == DropTop(old(w)) && Value() == old(Value())
    {
      while w != [] && w[|w| - 1] == 0
        invariant DropTop(w) == DropTop(old(w))
        decreases |w|
      {
        w := w[..|w| - 1];
      }
      DropTopEval(BASE, old(w));
    }

    method IsZero() returns (z: bool)
      requires Valid()
      ensures z <==> Value() == 0
    {
      z := w == [];
      if w != [] {
        TrimmedLower(BASE, w);
      }
    }

    method IsOdd() returns (odd: bool)
      ensures odd <==> Value() % 2 == 1
    {
      odd := w != [] && w[0] % 2 != 0;
    }

    method BitLen() returns (n: nat)
      requires Valid()
      ensures n == BitLength(Value())
    {
      if w == [] {
        return 0;
      }
      n := (|w| - 1) * 32;
      var top := w[|w| - 1];
      while top != 0
        invariant n + BitLength(top) == (|w| - 1) * 32 + BitLength(w[|w| - 1])
      {
        top := top / 2;
        n := n + 1;
      }
      TopLimbBits(w);
    }

    method Bit(i: nat) returns (b: bool)
      ensures b <==> Value() / Pow(2, i) % 2 == 1
    {
      var limb := i / 32;
      b := limb < |w| && (w[limb] / Pow(2, i % 32)) % 2 != 0;
      LimbOfBit(w, i);
    }

    /** Does 2^i leave a remainder? */
    method AnyBitBelow(i: nat) returns (any: bool)
      ensures any <==> Value() % Pow(2, i) != 0
    {
      var limbs := if i / 32 < |w| then i / 32 else |w|;
      var k := 0;
      while k < limbs
        invariant k <= limbs
        invariant forall j :: 0 <= j < k ==> w[j] == 0
      {
        if w[k] != 0 {
          NonzeroBelow(w, k, i);
          return true;
        }
        k := k + 1;
      }
      // A shift left by 32 - i % 32 in 32 bits keeps the low i % 32 bits.
      any := limbs < |w| && i % 32 != 0 && w[limbs] % Pow(2, i % 32) != 0;
      ZeroBelow(w, i);
    }

    method MulSmall(m: Limb)
      requires Valid()
      modifies this
      ensures Valid() && Value() == old(Value()) * m
    {
      w := MulSmallLimbs(w, m);
      Trim();
    }

    method AddSmall(a: Limb)
      requires Valid()
      modifies this
      ensures Valid() && Value() == old(Value()) + a
    {
      var carry: U64 := a;
      var i := 0;
      while carry != 0
        invariant i <= |w| && carry < BASE
        invariant Eval(BASE, w) + carry * Pow(BASE, i) == old(Value()) + a
        invariant i < |w| || carry == 0 ==> Trimmed(w)
        decreases if carry == 0 then 0 else |w| - i + 1
      {
        if i == |w| {
          EvalSnoc(BASE, w, 0);
          w := w + [0];
        }
        var v: U64 := w[i] + carry;
        ghost var before := w;
        EvalUpdate(BASE, w, i, v % BASE);
        w := w[i := v % BASE];
        CarryStep(Eval(BASE, before), Eval(BASE, w), before[i], carry, Pow(BASE, i), v);
        carry := v / BASE;
        i := i + 1;
      }
    }

    /** a - b. */
    static method Sub(a: Nat, b: Nat) returns (r: Nat)
      requires a.Valid() && b.Valid() && b.Value() <= a.Value()
      ensures fresh(r) && r.Valid() && r.Value() == a.Value() - b.Value()
    {
      if |b.w| > |a.w| {
        LongerIsLarger(BASE, a.w, b.w);
      }
      var out := SubLimbs(a.w, b.w);
      r := new Nat.Of(out);
    }

    /** This number becomes its quotient by d. */
    method DivSmall(d: Limb) returns (r: Limb)
      requires Valid() && d != 0
      modifies this
      ensures Valid() && old(Value()) == Value() * d + r && r < d
    {
      w, r := DivSmallLimbs(w, d);
      Trim();
    }

    method Shl(bits: nat) returns (r: Nat)
      requires Valid()
      ensures fresh(r) && r.Valid() && r.Value() == Value() * Pow(2, bits)
    {
      if w == [] {
        r := new Nat(0);
        return;
      }
      var out := ShlLimbs(w, bits);
      r := new Nat.Of(out);
    }

    method Shr(bits: nat) returns (r: Nat)
      requires Valid()
      ensures Pow(2, bits) > 0
      ensures fresh(r) && r.Valid() && r.Value() == Value() / Pow(2, bits)
    {
      hide Eval, Pow;
      var limbs := bits / 32;
      ShrWeight(w, bits);
      EvalEmpty(BASE);
      if limbs >= |w| {
        r := new Nat(0);
        return;
      }
      var out := ShrLimbs(w, limbs, bits % 32);
      r := new Nat.Of(out);
    }

    /** -1, 0 or 1 as a is below, at or above b. */
    static method Cmp(a: Nat, b: Nat) returns (c: int)
      requires a.Valid() && b.Valid()
      ensures c == if a.Value() < b.Value() then -1 else if a.Value() == b.Value() then 0 else 1
    {
      if |a.w| != |b.w| {
        if |a.w| < |b.w| {
          LongerIsLarger(BASE, a.w, b.w);
          return -1;
        }
        LongerIsLarger(BASE, b.w, a.w);
        return 1;
      }
      var i := |a.w|;
      while i > 0
        invariant 0 <= i <= |a.w| && a.w[i..] == b.w[i..]
      {
        if a.w[i - 1] != b.w[i - 1] {
          if a.w[i - 1] < b.w[i - 1] {
            EvalTopDecides(BASE, a.w, b.w, i - 1);
            return -1;
          }
          EvalTopDecides(BASE, b.w, a.w, i - 1);
          return 1;
        }
        assert a.w[i - 1..] == [a.w[i - 1]] + a.w[i..];
        assert b.w[i - 1..] == [b.w[i - 1]] + b.w[i..];
        i := i - 1;
      }
      assert a.w[0..] == a.w && b.w[0..] == b.w;
      return 0;
    }

    static method Mul(a: Nat, b: Nat) returns (r: Nat)
      requires a.Valid() && b.Valid()
      ensures fresh(r) && r.Valid() && r.Value() == a.Value() * b.Value()
    {
      if a.w == [] || b.w == [] {
        r := new Nat(0);
        return;
      }
      var out: seq<Limb> := seq(|a.w| + |b.w|, _ => 0);
      EvalZeros(BASE, out);
      assert a.w[..0] == [];
      var i := 0;
      while i < |a.w|
        invariant i <= |a.w| && |out| == |a.w| + |b.w|
        invariant forall k :: i + |b.w| <= k < |out| ==> out[k] == 0
        invariant Eval(BASE, out) == Eval(BASE, a.w[..i]) * Eval(BASE, b.w)
      {
        out := MulRow(out, a.w[i], i, b.w);
        EvalPrefix(BASE, a.w, i);
        MulRowTotal(Eval(BASE, a.w[..i]), a.w[i], Pow(BASE, i), Eval(BASE, b.w));
        i := i + 1;
      }
      assert a.w[..i] == a.w;
      r := new Nat.Of(out);
    }

    /** a divided by d: quotient and remainder. */
    static method DivMod(a: Nat, d: Nat) returns (q: Nat, r: Nat)
      requires a.Valid() && d.Valid() && d.Value() > 0
      ensures fresh(q) && q.Valid() && r.Valid() && (r == a || fresh(r))
      ensures a.Value() == q.Value() * d.Value() + r.Value() && r.Value() < d.Value()
    {
      hide Eval;
      var c := Cmp(a, d);
      if c < 0 {
        q := new Nat(0);
        r := a;
        return;
      }
      if |d.w| == 1 {
        OneLimb(d.w);
        q := new Nat.Of(a.w);
        var rem := q.DivSmall(d.w[0]);
        r := new Nat(rem);
        return;
      }
      NonemptyPositive(d.w);
      q, r := DivLong(a, d);
    }

    /** Algorithm D proper: a divisor of two limbs or more. */
    static method DivLong(a: Nat, d: Nat) returns (q: Nat, r: Nat)
      requires a.Valid() && d.Valid() && |d.w| >= 2 && d.Value() <= a.Value()
      ensures fresh(q) && q.Valid() && fresh(r) && r.Valid()
      ensures a.Value() == q.Value() * d.Value() + r.Value() && r.Value() < d.Value()
    {
      hide Eval, Pow, Knuth.Normalized;
      // The trial digit is sharp only for a divisor that fills its top limb.
      var shift := NormalizingShift(d.w[|d.w| - 1]);
      var v := d.Shl(shift);
      var u := a.Shl(shift);
      NormalizedShape(d.w, v.w, shift);
      ShiftedLonger(a.w, u.w, d.w, shift);
      var size := (if |u.w| > |a.w| then |u.w| else |a.w|) + 1;
      EvalPad(BASE, u.w, size - |u.w|);
      var ud: seq<Limb> := u.w + seq(size - |u.w|, _ => 0);
      var qd, rd := Knuth.Divide(ud, v.w);
      q := new Nat.Of(qd);
      var rest := new Nat.Of(rd);
      r := rest.Shr(shift);
      Denormalized(a.Value(), d.Value(), q.Value(), rest.Value(), Pow(2, shift));
    }

    /** The number a big-endian byte string denotes. */
    static method FromBytes(be: seq<Byte>) returns (r: Nat)
      ensures fresh(r) && r.Valid() && r.Value() == Num(256, be)
    {
      hide Eval, Num;
      var w := BytesToLimbs(be);
      r := new Nat.Of(w);
    }

    /** The bytes of the number, most significant first, with no zero byte in front. */
    method ToBytes() returns (be: seq<Byte>)
      requires Valid()
      ensures Num(256, be) == Value()
      ensures |be| == (BitLength(Value()) + 7) / 8 && (be != [] ==> be[0] != 0)
    {
      hide Eval, Num, Pow, BitLength, DropBytes;
      var len := BitLen();
      be := [];
      var i := (len + 7) / 8;
      NumEmpty(256);
      TopByte(Value());
      ByteCount(w);
      while i > 0
        invariant 0 <= i <= (len + 7) / 8 && |be| == (len + 7) / 8 - i
        invariant Num(256, be) == DropBytes(Value(), i)
        invariant be != [] ==> be[0] != 0
      {
        ByteOfLimb(w, i - 1);
        ByteStep(Value(), i - 1);
        var b: Byte := w[(i - 1) / 4] / Pow(256, (i - 1) % 4) % 256;
        NumSnoc(256, be, b);
        be := be + [b];
        i := i - 1;
      }
      DropNoBytes(Value());
    }

    /** The number in decimal, with no leading zero but for zero itself. */
    method ToDecimal() returns (text: string)
      requires Valid()
      ensures text != "" && AllDigits(text) && DecValue(text) == Value()
      ensures Value() > 0 ==> text[0] != '0'
    {
      var zero := IsZero();
      if zero {
        text := "0";
        DecSnoc("", '0');
        assert "" + "0" == "0";
        return;
      }
      hide Eval, Num, DigitsSoFar;
      var n := new Nat.Of(w);
      var out: seq<nat> := [];
      DigitsStart(Value());
      var done := false;
      while !done
        invariant fresh(n) && n.Valid() && DigitsSoFar(n.Value(), out, Value())
        invariant done ==> n.Value() == 0
        decreases !done, n.Value()
      {
        done := n.IsZero();
        if !done {
          ghost var before := n.Value();
          var chunk := n.DivSmall(1000000000);
          var digits := NineDigits(chunk);
          ChunkStep(before, n.Value(), chunk, out, digits, Value());
          out := out + digits;
        }
      }
      text := DigitsText(out, Value());
    }

    static method Pow10(n: nat) returns (r: Nat)
      ensures fresh(r) && r.Valid() && r.Value() == Pow(10, n)
    {
      r := new Nat(1);
      var k := n;
      while k >= 9
        invariant fresh(r) && r.Valid() && 0 <= k <= n
        invariant r.Value() * Pow(10, k) == Pow(10, n)
      {
        PowAdd(10, 9, k - 9);
        WordPowers();
        MulAssoc(r.Value(), 1000000000, Pow(10, k - 9));
        r.MulSmall(1000000000);
        k := k - 9;
      }
      while k > 0
        invariant fresh(r) && r.Valid() && 0 <= k <= n
        invariant r.Value() * Pow(10, k) == Pow(10, n)
      {
        MulAssoc(r.Value(), 10, Pow(10, k - 1));
        r.MulSmall(10);
        k := k - 1;
      }
    }
  }

  /** Four bytes to a limb, from the low end. */
  method BytesToLimbs(be: seq<Byte>) returns (w: seq<Limb>)
    ensures Eval(BASE, w) == Num(256, be)
  {
    hide Eval, Num, BytesSoFar;
    w := seq((|be| + 3) / 4, _ => 0);
    BytesStart(w, be);
    var i := 0;
    while i < |be|
      invariant i <= |be| && |w| == (|be| + 3) / 4
      invariant BytesSoFar(w, be, i)
    {
      BytesStep(w, be, i);
      // The byte's bits are above those already in the limb, so the bitwise or is a sum.
      w := w[i / 4 := w[i / 4] + be[|be| - 1 - i] * Pow(256, i % 4)];
      i := i + 1;
    }
    BytesEnd(w, be);
  }

  method MulSmallLimbs(w0: seq<Limb>, m: Limb) returns (w: seq<Limb>)
    ensures Eval(BASE, w) == Eval(BASE, w0) * m
  {
    hide MulSoFar, Eval;
    w := w0;
    var carry: U64 := 0;
    var i := 0;
    MulSmallStart(m);
    assert w[..0] == [];
    while i < |w|
      invariant i <= |w| == |w0| && w[i..] == w0[i..] && carry < BASE
      invariant MulSoFar(w[..i], carry, w0[..i], m)
    {
      MulSmallStep(w[..i], carry, w0[..i], w[i], m, w[i] * m + carry);
      var v: U64 := w[i] * m + carry;
      PrefixUpdate(w, i, v % BASE);
      PrefixSnoc(w0, i);
      w := w[i := v % BASE];
      carry := v / BASE;
      i := i + 1;
    }
    assert w[..i] == w && w0[..i] == w0;
    MulSmallEnd(w, carry, w0, m);
    if carry != 0 {
      w := w + [carry];
    }
  }

  method DivSmallLimbs(w0: seq<Limb>, d: Limb) returns (w: seq<Limb>, r: Limb)
    requires d != 0
    ensures Eval(BASE, w0) == Eval(BASE, w) * d + r && r < d
  {
    hide Eval, Divided;
    w := w0;
    var rem: U64 := 0;
    var i := |w|;
    DividedStart(d);
    assert w[i..] == [];
    while i > 0
      invariant 0 <= i <= |w| == |w0| && w[..i] == w0[..i] && rem < d
      invariant Divided(w[i..], rem, w0[i..], d)
    {
      DividedStep(w[i..], rem, w0[i..], w[i - 1], d);
      var v: U64 := rem * BASE + w[i - 1];
      assert w[i - 1 := v / d][i - 1..] == [v / d] + w[i..];
      assert w0[i - 1..] == [w0[i - 1]] + w0[i..];
      w := w[i - 1 := v / d];
      rem := v % d;
      i := i - 1;
    }
    assert w[i..] == w && w0[i..] == w0;
    DividedEnd(w, rem, w0, d);
    r := rem;
  }

  method ShrLimbs(w: seq<Limb>, limbs: nat, rest: nat) returns (out: seq<Limb>)
    requires limbs < |w| && rest < 32
    ensures Eval(BASE, out) == Eval(BASE, w[limbs..]) / Pow(2, rest)
  {
    hide Eval, ShiftedLimb, Pow;
    out := seq(|w| - limbs, _ => 0);
    var i := limbs;
    while i < |w|
      invariant limbs <= i <= |w| && |out| == |w| - limbs
      invariant forall k :: 0 <= k < i - limbs ==> out[k] == ShiftedLimb(w, limbs + k, rest)
    {
      ShiftedLimbIs(w, i, rest);
      var v: U64 := w[i];
      if i + 1 < |w| {
        v := v + w[i + 1] * BASE;
      }
      out := out[i - limbs := (v / Pow(2, rest)) % BASE];
      i := i + 1;
    }
    ShiftedLimbs(w, limbs, rest, out);
  }

  method ShlLimbs(w: seq<Limb>, bits: nat) returns (out: seq<Limb>)
    requires w != []
    ensures Eval(BASE, out) == Eval(BASE, w) * Pow(2, bits)
  {
    hide ShlSoFar;
    var limbs, rest := bits / 32, bits % 32;
    out := seq(|w| + limbs + 1, _ => 0);
    ShlStart(out, w, bits);
    var i := 0;
    while i < |w|
      invariant i <= |w| && |out| == |w| + limbs + 1
      invariant forall k :: i + limbs < k < |out| ==> out[k] == 0
      invariant ShlSoFar(out, w, i, bits)
    {
      var k := i + limbs;
      ShlStep(out, w, i, bits);
      var v: U64 := w[i] * Pow(2, rest);
      // The bits below position rest of v are clear and out[k] has no others,
      // so the bitwise or is a sum.
      out := out[k := out[k] + v % BASE];
      out := out[k + 1 := v / BASE];
      i := i + 1;
    }
    ShlEnd(out, w, bits);
  }

  method SubLimbs(a: seq<Limb>, b: seq<Limb>) returns (out: seq<Limb>)
    requires |b| <= |a| && Eval(BASE, b) <= Eval(BASE, a)
    ensures Eval(BASE, out) == Eval(BASE, a) - Eval(BASE, b)
  {
    hide Eval, SubSoFar;
    out := a;
    ghost var bp: seq<Limb> := b + seq(|a| - |b|, _ => 0);
    var borrow: I64 := 0;
    var i := 0;
    SubStart();
    assert a[..0] == [] && bp[..0] == [];
    while i < |out|
      invariant i <= |out| == |a| && out[i..] == a[i..]
      invariant borrow == 0 || borrow == 1
      invariant SubSoFar(out[..i], bp[..i], a[..i], borrow)
    {
      var t: I64 := out[i] - (if i < |b| then b[i] else 0) - borrow;
      SubStep(out[..i], a[..i], bp[..i], borrow, a[i], bp[i], t);
      PrefixUpdate(out, i, t % BASE);
      PrefixSnoc(a, i);
      PrefixSnoc(bp, i);
      out := out[i := t % BASE];
      borrow := if t < 0 then 1 else 0;
      i := i + 1;
    }
    assert out[..i] == out && bp[..i] == bp && a[..i] == a;
    EvalPad(BASE, b, |a| - |b|);
    SubEnd(out, bp, a, borrow);
  }

  /** The digits of v, least significant first, as text: zeros on top dropped, and turned around. */
  method DigitsText(digits: seq<nat>, ghost v: nat) returns (text: string)
    requires v > 0 && DigitsSoFar(0, digits, v)
    ensures text != "" && AllDigits(text) && DecValue(text) == v && text[0] != '0'
  {
    hide Eval, Num, DigitsSoFar;
    var out := digits;
    while |out| > 1 && out[|out| - 1] == 0
      invariant DigitsSoFar(0, out, v)
      decreases |out|
    {
      DropZeroDigit(out, v);
      out := out[..|out| - 1];
    }
    DigitsEnd(out, v);
    text := seq(|out|, i requires 0 <= i < |out| => DigitChar(out[|out| - 1 - i]));
    assert Values(text) == Rev(out);
    TopDigit(out, v);
  }

  /** The nine decimal digits of a chunk, least significant first. */
  method NineDigits(chunk0: Limb) returns (digits: seq<nat>)
    requires chunk0 < 1000000000
    ensures |digits| == 9 && InBase(10, digits) && Eval(10, digits) == chunk0
  {
    digits := [];
    var chunk: nat := chunk0;
    var i := 0;
    WordPowers();
    while i < 9
      invariant 0 <= i <= 9 && |digits| == i && InBase(10, digits)
      invariant Eval(10, digits) + chunk * Pow(10, i) == chunk0
      invariant chunk * Pow(10, i) < Pow(10, 9)
    {
      EvalSnoc(10, digits, chunk % 10);
      TenStep(chunk, Pow(10, i));
      digits := digits + [chunk % 10];
      chunk := chunk / 10;
      i := i + 1;
    }
    if chunk > 0 {
      MulLe(1, chunk, Pow(10, 9));
    }
  }

  /** How far left the top limb goes until its top bit is set. */
  method NormalizingShift(limb: Limb) returns (shift: nat)
    requires limb != 0
    ensures shift < 32 && BASE / 2 <= limb * Pow(2, shift) < BASE
  {
    shift := 0;
    var top: nat := limb;
    while top < BASE / 2
      invariant top == limb * Pow(2, shift) && 0 < top < BASE && shift < 32
      invariant Pow(2, shift) <= top
      decreases BASE - top
    {
      MulAssoc(limb, 2, Pow(2, shift));
      if shift == 31 {
        WordPowers();
      }
      top := top * 2;
      shift := shift + 1;
    }
  }

  /** Adds x * b at limb i of out: one row of schoolbook multiplication. */
  method MulRow(out0: seq<Limb>, x: Limb, i: nat, b: seq<Limb>) returns (out: seq<Limb>)
    requires i + |b| < |out0| && forall k :: i + |b| <= k < |out0| ==> out0[k] == 0
    ensures |out| == |out0| && forall k :: i + |b| < k < |out| ==> out[k] == 0
    ensures RowSoFar(out, 0, out0, x, i, b)
  {
    hide RowSoFar;
    out := out0;
    var carry: U64 := 0;
    var j := 0;
    MulRowStart(out0, x, i);
    assert b[..0] == [];
    while j < |b|
      invariant j <= |b| && |out| == |out0| && carry < BASE
      invariant forall k :: i + |b| <= k < |out| ==> out[k] == 0
      invariant RowSoFar(out, carry, out0, x, i, b[..j])
    {
      MulAddFits(x, b[j], out[i + j], carry);
      var v: U64 := x * b[j] + out[i + j] + carry;
      MulRowStep(out, carry, out0, x, i, b[..j], b[j], v);
      out := out[i + j := v % BASE];
      carry := v / BASE;
      assert b[..j + 1] == b[..j] + [b[j]];
      j := j + 1;
    }
    assert b[..j] == b;
    MulRowEnd(out, carry, out0, x, i, b);
    out := out[i + |b| := carry];
  }
}
