/**
Unsigned numbers as big-endian byte vectors: the in-place loops of src/pb/big.cc.
 */
module ByteMagnitude {
  import opened Powers
  import opened Bits
  import opened BigEndian
  import opened LimbShifts
  import opened FloatArith

  /** No leading zero byte: the one form of its value. */
  predicate Minimal(mag: seq<Byte>) {
    mag == [] || mag[0] != 0
  }

  lemma {:induction false} MinimalUnique(a: seq<Byte>, b: seq<Byte>)
    requires Minimal(a) && Minimal(b) && Num(256, a) == Num(256, b)
    ensures a == b
  {
    NumUnique(256, a, b);
  }

  lemma {:induction false} MinimalZero(a: seq<Byte>)
    requires Minimal(a)
    ensures Num(256, a) == 0 <==> a == []
  {
    if a != [] {
      NumLower(256, a);
    }
  }

  /** Erases the leading zero bytes. */
  function TrimLeadingZeros(mag: seq<Byte>): (r: seq<Byte>)
    ensures Minimal(r)
  {
    if mag != [] && mag[0] == 0 then TrimLeadingZeros(mag[1..]) else mag
  }

  lemma {:induction false} TrimmedValue(mag: seq<Byte>)
    ensures Num(256, TrimLeadingZeros(mag)) == Num(256, mag)
  {
    if mag != [] && mag[0] == 0 {
      TrimmedValue(mag[1..]);
      NumCons(256, 0, mag[1..]);
      assert [0] + mag[1..] == mag;
    }
  }

  // ---- Bits ----

  lemma {:induction false} BytePow(n: nat)
    ensures Pow(256, n) == Pow(2, 8 * n)
  {
    WordPowers();
    PowMul(2, 8, n);
  }

  lemma {:induction false} TopByteBits(mag: seq<Byte>)
    requires mag != [] && mag[0] != 0
    ensures BitLength(Num(256, mag)) == (|mag| - 1) * 8 + BitLength(mag[0])
  {
    hide BitLength, Num, Pow;
    var lo := mag[1..];
    NumCons(256, mag[0], lo);
    assert [mag[0]] + lo == mag;
    NumBound(256, lo);
    BytePow(|lo|);
    TopBits(Num(256, lo), mag[0], 8 * |lo|);
  }

  method BitLen(mag: seq<Byte>) returns (n: nat)
    requires Minimal(mag)
    ensures n == BitLength(Num(256, mag))
  {
    hide Num;
    if mag == [] {
      NumEmpty(256);
      return 0;
    }
    TopByteBits(mag);
    n := (|mag| - 1) * 8;
    var top := mag[0];
    while top != 0
      invariant n + BitLength(top) == BitLength(Num(256, mag))
    {
      n := n + 1;
      top := top / 2;
    }
  }

  /** The byte that holds bit i, and where in it. */
  lemma {:induction false} ByteOfBit(mag: seq<Byte>, i: nat)
    requires i / 8 < |mag|
    ensures Pow(2, i) > 0
    ensures Num(256, mag) / Pow(2, i) % 2 == mag[|mag| - 1 - i / 8] / Pow(2, i % 8) % 2
  {
    hide Num, Pow;
    var k, j := i / 8, i % 8;
    var at := |mag| - 1 - k;
    DropLowBytes(mag, k);
    var hi := mag[..at];
    assert mag[..|mag| - k] == hi + [mag[at]];
    NumSnoc(256, hi, mag[at]);
    BytePow(k);
    PowAdd(2, 8 * k, j);
    PowPositive(2, 8 * k);
    PowPositive(2, j);
    DivDiv(Num(256, mag), Pow(2, 8 * k), Pow(2, j));
    LowBit(Num(256, hi), mag[at], j);
  }

  lemma PowPositive(b: nat, e: nat)
    requires b > 0
    ensures Pow(b, e) > 0
  {
  }

  /** Dropping the low k bytes divides by 256^k. */
  lemma {:induction false} DropLowBytes(mag: seq<Byte>, k: nat)
    requires k <= |mag|
    ensures Pow(256, k) > 0 && Num(256, mag[..|mag| - k]) == Num(256, mag) / Pow(256, k)
  {
    hide Num;
    var hi, lo := mag[..|mag| - k], mag[|mag| - k..];
    assert hi + lo == mag;
    NumConcat(256, hi, lo);
    NumBound(256, lo);
    DivUnique(Num(256, mag), Pow(256, k), Num(256, hi), Num(256, lo));
  }

  lemma {:induction false} LowBit(h: nat, b: Byte, j: nat)
    requires j < 8
    ensures Pow(2, j) > 0 && (h * 256 + b) / Pow(2, j) % 2 == b / Pow(2, j) % 2
  {
    hide Pow;
    WordPowers();
    PowPositive(2, j);
    PowAdd(2, j, 8 - j);
    var r, t := Pow(2, j), Pow(2, 7 - j);
    PowAdd(2, 1, 7 - j);
    TwoToOne();
    LowBitTerms(h, b, r, t);
  }

  lemma LowBitTerms(h: nat, b: nat, r: nat, t: nat)
    requires r > 0 && r * (2 * t) == 256
    ensures (h * 256 + b) / r % 2 == b / r % 2
  {
    var q, m := b / r, b % r;
    assert b == q * r + m;
    LowBitProduct(h, r, t, q);
    DivUnique(h * 256 + b, r, h * (2 * t) + q, m);
    EvenMultiple(q, t, h);
    assert h * (2 * t) == (2 * t) * h;
  }

  lemma LowBitProduct(h: int, r: int, t: int, q: int)
    requires r * (2 * t) == 256
    ensures (h * (2 * t) + q) * r == h * 256 + q * r
  {
    MulAssoc(h, 2 * t, r);
    assert (2 * t) * r == r * (2 * t);
    assert (h * (2 * t) + q) * r == (h * (2 * t)) * r + q * r;
  }

  /** Whether bit i is set. */
  method Bit(mag: seq<Byte>, i: nat) returns (b: bool)
    requires i / 8 < |mag|
    ensures Pow(2, i) > 0 && (b <==> Num(256, mag) / Pow(2, i) % 2 == 1)
  {
    hide Num, Pow;
    ByteOfBit(mag, i);
    PowPositive(2, i % 8);
    b := mag[|mag| - 1 - i / 8] / Pow(2, i % 8) % 2 != 0;
  }

  /** One more bit below: the remainder by 2^(i+1) is zero when bit i and the rest are. */
  lemma {:induction false} NextBit(v: nat, i: nat)
    ensures Pow(2, i) > 0 && Pow(2, i + 1) > 0
    ensures v % Pow(2, i + 1) == 0 <==> v % Pow(2, i) == 0 && v / Pow(2, i) % 2 == 0
  {
    hide Pow;
    PowPositive(2, i);
    PowAdd(2, i, 1);
    TwoToOne();
    var p := Pow(2, i);
    DivDiv(v, p, 2);
    if (v / p) % 2 == 1 {
      assert (v / p) % 2 * p == p;
    }
  }

  /** A zero remainder by a larger power of two is one by a smaller. */
  lemma {:induction false} FewerBits(v: nat, i: nat, j: nat)
    requires i <= j
    ensures Pow(2, i) > 0 && Pow(2, j) > 0
    ensures v % Pow(2, i) != 0 ==> v % Pow(2, j) != 0
    decreases j - i
  {
    hide Pow;
    PowPositive(2, i);
    PowPositive(2, j);
    if i < j {
      NextBit(v, i);
      FewerBits(v, i + 1, j);
    }
  }

  /** Whether any bit below i is set. */
  method AnyBitBelow(mag: seq<Byte>, n: nat) returns (sticky: bool)
    requires n <= 8 * |mag|
    ensures Pow(2, n) > 0 && (sticky <==> Num(256, mag) % Pow(2, n) != 0)
  {
    hide Num, Pow;
    PowPositive(2, n);
    sticky := false;
    var i := 0;
    OneDivides(Num(256, mag));
    while i < n && !sticky
      invariant 0 <= i <= n
      invariant Pow(2, i) > 0 && (sticky <==> Num(256, mag) % Pow(2, i) != 0)
    {
      NextBit(Num(256, mag), i);
      sticky := Bit(mag, i);
      i := i + 1;
    }
    FewerBits(Num(256, mag), i, n);
  }

  lemma OneDivides(v: nat)
    ensures Pow(2, 0) > 0 && v % Pow(2, 0) == 0
  {
  }

  // ---- Adding a byte ----

  /** The low bytes, from i on, hold the sum so far; c is still to be added above them. */
  ghost predicate AddSoFar(mag: seq<Byte>, c: nat, mag0: seq<Byte>, v: nat, i: nat) {
    && i <= |mag| == |mag0| && mag[..i] == mag0[..i]
    && Num(256, mag[i..]) + c * Pow(256, |mag| - i) == Num(256, mag0[i..]) + v
  }

  lemma {:induction false} AddStep(mag: seq<Byte>, c: nat, mag0: seq<Byte>, v: nat, i: nat)
    requires i > 0 && AddSoFar(mag, c, mag0, v, i)
    ensures var s := mag[i - 1] + c;
            AddSoFar(mag[i - 1 := s % 256], s / 256, mag0, v, i - 1)
  {
    hide Num;
    var s := mag[i - 1] + c;
    var out: seq<Byte> := mag[i - 1 := s % 256];
    var p := Pow(256, |mag| - i);
    assert out[i - 1..] == [s % 256] + mag[i..];
    assert mag0[i - 1..] == [mag[i - 1]] + mag0[i..] by { assert mag0[i - 1] == mag0[..i][i - 1] == mag[..i][i - 1]; }
    NumCons(256, s % 256, mag[i..]);
    NumCons(256, mag[i - 1], mag0[i..]);
    assert out[..i - 1] == mag[..i][..i - 1] == mag0[..i][..i - 1] == mag0[..i - 1];
    AddStepTerms(s, mag[i - 1], c, p);
  }

  lemma AddStepTerms(s: nat, x: nat, c: nat, p: nat)
    requires s == x + c
    ensures s % 256 * p + s / 256 * (256 * p) == x * p + c * p
  {
    var q, m := s / 256, s % 256;
    assert s == q * 256 + m;
    MulAssoc(q, 256, p);
    assert (q * 256 + m) * p == (q * 256) * p + m * p;
    assert (x + c) * p == x * p + c * p;
  }

  lemma {:induction false} AddEnd(mag: seq<Byte>, c: Byte, mag0: seq<Byte>, v: nat, i: nat)
    requires AddSoFar(mag, c, mag0, v, i) && (c == 0 || i == 0)
    ensures Num(256, if c == 0 then mag else [c] + mag) == Num(256, mag0) + v
  {
    hide Num;
    assert mag == mag[..i] + mag[i..] && mag0 == mag0[..i] + mag0[i..];
    if c == 0 {
      NumConcat(256, mag[..i], mag[i..]);
      NumConcat(256, mag0[..i], mag0[i..]);
    } else {
      assert mag[0..] == mag && mag0[0..] == mag0;
      NumCons(256, c, mag);
    }
  }

  lemma AddStart(mag: seq<Byte>, v: nat)
    ensures AddSoFar(mag, v, mag, v, |mag|)
  {
    assert mag[|mag|..] == [];
  }

  method AddU8(mag0: seq<Byte>, v: Byte) returns (mag: seq<Byte>)
    ensures Num(256, mag) == Num(256, mag0) + v
  {
    hide Num, AddSoFar;
    mag := mag0;
    var carry: nat := v;
    var i: nat := |mag|;
    AddStart(mag, v);
    while i > 0 && carry != 0
      invariant i <= |mag| && carry < 256 && AddSoFar(mag, carry, mag0, v, i)
      decreases i
    {
      AddStep(mag, carry, mag0, v, i);
      var s: nat := mag[i - 1] + carry;
      mag := mag[i - 1 := s % 256];
      carry := s / 256;
      i := i - 1;
    }
    AddEnd(mag, carry, mag0, v, i);
    if carry != 0 {
      mag := [carry] + mag;
    }
  }

  // ---- Shifts ----

  /** Byte i of mag shifted right by fewer than eight bits. */
  function ShiftedByte(mag: seq<Byte>, i: nat, shift: nat): Byte
    requires i < |mag|
  {
    ((if i == 0 then 0 else mag[i - 1]) * 256 + mag[i]) / Pow(2, shift) % 256
  }

  lemma {:induction false} ShiftedBytes(mag: seq<Byte>, shift: nat, out: seq<Byte>)
    requires shift < 8 && |out| == |mag| && forall k :: 0 <= k < |mag| ==> out[k] == ShiftedByte(mag, k, shift)
    ensures Pow(2, shift) > 0 && Num(256, out) == Num(256, mag) / Pow(2, shift)
    decreases |mag|
  {
    hide Pow, Num;
    PowPositive(2, shift);
    NumEmpty(256);
    if mag == [] {
      ZeroDivides(Pow(2, shift));
    } else {
      var n := |mag| - 1;
      var a, b := mag[..n], mag[n];
      forall k | 0 <= k < n
        ensures out[..n][k] == ShiftedByte(a, k, shift)
      {
        assert out[k] == ShiftedByte(mag, k, shift);
      }
      ShiftedBytes(a, shift, out[..n]);
      LastByte(mag);
      LastByte(out);
      LastByte(a);
      var l := if n == 0 then 0 else mag[n - 1];
      ByteShift(Num(256, a), if n == 0 then 0 else Num(256, a[..n - 1]), l, b, shift);
    }
  }

  lemma LastByte(mag: seq<Byte>)
    ensures mag != [] ==> Num(256, mag) == Num(256, mag[..|mag| - 1]) * 256 + mag[|mag| - 1]
  {
  }

  lemma ZeroDivides(p: nat)
    requires p > 0
    ensures 0 / p == 0
  {
  }

  lemma {:induction false} ByteShift(n: nat, h: nat, l: Byte, b: Byte, shift: nat)
    requires shift < 8 && n == h * 256 + l
    ensures Pow(2, shift) > 0
    ensures (n * 256 + b) / Pow(2, shift) == n / Pow(2, shift) * 256 + (l * 256 + b) / Pow(2, shift) % 256
  {
    hide Pow;
    WordPowers();
    PowPositive(2, shift);
    PowAdd(2, shift, 8 - shift);
    var p, t := Pow(2, shift), Pow(2, 8 - shift);
    SameLow(h, l, p, t);
    SplitShift(n, b, p);
    SplitShift(l, b, p);
  }

  lemma SameLow(h: nat, l: nat, p: nat, t: nat)
    requires p > 0 && p * t == 256
    ensures (h * 256 + l) % p == l % p
  {
    var q, m := l / p, l % p;
    assert l == q * p + m;
    MulAssoc(h, t, p);
    assert t * p == p * t;
    assert (h * t + q) * p == (h * t) * p + q * p;
    DivUnique(h * 256 + l, p, h * t + q, m);
  }

  lemma SplitShift(n: nat, b: Byte, p: nat)
    requires p > 0
    ensures (n * 256 + b) / p == n / p * 256 + (n % p * 256 + b) / p
    ensures (n % p * 256 + b) / p < 256
    ensures (n * 256 + b) / p % 256 == (n % p * 256 + b) / p
  {
    var q, r := n / p, n % p;
    assert n == q * p + r;
    var x := r * 256 + b;
    var q', r' := x / p, x % p;
    assert x == q' * p + r';
    DivLowerBound(x, p, 256);
    MulLe(r + 1, p, 256);
    SplitTerms(n, b, q, r, q', r', p);
  }

  lemma SplitTerms(n: nat, b: Byte, q: nat, r: nat, q': nat, r': nat, p: nat)
    requires p > 0 && n == q * p + r && r * 256 + b == q' * p + r' && r' < p && q' < 256
    ensures (n * 256 + b) / p == q * 256 + q' && (n * 256 + b) / p % 256 == q'
  {
    assert (q * 256 + q') * p == (q * p) * 256 + q' * p;
    DivUnique(n * 256 + b, p, q * 256 + q', r');
    DivUnique(q * 256 + q', 256, q, q');
  }

  /** Shifts right by fewer than eight bits, from the low end up. */
  method ShiftRightBits(mag0: seq<Byte>, shift: nat) returns (mag: seq<Byte>)
    requires shift < 8
    ensures Pow(2, shift) > 0 && Num(256, mag) == Num(256, mag0) / Pow(2, shift) && |mag| == |mag0|
  {
    hide Num, Pow, ShiftedByte;
    mag := mag0;
    var i := |mag|;
    while i > 0
      invariant 0 <= i <= |mag| == |mag0| && mag[..i] == mag0[..i]
      invariant forall k :: i <= k < |mag| ==> mag[k] == ShiftedByte(mag0, k, shift)
      decreases i
    {
      i := i - 1;
      var high := if i == 0 then 0 else mag[i - 1];
      ShiftedByteIs(mag0, i, shift);
      assert mag[i] == mag[..i + 1][i] == mag0[i] && (i > 0 ==> mag[i - 1] == mag[..i + 1][i - 1] == mag0[i - 1]);
      mag := mag[i := (high * 256 + mag[i]) / Pow(2, shift) % 256];
    }
    ShiftedBytes(mag0, shift, mag);
  }

  lemma ShiftedByteIs(mag: seq<Byte>, i: nat, shift: nat)
    requires i < |mag|
    ensures Pow(2, shift) > 0
    ensures ShiftedByte(mag, i, shift) == ((if i == 0 then 0 else mag[i - 1]) * 256 + mag[i]) / Pow(2, shift) % 256
  {
  }

  /** Drops the low n bits, rounding half to even. */
  method ShiftRightRounded(mag0: seq<Byte>, n: nat) returns (mag: seq<Byte>)
    requires 0 < n < BitLength(Num(256, mag0)) && Minimal(mag0)
    ensures Minimal(mag) && Num(256, mag) == RoundSticky(Num(256, mag0), n, false)
  {
    hide Num, Pow, BitLength;
    BitsWithin(mag0);
    var half := Bit(mag0, n - 1);
    var sticky := AnyBitBelow(mag0, n - 1);
    mag := mag0[..|mag0| - n / 8];
    DropLowBytes(mag0, n / 8);
    var shift := n % 8;
    ShiftParts(Num(256, mag0), n);
    mag := ShiftRightBits(mag, shift);
    HalfAndBelow(Num(256, mag0), n);
    assert mag != [];
    LastByteParity(mag);
    if half && (sticky || mag[|mag| - 1] % 2 != 0) {
      mag := AddU8(mag, 1);
    }
    TrimmedValue(mag);
    mag := TrimLeadingZeros(mag);
  }

  lemma {:induction false} BitsWithin(mag: seq<Byte>)
    ensures BitLength(Num(256, mag)) <= 8 * |mag|
  {
    NumBound(256, mag);
    BytePow(|mag|);
    BitLengthLe(Num(256, mag), 8 * |mag|);
  }

  lemma {:induction false} ShiftParts(v: nat, n: nat)
    ensures Pow(256, n / 8) > 0 && Pow(2, n % 8) > 0 && Pow(2, n) > 0
    ensures v / Pow(256, n / 8) / Pow(2, n % 8) == v / Pow(2, n)
  {
    hide Pow;
    var k := n / 8;
    BytePow(k);
    PowAdd(2, 8 * k, n % 8);
    PowPositive(2, 8 * k);
    PowPositive(2, n % 8);
    DivDiv(v, Pow(2, 8 * k), Pow(2, n % 8));
  }

  lemma LastByteParity(mag: seq<Byte>)
    requires mag != []
    ensures Num(256, mag) % 2 == mag[|mag| - 1] % 2
  {
  }

  /** The low bytes, from i on, shifted left; c comes out above them. */
  ghost predicate ShiftLeftSoFar(mag: seq<Byte>, c: nat, mag0: seq<Byte>, t: nat, i: nat) {
    && i <= |mag| == |mag0| && mag[..i] == mag0[..i] && c < t
    && Num(256, mag[i..]) + c * Pow(256, |mag| - i) == Num(256, mag0[i..]) * t
  }

  lemma {:induction false} ShiftLeftStep(mag: seq<Byte>, c: nat, mag0: seq<Byte>, t: nat, i: nat)
    requires i > 0 && t <= 256 && ShiftLeftSoFar(mag, c, mag0, t, i)
    ensures var v := mag[i - 1] * t + c;
            ShiftLeftSoFar(mag[i - 1 := v % 256], v / 256, mag0, t, i - 1)
  {
    hide Num;
    var v := mag[i - 1] * t + c;
    var out: seq<Byte> := mag[i - 1 := v % 256];
    var p := Pow(256, |mag| - i);
    assert out[i - 1..] == [v % 256] + mag[i..];
    assert mag0[i - 1..] == [mag[i - 1]] + mag0[i..] by { assert mag0[i - 1] == mag0[..i][i - 1] == mag[..i][i - 1]; }
    NumCons(256, v % 256, mag[i..]);
    NumCons(256, mag[i - 1], mag0[i..]);
    assert out[..i - 1] == mag[..i][..i - 1] == mag0[..i][..i - 1] == mag0[..i - 1];
    ShiftLeftTerms(v, mag[i - 1], c, p, t, Num(256, mag0[i..]));
  }

  lemma ShiftLeftTerms(v: nat, x: Byte, c: nat, p: nat, t: nat, lo: nat)
    requires v == x * t + c && c < t
    ensures v / 256 < t
    ensures v % 256 * p + v / 256 * (256 * p) == (x * t) * p + c * p
    ensures (x * p + lo) * t == (x * t) * p + lo * t
  {
    AddStepTerms(v, x * t, c, p);
    MulLe(x + 1, 256, t);
    assert (x + 1) * t == x * t + t;
    MulAssoc(x, p, t);
    MulAssoc(x, t, p);
    assert p * t == t * p;
    assert (x * p + lo) * t == (x * p) * t + lo * t;
  }

  lemma ShiftLeftStart(mag: seq<Byte>, t: nat)
    requires t > 0
    ensures ShiftLeftSoFar(mag, 0, mag, t, |mag|)
  {
    assert mag[|mag|..] == [];
  }

  lemma {:induction false} ShiftLeftEnd(mag: seq<Byte>, c: Byte, mag0: seq<Byte>, t: nat)
    requires ShiftLeftSoFar(mag, c, mag0, t, 0)
    ensures Num(256, if c == 0 then mag else [c] + mag) == Num(256, mag0) * t
  {
    hide Num;
    assert mag[0..] == mag && mag0[0..] == mag0;
    NumCons(256, c, mag);
  }

  /** Shifts left by fewer than eight bits, from the low end up. */
  method ShiftLeftBits(mag0: seq<Byte>, t: nat) returns (mag: seq<Byte>)
    requires 0 < t <= 256
    ensures Num(256, mag) == Num(256, mag0) * t
    ensures |mag| == |mag0| || (mag != [] && mag[0] != 0)
  {
    hide Num, ShiftLeftSoFar;
    mag := mag0;
    var carry: nat := 0;
    var i: nat := |mag|;
    ShiftLeftStart(mag, t);
    while i > 0
      invariant i <= |mag| == |mag0| && carry < 256 && ShiftLeftSoFar(mag, carry, mag0, t, i)
      decreases i
    {
      ShiftLeftStep(mag, carry, mag0, t, i);
      var v: nat := mag[i - 1] * t + carry;
      mag := mag[i - 1 := v % 256];
      carry := v / 256;
      i := i - 1;
      CarryBelow(mag, carry, mag0, t, i);
    }
    ShiftLeftEnd(mag, carry, mag0, t);
    if carry != 0 {
      mag := [carry] + mag;
    }
  }

  /** A multiple no longer than the number keeps its top byte set. */
  lemma {:induction false} KeepsTop(mag: seq<Byte>, mag0: seq<Byte>)
    requires |mag| == |mag0| && mag0 != [] && mag0[0] != 0 && Num(256, mag) >= Num(256, mag0)
    ensures mag[0] != 0
  {
    hide Num;
    NumLower(256, mag0);
    NumCons(256, mag[0], mag[1..]);
    assert [mag[0]] + mag[1..] == mag;
    NumBound(256, mag[1..]);
  }

  method ShiftLeft(mag0: seq<Byte>, n: nat) returns (mag: seq<Byte>)
    ensures Num(256, mag) == Num(256, mag0) * Pow(2, n)
    ensures mag0 != [] && Minimal(mag0) ==> Minimal(mag)
  {
    hide Num, Pow;
    mag := mag0;
    var shift := n % 8;
    var t := Pow(2, shift);
    SmallShift(shift);
    if shift != 0 {
      mag := ShiftLeftBits(mag0, t);
      if mag0 != [] && Minimal(mag0) && |mag| == |mag0| {
        MulGrows(Num(256, mag0), t);
        KeepsTop(mag, mag0);
      }
    }
    NumZeros(256, n / 8, mag);
    ShiftUpParts(Num(256, mag0), n);
    mag := mag + seq(n / 8, _ => 0);
  }

  lemma SmallShift(shift: nat)
    requires shift < 8
    ensures 0 < Pow(2, shift) <= 256 && (shift == 0 ==> Pow(2, shift) == 1)
  {
    PowMonotone(2, shift, 8);
    WordPowers();
  }

  lemma CarryBelow(mag: seq<Byte>, c: nat, mag0: seq<Byte>, t: nat, i: nat)
    requires ShiftLeftSoFar(mag, c, mag0, t, i)
    ensures c < t
  {
  }

  lemma {:induction false} ShiftUpParts(v: nat, n: nat)
    ensures v * Pow(2, n % 8) * Pow(256, n / 8) == v * Pow(2, n)
  {
    hide Pow;
    var k := n / 8;
    BytePow(k);
    PowAdd(2, n % 8, 8 * k);
    MulAssoc(v, Pow(2, n % 8), Pow(2, 8 * k));
  }
}
