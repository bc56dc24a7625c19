/**
What the limb loops of Nat rest on: bit positions inside limbs, shifts by a number of
bits that is not a whole number of limbs, rows of a product, and normalizing a divisor.
 */
module LimbShifts {
  import opened Powers
  import opened Digits
  import opened Bits
  import opened LimbArith
  import opened BigEndian
  import Knuth

  lemma {:induction false} NonemptyPositive(w: seq<Limb>)
    requires Trimmed(w) && Eval(BASE, w) > 0
    ensures w != [] && w[|w| - 1] != 0
  {
  }

  lemma OneLimb(w: seq<Limb>)
    requires |w| == 1
    ensures Eval(BASE, w) == w[0]
  {
    assert w[1..] == [];
  }

  /** Shifting the divisor to set its top bit keeps its length. */
  lemma {:induction false} NormalizedShape(d: seq<Limb>, v: seq<Limb>, shift: nat)
    requires |d| >= 2 && Trimmed(d) && Trimmed(v) && shift < 32
    requires BASE / 2 <= d[|d| - 1] * Pow(2, shift) < BASE
    requires Eval(BASE, v) == Eval(BASE, d) * Pow(2, shift)
    ensures |v| == |d| && Knuth.Normalized(v)
  {
    var n := |d|;
    var x, p, t := d[n - 1], Pow(BASE, n - 1), Pow(2, shift);
    EvalPrefix(BASE, d, n - 1);
    assert d[..n] == d;
    EvalBound(BASE, d[..n - 1]);
    PowAdd(2, 32 - shift, shift);
    WordPowers();
    ShiftedTop(Eval(BASE, d[..n - 1]), x, p, t, Pow(2, 32 - shift));
    LengthFromValue(v, n);
    EvalPrefix(BASE, v, n - 1);
    assert v[..n] == v;
    EvalBound(BASE, v[..n - 1]);
    TopFromValue(Eval(BASE, v[..n - 1]), v[n - 1], p);
  }

  lemma ShiftedTop(lo: nat, x: nat, p: nat, t: nat, s: nat)
    requires lo < p && BASE / 2 <= x * t < BASE && t > 0 && s * t == BASE
    ensures BASE / 2 * p <= (lo + x * p) * t < BASE * p
  {
    MulLe(BASE / 2, x * t, p);
    MulLe(0, lo, t);
    MulLess(lo, p, t);
    MulCancelLess(x, s, t);
    MulLe(x + 1, s, t);
    MulLe((x + 1) * t, BASE, p);
    ShiftedTopTerms(lo, x, p, t);
  }

  lemma ShiftedTopTerms(lo: int, x: int, p: int, t: int)
    ensures (lo + x * p) * t == lo * t + (x * t) * p
    ensures ((x + 1) * t) * p == (x * t) * p + p * t
  {
    MulAssoc(x, p, t);
    MulAssoc(x, t, p);
    assert p * t == t * p;
    assert (lo + x * p) * t == lo * t + (x * p) * t;
    assert (x + 1) * t == x * t + t;
    assert (x * t + t) * p == (x * t) * p + t * p;
  }

  lemma {:induction false} LengthFromValue(v: seq<Limb>, n: nat)
    requires Trimmed(v) && n >= 1
    requires BASE / 2 * Pow(BASE, n - 1) <= Eval(BASE, v) < Pow(BASE, n)
    ensures |v| == n
  {
    EvalBound(BASE, v);
    MulLe(1, BASE / 2, Pow(BASE, n - 1));
    if |v| < n {
      PowMonotone(BASE, |v|, n - 1);
    } else if |v| > n {
      TrimmedLower(BASE, v);
      PowMonotone(BASE, n, |v| - 1);
    }
  }

  lemma TopFromValue(lo: nat, x: nat, p: nat)
    requires lo < p && BASE / 2 * p <= lo + x * p
    ensures x >= BASE / 2
  {
    assert (x + 1) * p == x * p + p;
    if x < BASE / 2 {
      MulLe(x + 1, BASE / 2, p);
    }
  }

  lemma {:induction false} ShiftedLonger(a: seq<Limb>, u: seq<Limb>, d: seq<Limb>, shift: nat)
    requires Trimmed(a) && Trimmed(u) && Eval(BASE, u) == Eval(BASE, a) * Pow(2, shift)
    requires Trimmed(d) && Eval(BASE, d) <= Eval(BASE, a)
    ensures |u| >= |a| >= |d|
  {
    if |a| < |d| {
      LongerIsLarger(BASE, a, d);
    }
    if |u| < |a| {
      LongerIsLarger(BASE, u, a);
      MulGrows(Eval(BASE, a), Pow(2, shift));
    }
  }

  /** A common power of two leaves the quotient alone and comes out of the remainder. */
  lemma Denormalized(a: nat, d: nat, q: nat, rest: nat, t: nat)
    requires t > 0 && a * t == q * (d * t) + rest && rest < d * t
    ensures a == q * d + rest / t && rest / t < d
  {
    MulAssoc(q, d, t);
    var r := a - q * d;
    assert r * t == a * t - (q * d) * t;
    MulCancelLess(r, d, t);
    if r < 0 {
      MulLe(r, -1, t);
    }
    DivUnique(rest, t, r, 0);
  }

  /** out, and a carry still to be placed, is out0 plus x times the limbs done so far. */
  ghost predicate RowSoFar(out: seq<Limb>, c: nat, out0: seq<Limb>, x: Limb, i: nat, lo: seq<Limb>) {
    Eval(BASE, out) + c * Pow(BASE, i + |lo|) == Eval(BASE, out0) + (x * Pow(BASE, i)) * Eval(BASE, lo)
  }

  lemma {:induction false} MulRowStep(out: seq<Limb>, c: nat, out0: seq<Limb>, x: Limb, i: nat, lo: seq<Limb>, y: Limb,
                                      v: nat)
    requires i + |lo| < |out| && RowSoFar(out, c, out0, x, i, lo)
    requires v == x * y + out[i + |lo|] + c
    ensures RowSoFar(out[i + |lo| := v % BASE], v / BASE, out0, x, i, lo + [y])
  {
    var k := i + |lo|;
    var p := Pow(BASE, k);
    EvalUpdate(BASE, out, k, v % BASE);
    CarryStep(Eval(BASE, out), Eval(BASE, out[k := v % BASE]), out[k], c, p, v);
    EvalSnoc(BASE, lo, y);
    PowAdd(BASE, i, |lo|);
    MulRowTerms(x, y, Pow(BASE, i), Pow(BASE, |lo|), Eval(BASE, lo), c);
  }

  lemma MulRowStart(out0: seq<Limb>, x: Limb, i: nat)
    ensures RowSoFar(out0, 0, out0, x, i, [])
  {
  }

  lemma {:induction false} MulRowEnd(out: seq<Limb>, c: Limb, out0: seq<Limb>, x: Limb, i: nat, b: seq<Limb>)
    requires i + |b| < |out| && out[i + |b|] == 0 && RowSoFar(out, c, out0, x, i, b)
    ensures RowSoFar(out[i + |b| := c], 0, out0, x, i, b)
  {
    EvalUpdate(BASE, out, i + |b|, c);
  }

  lemma MulRowTerms(x: int, y: int, pi: int, pj: int, lo: int, c: int)
    ensures (x * pi) * (lo + y * pj) == (x * pi) * lo + (x * y) * (pi * pj)
    ensures (x * y + c) * (pi * pj) == (x * y) * (pi * pj) + c * (pi * pj)
  {
    MulSwap(x, y, pi, pj);
    assert (x * pi) * (lo + y * pj) == (x * pi) * lo + (x * pi) * (y * pj);
  }

  lemma MulRowTotal(lo: int, x: int, p: int, b: int)
    ensures (lo + x * p) * b == lo * b + (x * p) * b
  {
  }

  lemma {:induction false} TopLimbBits(w: seq<Limb>)
    requires w != [] && Trimmed(w)
    ensures BitLength(Eval(BASE, w)) == (|w| - 1) * 32 + BitLength(w[|w| - 1])
  {
    var n := |w| - 1;
    EvalPrefix(BASE, w, n);
    assert w[..n + 1] == w;
    EvalBound(BASE, w[..n]);
    BasePow(n);
    TopBits(Eval(BASE, w[..n]), w[n], n * 32);
  }

  lemma {:induction false} TopBits(lo: nat, top: nat, s: nat)
    requires lo < Pow(2, s) && top > 0
    ensures BitLength(lo + top * Pow(2, s)) == s + BitLength(top)
  {
    var k, p := BitLength(top), Pow(2, s);
    BitLengthBounds(top);
    PowAdd(2, k - 1, s);
    PowAdd(2, k, s);
    MulLe(Pow(2, k - 1), top, p);
    MulLe(top + 1, Pow(2, k), p);
    assert (top + 1) * p == top * p + p;
    BitLengthIs(lo + top * p, k + s);
  }

  /** A limb is 32 bits. */
  lemma {:induction false} BasePow(n: nat)
    ensures Pow(BASE, n) == Pow(2, n * 32)
  {
    WordPowers();
    PowMul(2, 32, n);
    assert 32 * n == n * 32;
  }

  /** Position i is bit i % 32 of limb i / 32. */
  lemma {:induction false} BitWeight(i: nat)
    ensures Pow(2, i) == Pow(BASE, i / 32) * Pow(2, i % 32)
    ensures Pow(2, i) > 0 && Pow(BASE, i / 32) > 0 && Pow(2, i % 32) > 0
    ensures BASE == Pow(2, i % 32) * Pow(2, 32 - i % 32)
  {
    BasePow(i / 32);
    PowAdd(2, i / 32 * 32, i % 32);
    PowAdd(2, i % 32, 32 - i % 32);
    WordPowers();
  }

  lemma {:induction false} LimbOfBit(w: seq<Limb>, i: nat)
    ensures Eval(BASE, w) / Pow(2, i) % 2 == 1
       <==> i / 32 < |w| && (w[i / 32] / Pow(2, i % 32)) % 2 != 0
  {
    ShrWeight(w, i);
    if i / 32 < |w| {
      BitWeight(i);
      assert w[i / 32..][1..] == w[i / 32 + 1..];
      LowLimbBit(w[i / 32], Eval(BASE, w[i / 32 + 1..]), Pow(2, i % 32), Pow(2, 32 - i % 32), 31 - i % 32);
    } else {
      DivUnique(0, Pow(2, i % 32), 0, 0);
    }
  }

  /** Whole limbs above the lowest, divided by a power of two that divides a limb. */
  lemma LowShift(x: nat, h: nat, r: nat, s: nat)
    requires r > 0 && BASE == r * s
    ensures (x + BASE * h) / r == x / r + s * h
    ensures (x + BASE * h) % r == x % r
  {
    var q, m := x / r, x % r;
    assert x == q * r + m;
    LowShiftTerms(q, m, h, r, s);
    DivUnique(x + BASE * h, r, q + s * h, m);
  }

  lemma LowShiftTerms(q: int, m: int, h: int, r: int, s: int)
    requires BASE == r * s
    ensures q * r + m + BASE * h == (q + s * h) * r + m
  {
    MulAssoc(r, s, h);
    assert (q + s * h) * r == q * r + r * (s * h);
  }

  /** Whole limbs above do not change a bit of the lowest. */
  lemma LowLimbBit(x: nat, h: nat, r: nat, s: nat, k: nat)
    requires r > 0 && BASE == r * s && s == Pow(2, k + 1)
    ensures (x + BASE * h) / r % 2 == x / r % 2
  {
    LowShift(x, h, r, s);
    EvenMultiple(x / r, Pow(2, k), h);
  }

  lemma EvenMultiple(q: nat, t: nat, h: nat)
    ensures (q + (2 * t) * h) % 2 == q % 2
  {
    MulAssoc(2, t, h);
  }

  lemma {:induction false} NonzeroBelow(w: seq<Limb>, k: nat, i: nat)
    requires k < |w| && w[k] != 0 && k < i / 32
    ensures Eval(BASE, w) % Pow(2, i) != 0
  {
    var c := Pow(BASE, i / 32 - (k + 1)) * Pow(2, i % 32);
    BitWeight(i);
    PowAdd(BASE, k + 1, i / 32 - (k + 1));
    MulAssoc(Pow(BASE, k + 1), Pow(BASE, i / 32 - (k + 1)), Pow(2, i % 32));
    MulLess(0, Pow(BASE, i / 32 - (k + 1)), Pow(2, i % 32));
    EvalDivMod(BASE, w, k + 1);
    EvalNonzero(BASE, w[..k + 1], k);
    LowPartNonzero(Eval(BASE, w), Pow(BASE, k + 1), c);
  }

  lemma LowPartNonzero(v: nat, p: nat, c: nat)
    requires p > 0 && c > 0 && v % p != 0
    ensures p * c > 0 && v % (p * c) != 0
  {
    DivDiv(v, p, c);
    MulLe(0, (v / p) % c, p);
  }

  lemma {:induction false} ZeroBelow(w: seq<Limb>, i: nat)
    requires forall j :: 0 <= j < |w| && j < i / 32 ==> w[j] == 0

    ensures Eval(BASE, w) % Pow(2, i) != 0
       <==> i / 32 < |w| && i % 32 != 0 && w[i / 32] % Pow(2, i % 32) != 0
  {
    BitWeight(i);
    var limb, p, r := i / 32, Pow(BASE, i / 32), Pow(2, i % 32);
    if limb >= |w| {
      EvalZeros(BASE, w);
    } else {
      EvalDivMod(BASE, w, limb);
      EvalZeros(BASE, w[..limb]);
      DivDiv(Eval(BASE, w), p, r);
      var h := Eval(BASE, w[limb + 1..]);
      assert w[limb..][1..] == w[limb + 1..];
      LowLimbMod(w[limb], h, r, Pow(2, 32 - i % 32));
      var m := w[limb] % r;
      if m != 0 {
        MulLe(1, m, p);
      }
    }
  }

  lemma LowLimbMod(x: nat, h: nat, r: nat, s: nat)
    requires r > 0 && BASE == r * s
    ensures (x + BASE * h) % r == x % r
  {
    LowShift(x, h, r, s);
  }

  lemma ShiftedFits(x: Limb, rest: nat)
    requires rest < 32
    ensures x * Pow(2, rest) < 0x1_0000_0000_0000_0000
    ensures (x * Pow(2, rest)) / BASE < Pow(2, rest) < BASE
  {
    PowMonotone(2, rest, 31);
    WordPowers();
    MulLess(x, BASE, Pow(2, rest));
  }

  /** The low half of a shifted limb leaves room for the bits carried in from below. */
  lemma {:induction false} ShiftedOr(x: Limb, rest: nat, below: nat)
    requires rest < 32 && below < Pow(2, rest)
    ensures (x * Pow(2, rest)) % BASE % Pow(2, rest) == 0
    ensures below + (x * Pow(2, rest)) % BASE < BASE
  {
    PowAdd(2, 32 - rest, rest);
    WordPowers();
    DivCancel(x, Pow(2, 32 - rest), Pow(2, rest));
    RoomBelow(x % Pow(2, 32 - rest), Pow(2, 32 - rest), Pow(2, rest), below);
  }

  lemma RoomBelow(y: nat, s: nat, r: nat, below: nat)
    requires y < s && below < r
    ensures (y * r) % r == 0
    ensures below + y * r < s * r
  {
    MulLe(y + 1, s, r);
    assert (y + 1) * r == y * r + r;
    DivUnique(y * r, r, y, 0);
  }

  /** The first i limbs of w are in place, shifted, with their carry in the next limb. */
  ghost predicate ShlSoFar(out: seq<Limb>, w: seq<Limb>, i: nat, bits: nat) {
    && i <= |w| && |out| == |w| + bits / 32 + 1
    && out[i + bits / 32] < Pow(2, bits % 32)
    && Eval(BASE, out) == Eval(BASE, w[..i]) * Pow(2, bits)
  }

  lemma {:induction false} ShlStart(out: seq<Limb>, w: seq<Limb>, bits: nat)
    requires |out| == |w| + bits / 32 + 1 && forall k :: 0 <= k < |out| ==> out[k] == 0
    ensures ShlSoFar(out, w, 0, bits)
  {
    EvalZeros(BASE, out);
    assert w[..0] == [];
    assert Eval(BASE, w[..0]) == 0;
  }

  lemma ShlEnd(out: seq<Limb>, w: seq<Limb>, bits: nat)
    requires ShlSoFar(out, w, |w|, bits)
    ensures Eval(BASE, out) == Eval(BASE, w) * Pow(2, bits)
  {
    assert w[..|w|] == w;
  }

  lemma {:induction false} ShlStep(out: seq<Limb>, w: seq<Limb>, i: nat, bits: nat)
    requires i < |w| && ShlSoFar(out, w, i, bits) && |out| == |w| + bits / 32 + 1
    requires out[i + bits / 32 + 1] == 0
    ensures var k, v := i + bits / 32, w[i] * Pow(2, bits % 32);
            && 0 <= v < 0x1_0000_0000_0000_0000
            && v % BASE % Pow(2, bits % 32) == 0 && out[k] < Pow(2, bits % 32)
            && out[k] + v % BASE < BASE && v / BASE < BASE
            && ShlSoFar(out[k := out[k] + v % BASE][k + 1 := v / BASE], w, i + 1, bits)
  {
    var k, v := i + bits / 32, w[i] * Pow(2, bits % 32);
    ShiftedFits(w[i], bits % 32);
    ShiftedOr(w[i], bits % 32, out[k]);
    OrLimb(out, k, v);
    ShlPrefix(w, i, bits);
  }

  lemma {:induction false} ShlPrefix(w: seq<Limb>, i: nat, bits: nat)
    requires i < |w|
    ensures Eval(BASE, w[..i + 1]) * Pow(2, bits)
         == Eval(BASE, w[..i]) * Pow(2, bits) + (w[i] * Pow(2, bits % 32)) * Pow(BASE, i + bits / 32)
  {
    EvalPrefix(BASE, w, i);
    PowAdd(BASE, i, bits / 32);
    BitWeight(bits);
    ShlWeights(Eval(BASE, w[..i]), w[i], Pow(BASE, i), Pow(2, bits % 32), Pow(BASE, bits / 32), Pow(2, bits));
  }

  /** Placing a two-limb value at limb k. */
  lemma {:induction false} OrLimb(out: seq<Limb>, k: nat, v: nat)
    requires k + 1 < |out| && out[k + 1] == 0 && out[k] + v % BASE < BASE && v / BASE < BASE
    ensures Eval(BASE, out[k := out[k] + v % BASE][k + 1 := v / BASE]) == Eval(BASE, out) + v * Pow(BASE, k)
  {
    var out1: seq<Limb> := out[k := out[k] + v % BASE];
    EvalUpdate(BASE, out, k, out[k] + v % BASE);
    EvalUpdate(BASE, out1, k + 1, v / BASE);
    ShlTerms(Eval(BASE, out), Eval(BASE, out1), Eval(BASE, out1[k + 1 := v / BASE]), out[k], v, Pow(BASE, k));
  }

  lemma ShlTerms(e: int, e1: int, e2: int, x: int, v: int, p: int)
    requires e1 + x * p == e + (x + v % BASE) * p
    requires e2 == e1 + v / BASE * (BASE * p)
    ensures e2 == e + v * p
  {
    var hi, lo := v / BASE, v % BASE;
    assert v == hi * BASE + lo;
    MulAssoc(hi, BASE, p);
    assert (x + lo) * p == x * p + lo * p;
    assert (hi * BASE + lo) * p == (hi * BASE) * p + lo * p;
  }

  lemma ShlWeights(e: int, x: int, p: int, r: int, q: int, t: int)
    requires t == q * r
    ensures (e + x * p) * t == e * t + (x * r) * (p * q)
  {
    assert q * r == r * q;
    MulSwap(x, p, r, q);
    assert (e + x * p) * t == e * t + (x * p) * t;
  }

  /** Dropping whole limbs first, then the bits left over. */
  lemma {:induction false} ShrWeight(w: seq<Limb>, bits: nat)
    ensures Eval(BASE, w) / Pow(2, bits)
         == Eval(BASE, if bits / 32 < |w| then w[bits / 32..] else []) / Pow(2, bits % 32)
  {
    var limbs := bits / 32;
    BitWeight(bits);
    DivDiv(Eval(BASE, w), Pow(BASE, limbs), Pow(2, bits % 32));
    if limbs >= |w| {
      ShortEval(w, limbs);
    } else {
      EvalDivMod(BASE, w, limbs);
    }
  }

  lemma {:induction false} ShortEval(w: seq<Limb>, n: nat)
    requires |w| <= n
    ensures Eval(BASE, w) / Pow(BASE, n) == 0
  {
    EvalBound(BASE, w);
    PowMonotone(BASE, |w|, n);
    DivUnique(Eval(BASE, w), Pow(BASE, n), 0, Eval(BASE, w));
  }

  /** Limb i shifted down by rest bits, the gap filled from limb i + 1. */
  ghost function ShiftedLimb(w: seq<Limb>, i: nat, rest: nat): nat
    requires i < |w|
  {
    (w[i] + (if i + 1 < |w| then w[i + 1] * BASE else 0)) / Pow(2, rest) % BASE
  }

  lemma ShiftedLimbIs(w: seq<Limb>, i: nat, rest: nat)
    requires i < |w|
    ensures ShiftedLimb(w, i, rest) == (w[i] + (if i + 1 < |w| then w[i + 1] * BASE else 0)) / Pow(2, rest) % BASE
  {
  }

  lemma {:induction false} ShiftedLimbs(w: seq<Limb>, i: nat, rest: nat, out: seq<Limb>)
    requires i < |w| && rest < 32 && |out| == |w| - i
    requires forall k :: 0 <= k < |out| ==> out[k] == ShiftedLimb(w, i + k, rest)
    ensures Pow(2, rest) > 0 && Eval(BASE, out) == Eval(BASE, w[i..]) / Pow(2, rest)
    decreases |w| - i
  {
    var r := Pow(2, rest);
    assert out[0] == ShiftedLimb(w, i, rest);
    assert w[i..][1..] == w[i + 1..];
    if i + 1 == |w| {
      assert Eval(BASE, w[i + 1..]) == 0 && Eval(BASE, out[1..]) == 0;
      ShiftLast(w[i], r);
    } else {
      forall k | 0 <= k < |out[1..]|
        ensures out[1..][k] == ShiftedLimb(w, i + 1 + k, rest)
      {
        assert out[1..][k] == out[k + 1];
      }
      ShiftedLimbs(w, i + 1, rest, out[1..]);
      assert w[i + 1..][0] == w[i + 1];
      PowAdd(2, rest, 32 - rest);
      WordPowers();
      ShiftJoin(w[i], w[i + 1], Eval(BASE, w[i + 1..][1..]), r, Pow(2, 32 - rest));
    }
  }

  lemma ShiftLast(x: Limb, r: nat)
    requires r > 0
    ensures x / r % BASE == x / r
  {
    DivLowerBound(x, r, BASE);
    MulGrows(BASE, r);
  }

  /** x + BASE * (y + BASE * h), shifted down, has its low limb from x and y alone. */
  lemma ShiftJoin(x: Limb, y: Limb, h: nat, r: nat, s: nat)
    requires r > 0 && s > 0 && r * s == BASE
    ensures (x + BASE * (y + BASE * h)) / r
         == (x + y * BASE) / r % BASE + BASE * ((y + BASE * h) / r)
  {
    var n := y + BASE * h;
    var q := x / r;
    assert x == q * r + x % r;
    ShiftJoinTotal(x, n, r, s, q, x % r);
    ShiftJoinTotal(x, y, r, s, q, x % r);
    // The part below BASE depends on n only through n % r, and y has the same.
    LowLimbMod(y, h, r, s);
    ScaledSplit(n, r, s);
    ScaledSplit(y, r, s);
    QuotientFits(x, y % r, r, s);
    JoinTerms(q, s * n, n / r, s * y, y / r, s * (y % r));
  }

  lemma JoinTerms(q: int, sn: int, a: int, sy: int, b: int, c: int)
    requires sn == BASE * a + c && sy == BASE * b + c && 0 <= q + c < BASE
    ensures q + sn == (q + sy) % BASE + BASE * a
  {
  }

  lemma ScaledSplit(n: nat, r: nat, s: nat)
    requires r > 0 && r * s == BASE
    ensures s * n == BASE * (n / r) + s * (n % r)
  {
    var q, m := n / r, n % r;
    assert n == q * r + m;
    MulAssoc(s, r, q);
    assert s * (q * r + m) == s * (r * q) + s * m;
    assert s * r == BASE;
  }

  lemma QuotientFits(x: Limb, m: nat, r: nat, s: nat)
    requires r > 0 && r * s == BASE && m < r
    ensures x / r + s * m < BASE
  {
    DivLowerBound(x, r, s);
    assert s * r == BASE;
    MulLe(m + 1, r, s);
    assert s * (m + 1) == s * m + s;
  }

  lemma ShiftJoinTotal(x: nat, n: nat, r: nat, s: nat, q: nat, m: nat)
    requires r > 0 && r * s == BASE && x == q * r + m && m < r
    ensures (x + BASE * n) / r == q + s * n
    ensures (x + n * BASE) / r == q + s * n
  {
    assert x + BASE * n == (q + s * n) * r + m by {
      MulAssoc(r, s, n);
      assert (q + s * n) * r == q * r + r * (s * n);
    }
    DivUnique(x + BASE * n, r, q + s * n, m);
  }

  // ---- Bytes and decimal digits ----

  /** The i lowest bytes of be are in place, and the limb being filled has no bits above them. */
  ghost predicate BytesSoFar(w: seq<Limb>, be: seq<Byte>, i: nat) {
    && i <= |be| && |w| == (|be| + 3) / 4
    && Eval(BASE, w) == Num(256, be[|be| - i..])
    && (forall k :: i / 4 < k < |w| ==> w[k] == 0)
    && (i < |be| ==> w[i / 4] < Pow(256, i % 4))
  }

  lemma {:induction false} BytesStart(w: seq<Limb>, be: seq<Byte>)
    requires |w| == (|be| + 3) / 4 && forall k :: 0 <= k < |w| ==> w[k] == 0
    ensures BytesSoFar(w, be, 0)
  {
    EvalZeros(BASE, w);
    assert be[|be|..] == [];
  }

  lemma {:induction false} BytesEnd(w: seq<Limb>, be: seq<Byte>)
    requires BytesSoFar(w, be, |be|)
    ensures Eval(BASE, w) == Num(256, be)
  {
    assert be[0..] == be;
  }

  lemma {:induction false} BytesStep(w: seq<Limb>, be: seq<Byte>, i: nat)
    requires i < |be| && BytesSoFar(w, be, i)
    ensures var x := w[i / 4] + be[|be| - 1 - i] * Pow(256, i % 4);
            x < BASE && BytesSoFar(w[i / 4 := x], be, i + 1)
  {
    hide Num, Eval, Pow;
    var b, k := be[|be| - 1 - i], i / 4;
    var x := w[k] + b * Pow(256, i % 4);
    ByteRoom(w[k], b, i % 4);
    EvalUpdate(BASE, w, k, x);
    ByteWeight(i);
    BytePlace(w[k], b, Pow(256, i % 4), Pow(BASE, k));
    assert be[|be| - (i + 1)..] == [b] + be[|be| - i..];
    NumCons(256, b, be[|be| - i..]);
    assert (i + 1) / 4 == k || ((i + 1) / 4 == k + 1 && (i + 1) % 4 == 0);
    BytePowers();
  }

  lemma BytePlace(x: int, b: int, p: int, q: int)
    ensures (x + b * p) * q == x * q + b * (p * q)
  {
    MulAssoc(b, p, q);
    assert (x + b * p) * q == x * q + (b * p) * q;
  }

  lemma ByteRoom(x: nat, b: Byte, r: nat)
    requires r < 4 && x < Pow(256, r)
    ensures x + b * Pow(256, r) < Pow(256, r + 1) <= BASE
  {
    MulLe(b + 1, 256, Pow(256, r));
    assert (b + 1) * Pow(256, r) == b * Pow(256, r) + Pow(256, r);
    PowMonotone(256, r + 1, 4);
    BytePowers();
  }

  lemma BytePowers()
    ensures Pow(256, 0) == 1 && Pow(256, 1) == 256 && Pow(256, 4) == BASE
  {
    assert Pow(256, 2) == 65536;
    PowAdd(256, 2, 2);
  }

  /** Byte i is byte i % 4 of limb i / 4. */
  lemma {:induction false} ByteWeight(i: nat)
    ensures Pow(256, i) == Pow(256, i % 4) * Pow(BASE, i / 4)
  {
    BytePowers();
    PowMul(256, 4, i / 4);
    PowAdd(256, i % 4, 4 * (i / 4));
  }

  lemma {:induction false} ByteBits(i: nat)
    ensures Pow(256, i) == Pow(2, 8 * i)
  {
    WordPowers();
    PowMul(2, 8, i);
  }

  /** v without its i lowest bytes. */
  ghost function DropBytes(v: nat, i: nat): nat {
    v / Pow(256, i)
  }

  lemma DropNoBytes(v: nat)
    ensures DropBytes(v, 0) == v
  {
    assert Pow(256, 0) == 1;
  }

  /** The byte count of a number: its top byte is the last one that is not zero. */
  lemma {:induction false} TopByte(v: nat)
    ensures DropBytes(v, (BitLength(v) + 7) / 8) == 0
    ensures (BitLength(v) + 7) / 8 > 0 ==> DropBytes(v, (BitLength(v) + 7) / 8 - 1) > 0
  {
    var k := (BitLength(v) + 7) / 8;
    ByteBits(k);
    if v > 0 {
      BitLengthBounds(v);
      PowMonotone(2, BitLength(v), 8 * k);
      ByteBits(k - 1);
      PowMonotone(2, 8 * (k - 1), BitLength(v) - 1);
      DivLowerBound(v, Pow(256, k - 1), 1);
    }
    DivUnique(v, Pow(256, k), 0, v);
  }

  /** One more byte of the quotient by a power of 256. */
  lemma {:induction false} ByteStep(v: nat, i: nat)
    ensures DropBytes(v, i) == DropBytes(v, i + 1) * 256 + DropBytes(v, i) % 256
  {
    DivDiv(v, Pow(256, i), 256);
    assert Pow(256, i) * 256 == Pow(256, i + 1);
  }

  lemma {:induction false} ByteOfLimb(w: seq<Limb>, i: nat)
    requires i / 4 < |w|
    ensures w[i / 4] / Pow(256, i % 4) % 256 == DropBytes(Eval(BASE, w), i) % 256
  {
    var k, p := i / 4, Pow(256, i % 4);
    ByteWeight(i);
    EvalDivMod(BASE, w, k);
    assert w[k..][1..] == w[k + 1..];
    DivDiv(Eval(BASE, w), Pow(BASE, k), p);
    assert Pow(BASE, k) * p == p * Pow(BASE, k);
    PowAdd(256, i % 4, 4 - i % 4);
    PowAdd(256, 1, 3 - i % 4);
    BytePowers();
    LowLimbByte(w[k], Eval(BASE, w[k + 1..]), p, Pow(256, 3 - i % 4));
  }

  lemma LowLimbByte(x: nat, h: nat, r: nat, s: nat)
    requires r > 0 && BASE == r * (256 * s)
    ensures (x + BASE * h) / r % 256 == x / r % 256
  {
    LowShift(x, h, r, 256 * s);
    ByteMultiple(x / r, s, h);
  }

  lemma ByteMultiple(q: nat, s: nat, h: nat)
    ensures (q + (256 * s) * h) % 256 == q % 256
  {
    MulAssoc(256, s, h);
  }

  /** A number has no more bytes than its limbs hold. */
  lemma {:induction false} ByteCount(w: seq<Limb>)
    ensures (BitLength(Eval(BASE, w)) + 7) / 8 <= 4 * |w|
  {
    EvalBound(BASE, w);
    BasePow(|w|);
    BitLengthLe(Eval(BASE, w), |w| * 32);
  }

  lemma TenStep(chunk: nat, p: nat)
    ensures chunk % 10 * p + chunk / 10 * (10 * p) == chunk * p
  {
    MulAssoc(chunk / 10, 10, p);
    assert (chunk / 10 * 10) * p + chunk % 10 * p == (chunk / 10 * 10 + chunk % 10) * p;
  }

  /** out holds the low decimal digits of v, and rest is what is above them. */
  ghost predicate DigitsSoFar(rest: nat, out: seq<nat>, v: nat) {
    InBase(10, out) && rest * Pow(10, |out|) + Eval(10, out) == v
  }

  lemma DigitsStart(v: nat)
    ensures DigitsSoFar(v, [], v)
  {
  }

  lemma {:induction false} ChunkStep(before: nat, after: nat, chunk: nat, out: seq<nat>, digits: seq<nat>, v: nat)
    requires before == after * 1000000000 + chunk && |digits| == 9 && InBase(10, digits)
    requires Eval(10, digits) == chunk && DigitsSoFar(before, out, v)
    ensures DigitsSoFar(after, out + digits, v)
  {
    EvalConcat(10, out, digits);
    PowAdd(10, 9, |out|);
    WordPowers();
    ChunkTerms(after, chunk, Pow(10, |out|));
  }

  /** A zero on top is not needed. */
  lemma {:induction false} DropZeroDigit(out: seq<nat>, v: nat)
    requires out != [] && out[|out| - 1] == 0 && DigitsSoFar(0, out, v)
    ensures DigitsSoFar(0, out[..|out| - 1], v)
  {
    EvalPrefix(10, out, |out| - 1);
    assert out[..|out|] == out;
  }

  lemma {:induction false} DigitsEnd(out: seq<nat>, v: nat)
    requires DigitsSoFar(0, out, v)
    ensures InBase(10, out) && Num(10, Rev(out)) == v
    ensures v > 0 ==> out != []
  {
    NumRev(10, out);
  }

  lemma {:induction false} TopDigit(out: seq<nat>, v: nat)
    requires DigitsSoFar(0, out, v) && v > 0 && (|out| <= 1 || out[|out| - 1] != 0)
    ensures out != [] && out[|out| - 1] != 0
  {
    EvalEmpty(10);
    assert 0 * Pow(10, |out|) == 0;
    if |out| == 1 {
      assert out[1..] == [];
      assert Eval(10, out) == out[0];
    }
  }

  lemma ChunkTerms(after: int, chunk: int, p: int)
    ensures after * (1000000000 * p) + p * chunk == (after * 1000000000 + chunk) * p
  {
    MulAssoc(after, 1000000000, p);
    assert (after * 1000000000 + chunk) * p == (after * 1000000000) * p + chunk * p;
  }
}
