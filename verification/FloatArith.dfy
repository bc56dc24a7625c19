/**
Rounding an exact quotient to a number of bits, as src/pxf/bigfloat.cc does it in limbs:
the slow form divides and rounds with a sticky bit, the fast form finds only the exponent
the rounded value has, without dividing. Both are judged by Rounding.RoundsAt.
 */
module FloatArith {
  import opened Powers
  import opened Bits
  import opened Reals
  import opened Rounding
  import opened BigNat

  // ---- Sticky rounding ----

  /** v without its s low bits, rounded half to even; sticky says there is more below v. */
  function RoundSticky(v: nat, s: nat, sticky: bool): nat {
    if s == 0 then v
    else
      var q, rem, half := v / Pow(2, s), v % Pow(2, s), Pow(2, s - 1);
      if rem > half || (rem == half && (sticky || q % 2 != 0)) then q + 1 else q
  }

  /** Half-even rounding sees the same number in a truncated quotient and one bit of what was lost. */
  lemma {:induction false} StickyRounds(n: nat, d: nat, s: nat)
    requires d > 0 && s > 0
    ensures d * Pow(2, s) > 0
    ensures RoundSticky(n / d, s, n % d != 0) == RoundRatio(n, d * Pow(2, s))
  {
    var t := Pow(2, s);
    DivDiv(n, d, t);
    StickyCompare((n / d) % t, n % d, d, Pow(2, s - 1));
  }

  lemma StickyCompare(rem: nat, r: nat, d: nat, half: nat)
    requires r < d
    ensures 2 * (rem * d + r) > d * (2 * half) <==> rem > half || (rem == half && r != 0)
    ensures 2 * (rem * d + r) == d * (2 * half) <==> rem == half && r == 0
  {
    assert d * (2 * half) == 2 * (half * d);
    assert (rem + 1) * d == rem * d + d && (half + 1) * d == half * d + d;
    if rem < half {
      MulLe(rem + 1, half, d);
    } else if rem > half {
      MulLe(half + 1, rem, d);
    }
  }

  /** Keeps m's top bits, in place, and returns how many it dropped. */
  method RoundToBits(m: Nat, bits: nat, sticky: bool) returns (shift: nat)
    requires m.Valid()
    modifies m
    ensures m.Valid()
    ensures var len := BitLength(old(m.Value()));
            shift == (if len <= bits then 0 else len - bits)
    ensures m.Value() == RoundSticky(old(m.Value()), shift, sticky)
  {
    hide Pow, BitLength;
    var len := m.BitLen();
    if len <= bits {
      return 0;
    }
    shift := len - bits;
    var half := m.Bit(shift - 1);
    var below := m.AnyBitBelow(shift - 1);
    var kept := m.Shr(shift);
    var odd := kept.IsOdd();
    HalfAndBelow(m.Value(), shift);
    if half && (sticky || below || odd) {
      kept.AddSmall(1);
    }
    m.w := kept.w;
  }

  /** The highest dropped bit and the rest of them, against the remainder. */
  lemma {:induction false} HalfAndBelow(v: nat, s: nat)
    requires s > 0
    ensures var rem, half := v % Pow(2, s), Pow(2, s - 1);
            && (v / half % 2 == 1 <==> rem >= half)
            && (v / half % 2 == 1 ==> (v % half != 0 <==> rem > half))
  {
    var half := Pow(2, s - 1);
    DivDiv(v, half, 2);
    assert half * 2 == Pow(2, s);
  }

  // ---- The slow form: divide, round, normalize ----

  /** num / den in units of 2^at, as a ratio of integers. */
  ghost function UnitNum(num: nat, at: int): nat {
    if at >= 0 then num else num * Pow(2, -at)
  }

  ghost function UnitDen(den: nat, at: int): (r: nat)
    ensures den > 0 ==> r > 0
  {
    if at >= 0 then (MulGrows(den, Pow(2, at)); den * Pow(2, at)) else den
  }

  lemma {:induction false} UnitRatio(num: nat, den: nat, at: int)
    requires den > 0
    ensures Ratio(UnitNum(num, at), UnitDen(den, at)) == Units(Ratio(num, den), at)
  {
    hide Ratio, Pow;
    if at >= 0 {
      UnitDown(num, den, Pow(2, at));
      ExpInverse(at);
    } else {
      UnitUp(num, den, Pow(2, -at));
    }
  }

  lemma ExpInverse(at: nat)
    ensures Exp(2, 0 - at) == 1.0 / (Pow(2, at) as real)
  {
    assert Pow(2, 0) == 1;
  }

  lemma UnitUp(num: nat, den: nat, t: nat)
    requires den > 0
    ensures Ratio(num * t, den) == Ratio(num, den) * (t as real)
  {
    MulReal(num, t);
    var x, y, d := num as real, t as real, den as real;
    assert ((x * y) / d) * d == x * y;
    assert ((x / d) * y) * d == ((x / d) * d) * y;
    CancelReal((x * y) / d, (x / d) * y, d);
  }

  lemma UnitDown(num: nat, den: nat, t: nat)
    requires den > 0 && t > 0
    ensures den * t > 0 && Ratio(num, den * t) == Ratio(num, den) * (1.0 / (t as real))
  {
    MulGrows(den, t);
    MulReal(den, t);
    var x, y, d := num as real, t as real, den as real;
    assert (x / (d * y)) * (d * y) == x;
    assert ((x / d) * (1.0 / y)) * (d * y) == ((x / d) * d) * ((1.0 / y) * y);
    CancelReal(x / (d * y), (x / d) * (1.0 / y), d * y);
  }

  /** Scaling further by 2^s. */
  lemma {:induction false} UnitsShift(v: real, at: int, s: nat)
    ensures Units(v, at + s) == Units(v, at) * (1.0 / (Pow(2, s) as real))
  {
    hide Pow;
    ExpAdd(2, -at, 0 - s);
    ExpInverse(s);
    assert -(at + s) == -at + (0 - s);
    assert v * (Exp(2, -at) * Exp(2, 0 - s)) == (v * Exp(2, -at)) * Exp(2, 0 - s);
  }

  /** The quotient at a scale that gives it at least prec + 2 bits. */
  ghost predicate WideEnough(num: nat, den: nat, prec: nat, scale: int) {
    && num > 0 && den > 0
    && scale == prec + 2 - BitLength(num) + BitLength(den)
  }

  lemma {:induction false} QuotientBits(num: nat, den: nat, prec: nat, scale: int)
    requires WideEnough(num, den, prec, scale)
    ensures BitLength(UnitNum(num, -scale) / UnitDen(den, -scale)) >= prec + 2
  {
    hide BitLength, Pow;
    var n, d := UnitNum(num, -scale), UnitDen(den, -scale);
    ScaledLengths(num, den, scale);
    BitLengthBounds(n);
    BitLengthBounds(d);
    var k := BitLength(d);
    assert BitLength(n) == k + prec + 2;
    PowAdd(2, prec + 1, k);
    MulLe(d, Pow(2, k), Pow(2, prec + 1));
    DivLowerBound(n, d, Pow(2, prec + 1));
    BitLengthGe(n / d, prec + 1);
  }

  lemma {:induction false} ScaledLengths(num: nat, den: nat, scale: int)
    requires num > 0 && den > 0
    ensures UnitNum(num, -scale) > 0 && UnitDen(den, -scale) > 0
    ensures BitLength(UnitNum(num, -scale)) - BitLength(UnitDen(den, -scale))
         == BitLength(num) - BitLength(den) + scale
  {
    hide BitLength, Pow;
    if -scale >= 0 {
      BitLengthScaled(den, -scale);
      assert Pow(2, -scale) > 0;
    } else {
      BitLengthScaled(num, scale);
      MulGrows(num, Pow(2, scale));
    }
  }

  /** num / den at -scale, cut to prec bits by shift more, is at the scale its rounding is defined at. */
  lemma {:induction false} QuotientScale(num: nat, den: nat, prec: nat, scale: int, shift: nat)
    requires den > 0 && prec > 0
    requires var q := UnitNum(num, -scale) / UnitDen(den, -scale);
             q > 0 && BitLength(q) == prec + shift
    ensures Scales(Ratio(num, den), prec, -scale + shift)
  {
    hide BitLength, Pow, Ratio, Exp, Units, UnitNum, UnitDen;
    var n, d := UnitNum(num, -scale), UnitDen(den, -scale);
    var v, q, len := Ratio(num, den), n / d, prec + shift;
    UnitRatio(num, den, -scale);
    BitLengthBounds(q);
    RatioFloorBounds(n, d, Pow(2, len - 1), Pow(2, len));
    ScaledRange(v, len, -scale);
    ScalesWider(v, len, prec, -scale, shift);
  }

  /** An integer bound on a quotient is a bound on the ratio. */
  lemma RatioFloorBounds(n: nat, d: nat, lo: nat, hi: nat)
    requires d > 0 && lo <= n / d < hi
    ensures lo as real <= Ratio(n, d) < hi as real
  {
    RatioSplit(n, d);
    RatioBelowOne(n % d, d);
  }

  lemma ScalesWider(v: real, len: nat, prec: nat, at: int, shift: nat)
    requires len == prec + shift && Scales(v, len, at)
    ensures Scales(v, prec, at + shift)
  {
  }

  /** The slow form's integer is the rounding of num / den at that scale. */
  lemma {:induction false} QuotientRounds(num: nat, den: nat, scale: int, shift: nat)
    requires den > 0 && shift > 0
    ensures var n, d := UnitNum(num, -scale), UnitDen(den, -scale);
            RoundSticky(n / d, shift, n % d != 0) == RoundHalfEven(Units(Ratio(num, den), -scale + shift))
  {
    hide BitLength, Pow, Ratio, Exp, Units, UnitNum, UnitDen, RoundHalfEven, RoundRatio, RoundSticky;
    var n, d := UnitNum(num, -scale), UnitDen(den, -scale);
    StickyRounds(n, d, shift);
    RoundRatioIs(n, d * Pow(2, shift));
    UnitDown(n, d, Pow(2, shift));
    UnitRatio(num, den, -scale);
    UnitsShift(Ratio(num, den), -scale, shift);
    var x := 1.0 / (Pow(2, shift) as real);
    assert Ratio(n, d) * x == Units(Ratio(num, den), -scale) * x;
    assert Ratio(n, d * Pow(2, shift)) == Units(Ratio(num, den), -scale + shift);
  }

  /** Divides, rounds to prec bits, and normalizes a carry. */
  method RoundQuotient(num: Nat, den: Nat, prec: nat) returns (q: Nat, exponent: int, ghost s: int)
    requires num.Valid() && den.Valid() && num.Value() > 0 && den.Value() > 0 && prec > 0
    ensures fresh(q) && q.Valid()
    ensures RoundsAt(Ratio(num.Value(), den.Value()), prec, s, q.Value(), exponent)
    ensures Pow(2, prec - 1) <= q.Value() < Pow(2, prec)
  {
    hide BitLength, Pow, Ratio, Exp, Units, UnitNum, UnitDen, RoundHalfEven, RoundSticky, RoundsAt, RoundsTo;
    ghost var nv, dv := num.Value(), den.Value();
    var nb := num.BitLen();
    var db := den.BitLen();
    var scale: int := prec + 2 - nb + db;
    var n, d := num, den;
    if scale >= 0 {
      n := num.Shl(scale);
    } else {
      d := den.Shl(-scale);
    }
    UnitsOf(nv, dv, scale, n.Value(), d.Value());
    var r;
    q, r := Nat.DivMod(n, d);
    DivUnique(n.Value(), d.Value(), q.Value(), r.Value());
    QuotientBits(nv, dv, prec, scale);
    ghost var q0 := q.Value();
    var noRest := r.IsZero();
    var shift := RoundToBits(q, prec, !noRest);
    s := -scale + shift;
    exponent := -scale + shift;
    PositiveLength(q0);
    QuotientScale(nv, dv, prec, scale, shift);
    QuotientRounds(nv, dv, scale, shift);
    var len := q.BitLen();
    CarryOut(Ratio(nv, dv), prec, s, q.Value());
    if len > prec {
      // All ones rounded to a power of two: one bit too long.
      q := q.Shr(1);
      exponent := exponent + 1;
      assert Pow(2, 1) == 2 by { TwoToOne(); }
    }
    assert RoundsTo(Ratio(nv, dv), prec, q.Value(), exponent) by {
      RoundsToIntro(Ratio(nv, dv), prec, s, q.Value(), exponent);
    }
    RoundsToBits(Ratio(nv, dv), prec, q.Value(), exponent);
  }

  lemma PositiveLength(n: nat)
    requires BitLength(n) > 0
    ensures n > 0
  {
  }

  lemma RoundsToIntro(v: real, p: nat, s: int, m: nat, e: int)
    requires p > 0 && RoundsAt(v, p, s, m, e)
    ensures RoundsTo(v, p, m, e)
  {
  }

  lemma UnitsOf(num: nat, den: nat, scale: int, n: nat, d: nat)
    requires den > 0
    requires n == (if scale >= 0 then num * Pow(2, scale) else num)
    requires d == (if scale >= 0 then den else den * Pow(2, -scale))
    ensures n == UnitNum(num, -scale) && d == UnitDen(den, -scale) && d > 0
  {
    if scale == 0 {
      assert Pow(2, 0) == 1;
    }
  }

  /** A rounded integer of more than prec bits is 2^prec, which halves exactly. */
  lemma {:induction false} CarryOut(v: real, prec: nat, s: int, k: nat)
    requires prec > 0 && Scales(v, prec, s) && k == RoundHalfEven(Units(v, s))
    ensures BitLength(k) <= prec ==> RoundsAt(v, prec, s, k, s)
    ensures BitLength(k) > prec ==> k == Pow(2, prec) && RoundsAt(v, prec, s, k / 2, s + 1)
  {
    hide RoundHalfEven, Units, Exp, Scales;
    ScaledRange(v, prec, s);
    RoundBetween(Units(v, s), Pow(2, prec - 1), Pow(2, prec));
    if k < Pow(2, prec) {
      BitLengthLe(k, prec);
    } else {
      BitLengthGe(k, prec);
    }
  }

  // ---- The fast form: the exponent alone ----

  /** The exact value's binary exponent, and whether rounding to prec bits carries it. */
  method ExactExponentAndCarry(num: Nat, den: Nat, prec: nat) returns (e: int, carries: bool)
    requires num.Valid() && den.Valid() && num.Value() > 0 && den.Value() > 0 && prec > 0
    ensures Scales(Ratio(num.Value(), den.Value()), prec, e - prec)
    ensures carries <==> RoundHalfEven(Units(Ratio(num.Value(), den.Value()), e - prec)) == Pow(2, prec)
  {
    hide BitLength, Pow, Ratio, Exp, Units, UnitNum, UnitDen, RoundHalfEven, Scales;
    ghost var nv, dv := num.Value(), den.Value();
    var nb := num.BitLen();
    var db := den.BitLen();
    // The bit lengths fix the exponent up to one.
    e := nb as int - db as int;
    var a, b := ScaledPair(num, den, e);
    var c := Nat.Cmp(b, a);
    ExponentBounds(nv, dv, prec, e, a.Value(), b.Value());
    if c >= 0 {
      e := e + 1;
      a, b := ScaledPair(num, den, e);
    }
    BelowOne(nv, dv, prec, e, a.Value(), b.Value());
    var shift := prec + 1;
    var al := a.BitLen();
    CarryTest(nv, dv, prec, e, a.Value(), b.Value());
    if shift >= al {
      ShiftTooWide(a.Value(), b.Value(), shift);
      return e, false;
    }
    var gap := Nat.Sub(a, b);
    var wide := gap.Shl(shift);
    var t := Nat.Cmp(wide, a);
    carries := t <= 0;
  }

  /** Integers in the ratio of 2^at to num / den. */
  method ScaledPair(num: Nat, den: Nat, at: int) returns (a: Nat, b: Nat)
    requires num.Valid() && den.Valid() && den.Value() > 0
    ensures a.Valid() && b.Valid()
    ensures a.Value() == UnitDen(den.Value(), at) && b.Value() == UnitNum(num.Value(), at)
  {
    a, b := den, num;
    if at >= 0 {
      a := den.Shl(at);
    } else {
      b := num.Shl(-at);
    }
  }

  lemma {:induction false} ExponentBounds(num: nat, den: nat, prec: nat, e: int, a: nat, b: nat)
    requires num > 0 && den > 0 && prec > 0 && e == BitLength(num) - BitLength(den)
    requires a == UnitDen(den, e) && b == UnitNum(num, e)
    ensures b >= a ==> Scales(Ratio(num, den), prec, e + 1 - prec)
    ensures b < a ==> Scales(Ratio(num, den), prec, e - prec)
  {
    hide BitLength, Pow, Ratio, Exp, Units, UnitNum, UnitDen;
    var v := Ratio(num, den);
    UnitRatio(num, den, e);
    RatioCompare(a, a, b, a);
    RatioCompare(b, a, a, a);
    RatioOne(a);
    ScaleDown(v, e, e);
    ExpZero();
    LengthBounds(num, den);
    ScalesAre(v, prec, e + 1);
    ScalesAre(v, prec, e);
    MulCancel1(a, b);
  }

  lemma MulCancel1(a: nat, b: nat)
    requires a > 0
    ensures a * a <= b * a <==> a <= b
  {
    if a <= b {
      MulLe(a, b, a);
    } else {
      MulLess(b, a, a);
    }
  }

  lemma ExpZero()
    ensures Exp(2, 0) == 1.0
  {
    assert Pow(2, 0) == 1;
  }

  lemma RatioOne(a: nat)
    requires a > 0
    ensures Ratio(a, a) == 1.0
  {
  }

  /** The scale of prec bits that ends at 2^e. */
  lemma ScalesAre(v: real, prec: nat, e: int)
    ensures Scales(v, prec, e - prec) <==> Exp(2, e - 1) <= v < Exp(2, e)
  {
  }

  lemma {:induction false} LengthBounds(num: nat, den: nat)
    requires num > 0 && den > 0
    ensures var e := BitLength(num) - BitLength(den);
            Exp(2, e - 1) <= Ratio(num, den) < Exp(2, e + 1)
  {
    hide BitLength, Pow, Ratio, Exp, Units;
    var n, d := BitLength(num), BitLength(den);
    BitLengthBounds(num);
    BitLengthBounds(den);
    PowerRatio(n - 1, d);
    PowerRatio(n, d - 1);
    RatioOrder(Pow(2, n - 1), Pow(2, d), num, den);
    RatioOrderStrict(num, den, Pow(2, n), Pow(2, d - 1));
  }

  lemma {:induction false} PowerRatio(x: nat, y: nat)
    ensures Ratio(Pow(2, x), Pow(2, y)) == Exp(2, x - y)
  {
    hide Pow;
    ExpAdd(2, x, 0 - y);
    ExpInverse(y);
    ExpNat(2, x);
    RatioTimes(Pow(2, x), Pow(2, y));
  }

  lemma RatioTimes(x: nat, y: nat)
    requires y > 0
    ensures Ratio(x, y) == (x as real) * (1.0 / (y as real))
  {
    CancelReal(Ratio(x, y), (x as real) * (1.0 / (y as real)), y as real);
  }

  lemma RatioOrder(n: nat, d: nat, m: nat, c: nat)
    requires d > 0 && 0 < c <= d && n <= m
    ensures Ratio(n, d) <= Ratio(m, c)
  {
    MulMono(n, m, c, d);
    RatioCompare(n, d, m, c);
  }

  lemma RatioOrderStrict(n: nat, d: nat, m: nat, c: nat)
    requires d > 0 && 0 < c <= d && n < m
    ensures Ratio(n, d) < Ratio(m, c)
  {
    MulLess(n, m, c);
    MulLe(c, d, m);
    RatioCompare(n, d, m, c);
  }

  /** At its own exponent the value is below one unit. */
  lemma {:induction false} BelowOne(num: nat, den: nat, prec: nat, e: int, a: nat, b: nat)
    requires den > 0 && prec > 0 && Scales(Ratio(num, den), prec, e - prec)
    requires a == UnitDen(den, e) && b == UnitNum(num, e)
    ensures b < a
  {
    hide Pow, Ratio, Exp, Units, UnitNum, UnitDen;
    var v := Ratio(num, den);
    UnitRatio(num, den, e);
    ScaleDown(v, e, e);
    ExpZero();
    RatioOne(a);
    RatioCompare(a, a, b, a);
    MulCancel1(a, b);
  }

  /** A positive gap shifted by as many bits as A has is more than A. */
  lemma {:induction false} ShiftTooWide(a: nat, b: nat, shift: nat)
    requires b < a && shift >= BitLength(a)
    ensures (a - b) * Pow(2, shift) > a
  {
    BitLengthBounds(a);
    PowMonotone(2, BitLength(a), shift);
    MulLe(1, a - b, Pow(2, shift));
  }

  /** Rounding carries exactly when the gap below 2^e is at most half a unit in the last place. */
  lemma {:induction false} CarryTest(num: nat, den: nat, prec: nat, e: int, a: nat, b: nat)
    requires den > 0 && prec > 0 && Scales(Ratio(num, den), prec, e - prec)
    requires a == UnitDen(den, e) && b == UnitNum(num, e) && b < a
    ensures RoundHalfEven(Units(Ratio(num, den), e - prec)) == Pow(2, prec)
       <==> (a - b) * Pow(2, prec + 1) <= a
  {
    hide Ratio, Exp, Units, UnitNum, UnitDen, RoundHalfEven;
    var v, t := Ratio(num, den), Pow(2, prec);
    UnitRatio(num, den, e);
    UnitsShift(v, e - prec, prec);
    ScaledRange(v, prec, e - prec);
    var x, y := Units(v, e - prec), Ratio(b, a);
    TimesBack(x, y, t as real);
    UnitUp(b, a, t);
    RoundsToTop(x, prec);
    RatioCompare(2 * t - 1, 2, b * t, a);
    HalfRatio(2 * t);
    GapTerms(a, b, t);
  }

  lemma TimesBack(x: real, y: real, t: real)
    requires t > 0.0 && y == x * (1.0 / t)
    ensures x == y * t
  {
    assert (x * (1.0 / t)) * t == x * ((1.0 / t) * t);
  }

  lemma HalfRatio(n: nat)
    requires n > 0
    ensures Ratio(n - 1, 2) == (n as real) / 2.0 - 0.5
  {
  }

  lemma GapTerms(a: nat, b: nat, t: nat)
    ensures (2 * t - 1) * a <= (b * t) * 2 <==> (a - b) * (2 * t) <= a
  {
    assert (2 * t - 1) * a == (2 * t) * a - a;
    assert (a - b) * (2 * t) == a * (2 * t) - b * (2 * t);
    MulAssoc(b, t, 2);
    assert b * (2 * t) == (b * t) * 2;
  }

  /** Below 2^prec, only a number at least 2^prec - 1/2 rounds to it: 2^prec - 1 is odd. */
  lemma {:induction false} RoundsToTop(x: real, prec: nat)
    requires prec > 0 && 0.0 <= x < Pow(2, prec) as real
    ensures RoundHalfEven(x) == Pow(2, prec) <==> x >= Pow(2, prec) as real - 0.5
  {
    var t := Pow(2, prec);
    assert t == 2 * Pow(2, prec - 1);
  }

  /** bin is the binary exponent of v rounded to prec bits. */
  ghost predicate RoundedExponent(v: real, prec: nat, bin: int)
    requires prec > 0
  {
    forall s, m, e :: RoundsAt(v, prec, s, m, e) ==> e + prec == bin
  }

  /** Without dividing: where the top bit of the rounded quotient stands. */
  method RoundedBinaryExponent(num: Nat, den: Nat, prec: nat) returns (bin: int)
    requires num.Valid() && den.Valid() && num.Value() > 0 && den.Value() > 0 && prec > 0
    ensures RoundedExponent(Ratio(num.Value(), den.Value()), prec, bin)
  {
    hide BitLength, Pow, Ratio, Exp, Units, RoundHalfEven, Scales;
    var e, carries := ExactExponentAndCarry(num, den, prec);
    bin := if carries then e + 1 else e;
    ghost var v := Ratio(num.Value(), den.Value());
    forall s, m, e' | RoundsAt(v, prec, s, m, e')
      ensures e' + prec == bin
    {
      ScalesUnique(v, prec, s, e - prec);
    }
  }
}
