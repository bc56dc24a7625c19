/**
Knuth's Algorithm D (The Art of Computer Programming, volume 2, section 4.3.1) on
limbs, as Nat::DivMod runs it: estimate a quotient digit from the leading limbs,
multiply and subtract, and add the divisor back when the estimate was one too large.
 */
module Knuth {
  import opened Powers
  import opened Digits
  import opened LimbArith

  /** A normalized divisor: two limbs or more, the top bit of the top limb set. */
  ghost predicate Normalized(v: seq<Limb>) {
    |v| >= 2 && v[|v| - 1] >= BASE / 2
  }

  // ---- The trial digit ----

  /** What the correction loop tests: the digit x cannot be right for the three leading limbs. */
  ghost predicate TooBig(x: int, top: int, u2: int, v1: int, v2: int) {
    x >= BASE || x * v2 > (top - x * v1) * BASE + u2
  }

  /** rhat is what is left of the two leading limbs after qhat times the leading divisor limb. */
  ghost predicate Leaves(qhat: int, rhat: int, top: int, v1: int) {
    qhat * v1 + rhat == top
  }

  /** No digit above qhat that the two leading limbs allow can be right. */
  ghost predicate NoneAbove(qhat: int, top: nat, u2: int, v1: nat, v2: int)
    requires v1 > 0
  {
    forall x :: qhat < x <= top / v1 ==> TooBig(x, top, u2, v1, v2)
  }

  /**
   * Estimates a quotient digit from the three leading limbs of the dividend, the first two
   * given as top, and the two leading limbs v1 v2 of the divisor.
   */
  method TrialDigit(top: U64, u2: Limb, v1: Limb, v2: Limb) returns (qhat: U64, ghost rhat: int)
    requires v1 >= BASE / 2 && top < v1 * BASE + BASE
    ensures qhat < BASE
    ensures Leaves(qhat, rhat, top, v1)
    ensures rhat >= BASE || !TooBig(qhat, top, u2, v1, v2)
    ensures NoneAbove(qhat, top, u2, v1, v2)
  {
    hide Leaves;
    hide TooBig;
    hide NoneAbove;
    TrialStart(top, u2, v1, v2);
    qhat := top / v1;
    var rh: U64 := top % v1;
    while true
      invariant rh < BASE && qhat <= BASE + 1
      invariant Leaves(qhat, rh, top, v1)
      invariant NoneAbove(qhat, top, u2, v1, v2)
      decreases qhat
    {
      TrialTest(qhat, rh, top, u2, v1, v2);
      var big := qhat >= BASE;
      if !big {
        var left: U64, right: U64 := qhat * v2, rh * BASE + u2;
        big := left > right;
      }
      if !big {
        break;
      }
      TrialStep(qhat, rh, top, u2, v1, v2);
      qhat := qhat - 1;
      rh := rh + v1;
      if rh >= BASE {
        break;
      }
    }
    rhat := rh;
  }

  lemma TrialStart(top: U64, u2: Limb, v1: Limb, v2: Limb)
    requires v1 >= BASE / 2 && top < v1 * BASE + BASE
    ensures Leaves(top / v1, top % v1, top, v1) && top / v1 <= BASE + 1
    ensures NoneAbove(top / v1, top, u2, v1, v2)
  {
    assert top == top / v1 * v1 + top % v1;
    if top / v1 >= BASE + 2 {
      MulLe(BASE + 2, top / v1, v1);
    }
  }

  lemma TrialTest(qhat: nat, rh: Limb, top: int, u2: Limb, v1: Limb, v2: Limb)
    requires Leaves(qhat, rh, top, v1)
    ensures TooBig(qhat, top, u2, v1, v2) <==> qhat >= BASE || qhat * v2 > rh * BASE + u2
    ensures qhat < BASE ==> qhat * v2 < 0x1_0000_0000_0000_0000
  {
    if qhat < BASE {
      MulMono(qhat, BASE - 1, v2, BASE - 1);
    }
  }

  /** A digit that is too big is positive, and lowering it by one adds v1 to what is left. */
  lemma TrialStep(qhat: nat, rh: Limb, top: nat, u2: Limb, v1: Limb, v2: Limb)
    requires v1 >= BASE / 2 && top < v1 * BASE + BASE
    requires Leaves(qhat, rh, top, v1) && NoneAbove(qhat, top, u2, v1, v2)
    requires qhat <= BASE + 1 && TooBig(qhat, top, u2, v1, v2)
    ensures qhat >= 1 && Leaves(qhat - 1, rh + v1, top, v1)
    ensures NoneAbove(qhat - 1, top, u2, v1, v2)
    ensures qhat == BASE + 1 ==> rh + v1 < BASE
  {
    assert (qhat - 1) * v1 == qhat * v1 - v1;
  }

  /** The two leading limbs of the window and of the divisor, and what is below them. */
  ghost predicate Leading(w: int, v: int, top: int, u2: int, v1: int, v2: int, p: int) {
    && p > 0
    && (top * BASE + u2) * p <= w < (top * BASE + u2 + 1) * p
    && (v1 * BASE + v2) * p <= v < (v1 * BASE + v2 + 1) * p
  }

  /** The estimate is never below the digit. */
  lemma TrialNotBelow(w: nat, v: nat, top: nat, u2: Limb, v1: Limb, v2: Limb, p: nat, qhat: int)
    requires Leading(w, v, top, u2, v1, v2, p) && v1 > 0
    requires v > 0 && w / v < BASE
    requires NoneAbove(qhat, top, u2, v1, v2)
    ensures w / v <= qhat
  {
    var q := w / v;
    assert q * v <= w by { assert w == q * v + w % v; }
    DigitBelowLead(w, v, top, u2, v1, v2, p, q);
    DivLowerBound(top, v1, q);
    if q > qhat {
      assert TooBig(q, top, u2, v1, v2);
      TooBigOvershoots(w, v, top, u2, v1, v2, p, q);
    }
  }

  lemma DigitBelowLead(w: nat, v: nat, top: int, u2: Limb, v1: Limb, v2: Limb, p: nat, q: nat)
    requires Leading(w, v, top, u2, v1, v2, p) && q * v <= w
    ensures q * v1 <= top
  {
    MulLe((v1 * BASE + v2) * p, v, q);
    MulAssoc(q, v1 * BASE + v2, p);
    MulCancelLess(q * (v1 * BASE + v2), top * BASE + u2 + 1, p);
    assert q * (v1 * BASE + v2) == (q * v1) * BASE + q * v2;
    MulLe(0, q, v2);
  }

  lemma TooBigOvershoots(w: nat, v: nat, top: int, u2: Limb, v1: Limb, v2: Limb, p: nat, q: nat)
    requires Leading(w, v, top, u2, v1, v2, p)
    requires q * v2 > (top - q * v1) * BASE + u2
    ensures q * v > w
  {
    assert q * (v1 * BASE + v2) == (q * v1) * BASE + q * v2;
    MulLe(top * BASE + u2 + 1, q * (v1 * BASE + v2), p);
    MulLe((v1 * BASE + v2) * p, v, q);
    MulAssoc(q, v1 * BASE + v2, p);
  }

  /** A trial digit that passed its test exceeds the true one by no more than one. */
  lemma TrialOneAbove(w: nat, v: nat, top: int, u2: Limb, v1: Limb, v2: Limb, p: nat, qhat: nat, rhat: int)
    requires Leading(w, v, top, u2, v1, v2, p) && v1 > 0
    requires v > 0 && qhat < BASE && Leaves(qhat, rhat, top, v1)
    requires rhat >= BASE || !TooBig(qhat, top, u2, v1, v2)
    ensures qhat <= w / v + 1
  {
    if qhat > 0 {
      TrialProduct(w, v, top, u2, v1, v2, p, qhat, rhat);
      assert (qhat - 1) * v == qhat * v - v;
      DivLowerBound(w, v, qhat - 1);
    }
  }

  lemma TrialProduct(w: nat, v: nat, top: int, u2: Limb, v1: Limb, v2: Limb, p: nat, qhat: nat, rhat: int)
    requires Leading(w, v, top, u2, v1, v2, p) && v1 > 0
    requires qhat < BASE && Leaves(qhat, rhat, top, v1)
    requires rhat >= BASE || !TooBig(qhat, top, u2, v1, v2)
    ensures qhat * v <= w + v
  {
    var lead := v1 * BASE + v2;
    assert qhat * lead == (qhat * v1) * BASE + qhat * v2;
    LeadAtLeastBase(v, v1, v2, p);
    if rhat >= BASE {
      MulLe(v2, BASE, qhat);
      assert qhat * lead <= top * BASE + u2;
    }
    // qhat * v is at most qhat * (lead + 1) * p, and qhat * p is below v.
    MulLe(v, (lead + 1) * p, qhat);
    MulAssoc(qhat, lead + 1, p);
    assert qhat * (lead + 1) == qhat * lead + qhat;
    MulLe(qhat * lead + qhat, top * BASE + u2 + qhat, p);
    assert (top * BASE + u2 + qhat) * p == (top * BASE + u2) * p + qhat * p;
    MulLe(qhat, BASE, p);
  }

  lemma LeadAtLeastBase(v: nat, v1: Limb, v2: Limb, p: nat)
    requires v1 > 0 && (v1 * BASE + v2) * p <= v
    ensures BASE * p <= v
  {
    MulLe(BASE, v1 * BASE + v2, p);
  }

  // ---- Multiply and subtract, add back ----

  /**
   * Subtracts qhat * v from the window of |v| + 1 limbs. When the product was larger, neg is
   * set and the window has gone around once.
   */
  method MulSub(u: seq<Limb>, v: seq<Limb>, qhat: Limb) returns (out: seq<Limb>, neg: bool)
    requires |u| == |v| + 1
    ensures |out| == |u|
    ensures neg <==> Eval(BASE, u) < qhat * Eval(BASE, v)
    ensures Eval(BASE, out) == Eval(BASE, u) - qhat * Eval(BASE, v) + (if neg then Pow(BASE, |u|) else 0)
  {
    hide Eval, MulSoFar, SubSoFar, Pow;
    out := u;
    var borrow: I64, carry: U64 := 0, 0;
    ghost var prod: seq<Limb> := [];
    var i := 0;
    MulSmallStart(qhat);
    SubStart();
    assert u[..0] == [] && v[..0] == [];
    while i < |v|
      invariant i <= |v| && |out| == |u| && out[i..] == u[i..] && carry < BASE
      invariant borrow == 0 || borrow == 1
      invariant |prod| == i && MulSoFar(prod, carry, v[..i], qhat)
      invariant SubSoFar(out[..i], prod, u[..i], borrow)
    {
      MulSmallStep(prod, carry, v[..i], v[i], qhat, v[i] * qhat + carry);
      var p: U64 := v[i] * qhat + carry;
      carry := p / BASE;
      var t: I64 := out[i] - borrow - p % BASE;
      SubStep(out[..i], u[..i], prod, borrow, u[i], p % BASE, t);
      PrefixUpdate(out, i, t % BASE);
      PrefixSnoc(u, i);
      PrefixSnoc(v, i);
      prod := prod + [p % BASE];
      out := out[i := t % BASE];
      borrow := if t < 0 then 1 else 0;
      i := i + 1;
    }
    assert v[..i] == v;
    var t: I64 := out[i] - borrow - carry;
    SubStep(out[..i], u[..i], prod, borrow, u[i], carry, t);
    PrefixUpdate(out, i, t % BASE);
    PrefixSnoc(u, i);
    out := out[i := t % BASE];
    neg := t < 0;
    assert out[..i + 1] == out && u[..i + 1] == u;
    SubEnd(out, prod + [carry], u, if neg then 1 else 0);
    ProductDone(prod, carry, v, qhat);
  }

  lemma ProductDone(prod: seq<nat>, c: nat, v: seq<nat>, m: nat)
    requires MulSoFar(prod, c, v, m)
    ensures Eval(BASE, prod + [c]) == m * Eval(BASE, v)
  {
  }

  /** The sum of two limb sequences so far, with its carry. */
  ghost predicate AddSoFar(lo: seq<nat>, c: nat, x: seq<nat>, y: seq<nat>) {
    |lo| == |x| == |y| && Eval(BASE, lo + [c]) == Eval(BASE, x) + Eval(BASE, y)
  }

  lemma {:induction false} AddStep(lo: seq<nat>, c: nat, x: seq<nat>, y: seq<nat>, a: Limb, b: Limb, s: nat)
    requires AddSoFar(lo, c, x, y) && c <= 1 && s == a + b + c
    ensures AddSoFar(lo + [s % BASE], s / BASE, x + [a], y + [b]) && s / BASE <= 1
  {
    var p := Pow(BASE, |lo|);
    EvalSnoc(BASE, lo, c);
    EvalSnoc(BASE, lo, s % BASE);
    EvalSnoc(BASE, lo + [s % BASE], s / BASE);
    EvalSnoc(BASE, x, a);
    EvalSnoc(BASE, y, b);
    AddTerms(s, a, b, c, p);
  }

  lemma AddTerms(s: int, a: int, b: int, c: int, p: int)
    requires s == a + b + c
    ensures s % BASE * p + s / BASE * (BASE * p) == a * p + b * p + c * p
  {
    MulAssoc(s / BASE, BASE, p);
    assert (s / BASE * BASE) * p + s % BASE * p == (s / BASE * BASE + s % BASE) * p;
    assert (a + b + c) * p == a * p + b * p + c * p;
  }

  lemma AddStart()
    ensures AddSoFar([], 0, [], [])
  {
    EvalSnoc(BASE, [], 0);
  }

  /** Adds v to a window that went around, which brings it back. */
  method AddBack(u: seq<Limb>, v: seq<Limb>) returns (out: seq<Limb>)
    requires |u| == |v| + 1
    requires Pow(BASE, |u|) <= Eval(BASE, u) + Eval(BASE, v) < Pow(BASE, |u|) + Pow(BASE, |v|)
    ensures |out| == |u| && Eval(BASE, out) == Eval(BASE, u) + Eval(BASE, v) - Pow(BASE, |u|)
  {
    hide Eval, AddSoFar, Pow;
    out := u;
    var c: U64 := 0;
    var i := 0;
    AddStart();
    assert u[..0] == [] && v[..0] == [];
    while i < |v|
      invariant i <= |v| && |out| == |u| && out[i..] == u[i..] && c <= 1
      invariant AddSoFar(out[..i], c, u[..i], v[..i])
    {
      var s: U64 := out[i] + v[i] + c;
      AddStep(out[..i], c, u[..i], v[..i], u[i], v[i], s);
      PrefixUpdate(out, i, s % BASE);
      PrefixSnoc(u, i);
      PrefixSnoc(v, i);
      out := out[i := s % BASE];
      c := s / BASE;
      i := i + 1;
    }
    assert v[..i] == v;
    AddBackEnd(out[..i], c, u, v);
    PrefixUpdate(out, i, (out[i] + c) % BASE);
    out := out[i := (out[i] + c) % BASE];
    assert out[..i + 1] == out;
  }

  /** The sum is a whole turn and less than |v| limbs, so the top limb becomes zero. */
  lemma {:induction false} AddBackEnd(lo: seq<Limb>, c: nat, u: seq<Limb>, v: seq<Limb>)
    requires |u| == |v| + 1 && AddSoFar(lo, c, u[..|v|], v)
    requires Pow(BASE, |u|) <= Eval(BASE, u) + Eval(BASE, v) < Pow(BASE, |u|) + Pow(BASE, |v|)
    ensures (u[|v|] + c) % BASE == 0
    ensures Eval(BASE, lo + [0]) == Eval(BASE, u) + Eval(BASE, v) - Pow(BASE, |u|)
  {
    var n := |v|;
    EvalPrefix(BASE, u, n);
    assert u[..n + 1] == u;
    EvalSnoc(BASE, lo, c);
    EvalSnoc(BASE, lo, 0);
    EvalBound(BASE, lo);
    WholeTurn(u[n], c, Eval(BASE, u[..n]), Eval(BASE, v), Eval(BASE, lo), Pow(BASE, n));
  }

  lemma WholeTurn(x: nat, c: nat, u: nat, v: nat, lo: nat, p: nat)
    requires lo < p && lo + c * p == u + v
    requires BASE * p <= u + x * p + v < BASE * p + p
    ensures x + c == BASE && lo == u + x * p + v - BASE * p
  {
    var h := x + c;
    assert h * p == x * p + c * p;
    assert (h + 1) * p == h * p + p && (BASE + 1) * p == BASE * p + p;
    if h < BASE {
      MulLe(h + 1, BASE, p);
    } else if h > BASE {
      MulLe(BASE + 1, h, p);
    }
  }

  // ---- One digit, then all of them ----

  /** Divides the window of |v| + 1 limbs by v: a quotient digit, and the remainder in place. */
  method Digit(u: seq<Limb>, v: seq<Limb>) returns (out: seq<Limb>, q: Limb)
    requires Normalized(v) && |u| == |v| + 1
    requires Eval(BASE, u[1..]) < Eval(BASE, v)
    ensures |out| == |u| && out[|v|] == 0
    ensures Eval(BASE, u) == q * Eval(BASE, v) + Eval(BASE, out) && Eval(BASE, out) < Eval(BASE, v)
  {
    hide Eval, Leaves, TooBig, NoneAbove, Leading;
    var n := |v|;
    WindowLimbs(u, v);
    var top: U64 := u[n] * BASE + u[n - 1];
    var qhat, rhat := TrialDigit(top, u[n - 2], v[n - 1], v[n - 2]);
    ghost var w, d := Eval(BASE, u), Eval(BASE, v);
    TrialNotBelow(w, d, top, u[n - 2], v[n - 1], v[n - 2], Pow(BASE, n - 2), qhat);
    TrialOneAbove(w, d, top, u[n - 2], v[n - 1], v[n - 2], Pow(BASE, n - 2), qhat, rhat);
    var neg;
    out, neg := MulSub(u, v, qhat);
    q := qhat;
    DigitCases(w, d, qhat, neg);
    if neg {
      EvalBound(BASE, v);
      out := AddBack(out, v);
      q := q - 1;
    }
    TopClear(out, v);
  }

  lemma DigitCases(w: nat, d: nat, qhat: nat, neg: bool)
    requires d > 0 && w / d <= qhat <= w / d + 1
    requires neg <==> w < qhat * d
    ensures !neg ==> w == qhat * d + (w - qhat * d) && 0 <= w - qhat * d < d
    ensures neg ==> qhat >= 1 && w == (qhat - 1) * d + (w - qhat * d + d) && 0 <= w - qhat * d + d < d
  {
    var q, r := w / d, w % d;
    assert w == q * d + r;
    assert (q + 1) * d == q * d + d;
    if qhat == q {
    } else {
      assert qhat == q + 1;
    }
  }

  /** A remainder below v fits |v| limbs. */
  lemma {:induction false} TopClear(out: seq<Limb>, v: seq<Limb>)
    requires |out| == |v| + 1 && Eval(BASE, out) < Eval(BASE, v)
    ensures out[|v|] == 0
  {
    EvalPrefix(BASE, out, |v|);
    assert out[..|v| + 1] == out;
    EvalBound(BASE, v);
    if out[|v|] > 0 {
      MulLe(1, out[|v|], Pow(BASE, |v|));
    }
  }

  /** The leading limbs of the window and of v, in the terms the trial digit is judged by. */
  lemma {:induction false} WindowLimbs(u: seq<Limb>, v: seq<Limb>)
    requires Normalized(v) && |u| == |v| + 1 && Eval(BASE, u[1..]) < Eval(BASE, v)
    ensures Eval(BASE, v) > 0 && Eval(BASE, u) / Eval(BASE, v) < BASE
    ensures u[|v|] * BASE + u[|v| - 1] < v[|v| - 1] * BASE + BASE
    ensures Leading(Eval(BASE, u), Eval(BASE, v), u[|v|] * BASE + u[|v| - 1], u[|v| - 2],
                    v[|v| - 1], v[|v| - 2], Pow(BASE, |v| - 2))
  {
    TopTwo(v);
    WindowBelow(u, v);
    TopLimbOrder(u[1..], v);
    TopThree(u);
  }

  lemma {:induction false} WindowBelow(u: seq<Limb>, v: seq<Limb>)
    requires u != [] && Eval(BASE, u[1..]) < Eval(BASE, v)
    ensures Eval(BASE, u) / Eval(BASE, v) < BASE
  {
    var d := Eval(BASE, v);
    assert Eval(BASE, u) < BASE * d;
    DivLowerBound(Eval(BASE, u), d, BASE);
  }

  /** Of two numbers of one length, the smaller has no larger top limb. */
  lemma {:induction false} TopLimbOrder(x: seq<Limb>, y: seq<Limb>)
    requires |x| == |y| > 0 && Eval(BASE, x) < Eval(BASE, y)
    ensures x[|x| - 1] <= y[|x| - 1]
  {
    if x[|x| - 1] > y[|x| - 1] {
      EvalTopDecides(BASE, y, x, |x| - 1);
    }
  }

  lemma {:induction false} TopTwo(v: seq<Limb>)
    requires |v| >= 2
    ensures (v[|v| - 1] * BASE + v[|v| - 2]) * Pow(BASE, |v| - 2) <= Eval(BASE, v)
    ensures Eval(BASE, v) < (v[|v| - 1] * BASE + v[|v| - 2] + 1) * Pow(BASE, |v| - 2)
  {
    var n := |v|;
    var p, x, y := Pow(BASE, n - 2), v[n - 1], v[n - 2];
    EvalPrefix(BASE, v, n - 1);
    EvalPrefix(BASE, v, n - 2);
    assert v[..n] == v;
    EvalBound(BASE, v[..n - 2]);
    TopTwoTerms(x, y, p);
  }

  lemma TopTwoTerms(x: int, y: int, p: int)
    ensures (x * BASE + y) * p == x * (BASE * p) + y * p
    ensures (x * BASE + y + 1) * p == x * (BASE * p) + y * p + p
  {
    MulAssoc(x, BASE, p);
    assert (x * BASE + y) * p == (x * BASE) * p + y * p;
    assert (x * BASE + y + 1) * p == (x * BASE) * p + y * p + p;
  }

  lemma {:induction false} TopThree(u: seq<Limb>)
    requires |u| >= 3
    ensures var n := |u| - 1;
            var lead := (u[n] * BASE + u[n - 1]) * BASE + u[n - 2];
            lead * Pow(BASE, n - 2) <= Eval(BASE, u) < (lead + 1) * Pow(BASE, n - 2)
  {
    var n := |u| - 1;
    var p, x, y, z := Pow(BASE, n - 2), u[n], u[n - 1], u[n - 2];
    EvalPrefix(BASE, u, n);
    EvalPrefix(BASE, u, n - 1);
    EvalPrefix(BASE, u, n - 2);
    assert u[..n + 1] == u;
    EvalBound(BASE, u[..n - 2]);
    TopThreeTerms(x, y, z, p);
  }

  lemma TopThreeTerms(x: int, y: int, z: int, p: int)
    ensures ((x * BASE + y) * BASE + z) * p == x * (BASE * (BASE * p)) + y * (BASE * p) + z * p
    ensures ((x * BASE + y) * BASE + z + 1) * p == x * (BASE * (BASE * p)) + y * (BASE * p) + z * p + p
  {
    var s := (x * BASE + y) * BASE + z;
    MulAssoc(x * BASE * BASE, 1, p);
    assert s == x * (BASE * BASE) + y * BASE + z;
    assert s * p == (x * (BASE * BASE)) * p + (y * BASE) * p + z * p;
    MulAssoc(x, BASE * BASE, p);
    MulAssoc(BASE, BASE, p);
    MulAssoc(y, BASE, p);
    assert (s + 1) * p == s * p + p;
  }

  /** The quotient digits from limb j up, and what is left there. */
  ghost predicate DivSoFar(u: seq<Limb>, q: seq<Limb>, u0: seq<Limb>, v: seq<Limb>, j: nat) {
    && |u| == |u0| && j + |v| <= |u| && j <= |q| && u[..j] == u0[..j]
    && (forall i :: j + |v| <= i < |u| ==> u[i] == 0)
    && Eval(BASE, u[j..j + |v|]) < Eval(BASE, v)
    && Eval(BASE, u0[j..]) == Eval(BASE, q[j..]) * Eval(BASE, v) + Eval(BASE, u[j..j + |v|])
  }

  /** Divides u by a normalized v, from the top digit down. */
  method Divide(u0: seq<Limb>, v: seq<Limb>) returns (q: seq<Limb>, u: seq<Limb>)
    requires Normalized(v) && |u0| > |v| && u0[|u0| - 1] == 0
    ensures Eval(BASE, u0) == Eval(BASE, q) * Eval(BASE, v) + Eval(BASE, u)
    ensures Eval(BASE, u) < Eval(BASE, v)
  {
    hide Eval, DivSoFar;
    var n := |v|;
    var m := |u0| - n - 1;
    u := u0;
    q := seq(m + 1, _ => 0);
    DivStart(u0, v, q);
    var j := m + 1;
    while j > 0
      invariant 0 <= j <= m + 1 && |u| == |u0| && |q| == m + 1
      invariant DivSoFar(u, q, u0, v, j)
    {
      var k := j - 1;
      DivWindow(u, q, u0, v, j);
      var out, digit := Digit(u[k..k + n + 1], v);
      DivStep(u, q, u0, v, j, out, digit);
      u := u[..k] + out + u[k + n + 1..];
      q := q[k := digit];
      j := k;
    }
    DivEnd(u, q, u0, v);
  }

  lemma {:induction false} DivStart(u0: seq<Limb>, v: seq<Limb>, q: seq<Limb>)
    requires Normalized(v) && |u0| > |v| && u0[|u0| - 1] == 0 && |q| == |u0| - |v|
    ensures DivSoFar(u0, q, u0, v, |q|)
  {
    var top := u0[|q|..];
    assert u0[|q|..|q| + |v|] == top && q[|q|..] == [];
    EvalTopDecides(BASE, top, v, |v| - 1);
  }

  lemma {:induction false} DivWindow(u: seq<Limb>, q: seq<Limb>, u0: seq<Limb>, v: seq<Limb>, j: nat)
    requires j > 0 && DivSoFar(u, q, u0, v, j)
    ensures j + |v| <= |u|
    ensures var win := u[j - 1..j + |v|];
            win[1..] == u[j..j + |v|] && Eval(BASE, win[1..]) < Eval(BASE, v)
  {
  }

  lemma {:induction false} DivStep(u: seq<Limb>, q: seq<Limb>, u0: seq<Limb>, v: seq<Limb>, j: nat, out: seq<Limb>,
                                   d: Limb)
    requires 0 < j <= |q| && DivSoFar(u, q, u0, v, j)
    requires |out| == |v| + 1 && out[|v|] == 0 && Eval(BASE, out) < Eval(BASE, v)
    requires Eval(BASE, u[j - 1..j + |v|]) == d * Eval(BASE, v) + Eval(BASE, out)
    ensures DivSoFar(u[..j - 1] + out + u[j + |v|..], q[j - 1 := d], u0, v, j - 1)
  {
    var k, n := j - 1, |v|;
    var u', q' := u[..k] + out + u[j + n..], q[k := d];
    assert u'[k..k + n] == out[..n];
    EvalPrefix(BASE, out, n);
    assert out[..n + 1] == out;
    assert q'[k..] == [d] + q[j..];
    assert u0[k..] == [u[k]] + u0[j..] by {
      assert u[k] == u[..j][k] == u0[k];
    }
    assert u[k..j + n] == [u[k]] + u[j..j + n];
    DivStepTerms(u[k], Eval(BASE, u0[j..]), Eval(BASE, q[j..]), Eval(BASE, v), Eval(BASE, u[j..j + n]), d,
                 Eval(BASE, out));
    assert u'[..k] == u0[..k] by {
      assert u'[..k] == u[..j][..k];
    }
  }

  lemma DivStepTerms(x: int, hi0: int, q: int, v: int, rem: int, d: int, out: int)
    requires hi0 == q * v + rem && x + BASE * rem == d * v + out
    ensures x + BASE * hi0 == (d + BASE * q) * v + out
  {
    MulAssoc(BASE, q, v);
    assert (d + BASE * q) * v == d * v + (BASE * q) * v;
  }

  lemma {:induction false} DivEnd(u: seq<Limb>, q: seq<Limb>, u0: seq<Limb>, v: seq<Limb>)
    requires DivSoFar(u, q, u0, v, 0)
    ensures Eval(BASE, u0) == Eval(BASE, q) * Eval(BASE, v) + Eval(BASE, u)
    ensures Eval(BASE, u) < Eval(BASE, v)
  {
    var n := |v|;
    assert u0[0..] == u0 && q[0..] == q && u[0..n] == u[..n];
    EvalSplit(BASE, u, n);
    EvalZeros(BASE, u[n..]);
  }
}
