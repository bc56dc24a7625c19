/**
Positional notation. Limbs (base 2^32), bytes (base 256), decimal digits (base 10)
and varint groups (base 128) are all sequences of digits, least significant first.
 */
module Digits {
  import opened Powers

  /** The number w denotes in base b, least significant digit first. */
  function Eval(b: nat, w: seq<nat>): nat {
    if w == [] then 0 else w[0] + b * Eval(b, w[1..])
  }

  lemma EvalEmpty(b: nat)
    ensures Eval(b, []) == 0 && Pow(b, 0) == 1
  {
  }

  /** Every digit is below the base. */
  ghost predicate InBase(b: nat, w: seq<nat>) {
    forall i :: 0 <= i < |w| ==> w[i] < b
  }

  lemma {:induction false} EvalConcat(b: nat, lo: seq<nat>, hi: seq<nat>)
    ensures Eval(b, lo + hi) == Eval(b, lo) + Pow(b, |lo|) * Eval(b, hi)
    decreases |lo|
  {
    if lo == [] {
      assert lo + hi == hi;
    } else {
      assert (lo + hi)[1..] == lo[1..] + hi;
      EvalConcat(b, lo[1..], hi);
      MulHorner(b, Eval(b, lo[1..]), Pow(b, |lo| - 1), Eval(b, hi));
    }
  }

  lemma {:induction false} EvalSnoc(b: nat, w: seq<nat>, d: nat)
    ensures Eval(b, w + [d]) == Eval(b, w) + d * Pow(b, |w|)
  {
    EvalConcat(b, w, [d]);
    assert Eval(b, [d]) == d + b * Eval(b, [d][1..]) == d;
  }

  /** One more digit of a prefix. */
  lemma {:induction false} EvalPrefix(b: nat, w: seq<nat>, i: nat)
    requires i < |w|
    ensures Eval(b, w[..i + 1]) == Eval(b, w[..i]) + w[i] * Pow(b, i)
  {
    assert w[..i + 1] == w[..i] + [w[i]];
    EvalSnoc(b, w[..i], w[i]);
  }

  lemma {:induction false} EvalSplit(b: nat, w: seq<nat>, i: nat)
    requires i <= |w|
    ensures Eval(b, w) == Eval(b, w[..i]) + Pow(b, i) * Eval(b, w[i..])
  {
    assert w == w[..i] + w[i..];
    EvalConcat(b, w[..i], w[i..]);
  }

  lemma {:induction false} EvalBound(b: nat, w: seq<nat>)
    requires InBase(b, w)
    ensures Eval(b, w) < Pow(b, |w|)
    decreases |w|
  {
    if w == [] {
    } else {
      EvalBound(b, w[1..]);
      MulLe(Eval(b, w[1..]) + 1, Pow(b, |w| - 1), b);
      assert b * (Eval(b, w[1..]) + 1) == b * Eval(b, w[1..]) + b;
    }
  }

  /** Slicing at a digit boundary is division by a power of the base. */
  lemma {:induction false} EvalDivMod(b: nat, w: seq<nat>, i: nat)
    requires b > 0 && InBase(b, w) && i <= |w|
    ensures Pow(b, i) > 0
    ensures Eval(b, w) / Pow(b, i) == Eval(b, w[i..])
    ensures Eval(b, w) % Pow(b, i) == Eval(b, w[..i])
  {
    EvalSplit(b, w, i);
    EvalBound(b, w[..i]);
    assert Pow(b, i) * Eval(b, w[i..]) == Eval(b, w[i..]) * Pow(b, i);
    DivUnique(Eval(b, w), Pow(b, i), Eval(b, w[i..]), Eval(b, w[..i]));
  }

  lemma {:induction false} EvalZeros(b: nat, w: seq<nat>)
    requires forall i :: 0 <= i < |w| ==> w[i] == 0
    ensures Eval(b, w) == 0
    decreases |w|
  {
    if w != [] {
      EvalZeros(b, w[1..]);
    }
  }

  /** Only zeros denote zero. */
  lemma {:induction false} EvalZeroOnly(b: nat, w: seq<nat>)
    requires b > 0 && Eval(b, w) == 0
    ensures forall i :: 0 <= i < |w| ==> w[i] == 0
    decreases |w|
  {
    if w != [] {
      EvalZeroOnly(b, w[1..]);
      forall i | 0 <= i < |w|
        ensures w[i] == 0
      {
        assert i > 0 ==> w[i] == w[1..][i - 1];
      }
    }
  }

  lemma {:induction false} EvalNonzero(b: nat, w: seq<nat>, k: nat)
    requires b > 0 && k < |w| && w[k] != 0
    ensures Eval(b, w) > 0
  {
    if Eval(b, w) == 0 {
      EvalZeroOnly(b, w);
    }
  }

  /** A number has one digit sequence of each length. */
  lemma {:induction false} EvalInjective(b: nat, v: seq<nat>, w: seq<nat>)
    requires b > 0 && InBase(b, v) && InBase(b, w)
    requires |v| == |w| && Eval(b, v) == Eval(b, w)
    ensures v == w
    decreases |v|
  {
    if v == [] {
    } else {
      DivUnique(Eval(b, v), b, Eval(b, v[1..]), v[0]);
      DivUnique(Eval(b, w), b, Eval(b, w[1..]), w[0]);
      EvalInjective(b, v[1..], w[1..]);
      assert v == [v[0]] + v[1..] && w == [w[0]] + w[1..];
    }
  }

  /** What changing one digit does to the number. */
  lemma {:induction false} EvalUpdate(b: nat, w: seq<nat>, k: nat, x: nat)
    requires k < |w|
    ensures Eval(b, w[k := x]) + w[k] * Pow(b, k) == Eval(b, w) + x * Pow(b, k)
  {
    var w' := w[k := x];
    EvalSplit(b, w, k + 1);
    EvalSplit(b, w', k + 1);
    EvalPrefix(b, w, k);
    EvalPrefix(b, w', k);
    assert w'[..k] == w[..k] && w'[k + 1..] == w[k + 1..];
  }

  /** Zeros above a number do not change it. */
  lemma {:induction false} EvalPad(b: nat, w: seq<nat>, n: nat)
    ensures Eval(b, w + seq(n, _ => 0)) == Eval(b, w)
  {
    EvalConcat(b, w, seq(n, _ => 0));
    EvalZeros(b, seq(n, _ => 0));
  }

  /** Two sequences that agree on a number's digits and differ at the top differ in order. */
  lemma {:induction false} EvalTopDecides(b: nat, v: seq<nat>, w: seq<nat>, i: nat)
    requires InBase(b, v) && InBase(b, w) && |v| == |w| && i < |v|
    requires v[i] < w[i] && v[i + 1..] == w[i + 1..]
    ensures Eval(b, v) < Eval(b, w)
  {
    EvalSplit(b, v, i + 1);
    EvalSplit(b, w, i + 1);
    EvalPrefix(b, v, i);
    EvalPrefix(b, w, i);
    EvalBound(b, v[..i]);
    MulLe(v[i] + 1, w[i], Pow(b, i));
    assert (v[i] + 1) * Pow(b, i) == v[i] * Pow(b, i) + Pow(b, i);
  }

  /** No digit above the top: the form in which every number has one representation. */
  predicate Trimmed(w: seq<nat>) {
    w == [] || w[|w| - 1] != 0
  }

  lemma {:induction false} TrimmedLower(b: nat, w: seq<nat>)
    requires Trimmed(w) && w != []
    ensures Eval(b, w) >= Pow(b, |w| - 1)
  {
    EvalPrefix(b, w, |w| - 1);
    assert w[..|w|] == w;
    MulGrows(Pow(b, |w| - 1), w[|w| - 1]);
  }

  /** A trimmed number with more digits is larger. */
  lemma {:induction false} LongerIsLarger(b: nat, v: seq<nat>, w: seq<nat>)
    requires b > 0 && InBase(b, v) && Trimmed(w) && |v| < |w|
    ensures Eval(b, v) < Eval(b, w)
  {
    EvalBound(b, v);
    TrimmedLower(b, w);
    PowMonotone(b, |v|, |w| - 1);
  }

  /** Equal numbers have equal trimmed digits. */
  lemma {:induction false} TrimmedUnique(b: nat, v: seq<nat>, w: seq<nat>)
    requires b > 0 && InBase(b, v) && InBase(b, w) && Trimmed(v) && Trimmed(w)
    requires Eval(b, v) == Eval(b, w)
    ensures v == w
  {
    if |v| < |w| {
      LongerIsLarger(b, v, w);
    } else if |w| < |v| {
      LongerIsLarger(b, w, v);
    } else {
      EvalInjective(b, v, w);
    }
  }

  /** Dropping zeros from the top. */
  function DropTop(w: seq<nat>): (r: seq<nat>)
    ensures Trimmed(r) && r <= w
  {
    if w != [] && w[|w| - 1] == 0 then DropTop(w[..|w| - 1]) else w
  }

  lemma {:induction false} DropTopEval(b: nat, w: seq<nat>)
    ensures Eval(b, DropTop(w)) == Eval(b, w)
    decreases |w|
  {
    if w != [] && w[|w| - 1] == 0 {
      EvalPrefix(b, w, |w| - 1);
      assert w[..|w|] == w;
      DropTopEval(b, w[..|w| - 1]);
    }
  }
}
