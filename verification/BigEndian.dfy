/**
Positional notation with the most significant digit first: byte magnitudes on the wire
and decimal digits in text.
 */
module BigEndian {
  import opened Powers
  import opened Digits

  type Byte = x: nat | x < 0x100

  /** The number s denotes in base b, most significant digit first. */
  function Num(b: nat, s: seq<nat>): nat {
    if s == [] then 0 else Num(b, s[..|s| - 1]) * b + s[|s| - 1]
  }

  lemma NumEmpty(b: nat)
    ensures Num(b, []) == 0
  {
  }

  lemma NumSnoc(b: nat, s: seq<nat>, x: nat)
    ensures Num(b, s + [x]) == Num(b, s) * b + x
  {
    assert (s + [x])[..|s|] == s;
  }

  lemma {:induction false} NumConcat(b: nat, hi: seq<nat>, lo: seq<nat>)
    ensures Num(b, hi + lo) == Num(b, hi) * Pow(b, |lo|) + Num(b, lo)
    decreases |lo|
  {
    if lo == [] {
      assert hi + lo == hi;
    } else {
      var n := |lo| - 1;
      assert (hi + lo)[..|hi| + n] == hi + lo[..n];
      NumConcat(b, hi, lo[..n]);
      NumTerms(Num(b, hi), Pow(b, n), Num(b, lo[..n]), b);
    }
  }

  lemma NumTerms(h: int, p: int, l: int, b: int)
    ensures (h * p + l) * b == h * (b * p) + l * b
  {
    MulAssoc(h, p, b);
    assert (h * p + l) * b == (h * p) * b + l * b;
    assert p * b == b * p;
  }

  lemma {:induction false} NumCons(b: nat, x: nat, s: seq<nat>)
    ensures Num(b, [x] + s) == x * Pow(b, |s|) + Num(b, s)
  {
    NumConcat(b, [x], s);
    assert Num(b, [x]) == Num(b, []) * b + x by { assert [x][..0] == []; }
  }

  lemma {:induction false} NumZeros(b: nat, n: nat, s: seq<nat>)
    ensures Num(b, seq(n, _ => 0) + s) == Num(b, s)
    ensures Num(b, s + seq(n, _ => 0)) == Num(b, s) * Pow(b, n)
    decreases n
  {
    if n == 0 {
      assert seq(n, _ => 0) + s == s && s + seq(n, _ => 0) == s;
    } else {
      assert seq(n, _ => 0) + s == [0] + (seq(n - 1, _ => 0) + s);
      NumCons(b, 0, seq(n - 1, _ => 0) + s);
      assert s + seq(n, _ => 0) == (s + seq(n - 1, _ => 0)) + [0];
      NumSnoc(b, s + seq(n - 1, _ => 0), 0);
      NumZeros(b, n - 1, s);
      MulAssoc(Num(b, s), Pow(b, n - 1), b);
      assert Pow(b, n - 1) * b == b * Pow(b, n - 1);
    }
  }

  function Rev<T>(s: seq<T>): (r: seq<T>)
    ensures |r| == |s|
  {
    seq(|s|, i requires 0 <= i < |s| => s[|s| - 1 - i])
  }

  /** Reading the digits the other way around. */
  lemma {:induction false} NumRev(b: nat, s: seq<nat>)
    ensures Num(b, Rev(s)) == Eval(b, s)
    decreases |s|
  {
    if s != [] {
      assert Rev(s) == Rev(s[1..]) + [s[0]];
      NumSnoc(b, Rev(s[1..]), s[0]);
      NumRev(b, s[1..]);
    }
  }

  lemma {:induction false} NumIsEval(b: nat, s: seq<nat>)
    ensures Num(b, s) == Eval(b, Rev(s))
  {
    NumRev(b, Rev(s));
    assert Rev(Rev(s)) == s;
  }

  lemma {:induction false} NumBound(b: nat, s: seq<nat>)
    requires InBase(b, s)
    ensures Num(b, s) < Pow(b, |s|)
  {
    NumIsEval(b, s);
    EvalBound(b, Rev(s));
  }

  /** A number has one trimmed digit sequence. */
  lemma {:induction false} NumUnique(b: nat, s: seq<nat>, t: seq<nat>)
    requires b > 0 && InBase(b, s) && InBase(b, t) && Num(b, s) == Num(b, t)
    requires (s == [] || s[0] != 0) && (t == [] || t[0] != 0)
    ensures s == t
  {
    NumIsEval(b, s);
    NumIsEval(b, t);
    TrimmedUnique(b, Rev(s), Rev(t));
    assert Rev(Rev(s)) == s && Rev(Rev(t)) == t;
  }

  /** A leading digit that is not zero bounds the number below. */
  lemma {:induction false} NumLower(b: nat, s: seq<nat>)
    requires s != [] && s[0] != 0
    ensures Num(b, s) >= Pow(b, |s| - 1)
  {
    NumIsEval(b, s);
    TrimmedLower(b, Rev(s));
  }
}
