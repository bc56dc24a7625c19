/**
One step of each limb loop, as arithmetic: what a carry, a borrow or a remainder
does to the number the limbs denote. p is the weight of the limb being changed.
 */
module LimbArith {
  import opened Powers
  import opened Digits

  const BASE: int := 0x1_0000_0000
  type Limb = x: nat | x < 0x1_0000_0000
  type U64 = x: int | 0 <= x < 0x1_0000_0000_0000_0000
  type I32 = x: int | -0x8000_0000 <= x < 0x8000_0000
  type I64 = x: int | -0x8000_0000_0000_0000 <= x < 0x8000_0000_0000_0000

  /** A product of two limbs plus two limbs fits 64 bits. */
  lemma MulAddFits(x: Limb, y: Limb, a: Limb, c: Limb)
    ensures x * y + a + c < 0x1_0000_0000_0000_0000
    ensures (x * y + a + c) / BASE < BASE
  {
    MulMono(x, BASE - 1, y, BASE - 1);
  }

  /** The limbs lo, with a carry still to be placed, are lo0 times m. */
  ghost predicate MulSoFar(lo: seq<nat>, c: nat, lo0: seq<nat>, m: nat) {
    |lo| == |lo0| && Eval(BASE, lo + [c]) == Eval(BASE, lo0) * m
  }

  lemma MulSmallStart(m: nat)
    ensures MulSoFar([], 0, [], m)
  {
    EvalSnoc(BASE, [], 0);
  }

  lemma {:induction false} MulSmallEnd(lo: seq<nat>, c: nat, lo0: seq<nat>, m: nat)
    requires MulSoFar(lo, c, lo0, m)
    ensures Eval(BASE, if c != 0 then lo + [c] else lo) == Eval(BASE, lo0) * m
  {
    EvalSnoc(BASE, lo, c);
  }

  /** The next limb, x, times m. */
  lemma {:induction false} MulSmallStep(lo: seq<nat>, c: Limb, lo0: seq<nat>, x: Limb, m: Limb, v: nat)
    requires MulSoFar(lo, c, lo0, m) && v == x * m + c
    ensures v < 0x1_0000_0000_0000_0000 && v / BASE < BASE
    ensures MulSoFar(lo + [v % BASE], v / BASE, lo0 + [x], m)
  {
    var p := Pow(BASE, |lo|);
    EvalSnoc(BASE, lo, c);
    EvalSnoc(BASE, lo0, x);
    EvalSnoc(BASE, lo, v % BASE);
    EvalSnoc(BASE, lo + [v % BASE], v / BASE);
    MulAddFits(x, m, 0, c);
    MulSmallTerms(Eval(BASE, lo), c, p, Eval(BASE, lo0), x, m, v % BASE, v / BASE);
  }

  lemma MulSmallTerms(lo: int, c: int, p: int, lo0: int, x: int, m: int, d: int, c': int)
    requires lo + c * p == lo0 * m && c' * BASE + d == x * m + c
    ensures lo + d * p + c' * (BASE * p) == (lo0 + x * p) * m
  {
    calc {
      lo + d * p + c' * (BASE * p);
      { MulAssoc(c', BASE, p); }
      lo + d * p + (c' * BASE) * p;
      lo + (c' * BASE + d) * p;
      lo + (x * m + c) * p;
      lo + (x * m) * p + c * p;
      lo0 * m + (x * m) * p;
      { MulAssoc(x, m, p); MulAssoc(x, p, m); assert m * p == p * m; }
      lo0 * m + (x * p) * m;
      (lo0 + x * p) * m;
    }
  }

  /** A sum carried out of weight p: d replaces x, c' goes to the next weight. */
  lemma CarryStep(total: int, total': int, x: int, c: int, p: int, v: int)
    requires total' + x * p == total + (v % BASE) * p
    ensures total' + (v / BASE) * (BASE * p) == total + (v - x) * p
  {
    var d, c' := v % BASE, v / BASE;
    assert v == c' * BASE + d;
    MulAssoc(c', BASE, p);
    assert (c' * BASE + d) * p == (c' * BASE) * p + d * p;
    assert (v - x) * p == v * p - x * p;
  }

  /** A difference borrowed from the next weight: t may be negative, but not below -BASE. */
  lemma BorrowStep(t: int)
    requires -BASE <= t < BASE
    ensures t % BASE == t + (if t < 0 then BASE else 0)
  {
  }

  /** Writing a limb extends the finished prefix by it. */
  lemma PrefixUpdate(s: seq<nat>, i: nat, x: nat)
    requires i < |s|
    ensures s[i := x][..i + 1] == s[..i] + [x]
    ensures s[i := x][i + 1..] == s[i + 1..]
  {
  }

  lemma PrefixSnoc(s: seq<nat>, i: nat)
    requires i < |s|
    ensures s[..i + 1] == s[..i] + [s[i]]
  {
  }

  /** The difference so far, plus what was taken away, is the minuend so far plus the borrow. */
  ghost predicate SubSoFar(lo: seq<nat>, sub: seq<nat>, lo0: seq<nat>, br: nat) {
    |lo| == |sub| == |lo0| && Eval(BASE, lo) + Eval(BASE, sub) == Eval(BASE, lo0 + [br])
  }

  lemma SubStart()
    ensures SubSoFar([], [], [], 0)
  {
    EvalSnoc(BASE, [], 0);
  }

  lemma {:induction false} SubEnd(lo: seq<nat>, sub: seq<nat>, lo0: seq<nat>, br: nat)
    requires SubSoFar(lo, sub, lo0, br) && InBase(BASE, lo) && (br == 0 || br == 1)
    ensures Eval(BASE, sub) <= Eval(BASE, lo0) <==> br == 0
    ensures br == 0 ==> Eval(BASE, lo) == Eval(BASE, lo0) - Eval(BASE, sub)
    ensures br == 1 ==> Eval(BASE, lo) == Pow(BASE, |lo|) + Eval(BASE, lo0) - Eval(BASE, sub)
  {
    EvalSnoc(BASE, lo0, br);
    EvalBound(BASE, lo);
  }

  /** Subtracting limb y from limb x with a borrow. */
  lemma {:induction false} SubStep(lo: seq<nat>, lo0: seq<nat>, sub: seq<nat>, br: nat, x: nat, y: nat, t: int)
    requires SubSoFar(lo, sub, lo0, br)
    requires t == x - y - br && -BASE <= t < BASE
    ensures SubSoFar(lo + [t % BASE], sub + [y], lo0 + [x], if t < 0 then 1 else 0)
  {
    hide Eval;
    var b' := if t < 0 then 1 else 0;
    EvalSnoc(BASE, lo0, br);
    EvalSnoc(BASE, lo, t % BASE);
    EvalSnoc(BASE, sub, y);
    EvalSnoc(BASE, lo0, x);
    EvalSnoc(BASE, lo0 + [x], b');
    assert Pow(BASE, |lo| + 1) == BASE * Pow(BASE, |lo|);
    BorrowTerms(br, x, y, t, b', Pow(BASE, |lo|));
  }

  lemma BorrowTerms(br: int, x: int, y: int, t: int, b': int, p: int)
    requires t == x - y - br && -BASE <= t < BASE && b' == if t < 0 then 1 else 0
    ensures t % BASE * p + y * p + br * p == x * p + b' * (BASE * p)
  {
    BorrowStep(t);
    MulAssoc(b', BASE, p);
    assert (t % BASE + y + br) * p == t % BASE * p + y * p + br * p;
    assert (x + b' * BASE) * p == x * p + (b' * BASE) * p;
  }

  /** The limbs q and a remainder, so far from the top down. */
  ghost predicate Divided(q: seq<nat>, rem: nat, hi0: seq<nat>, d: nat) {
    Eval(BASE, hi0) == Eval(BASE, q) * d + rem
  }

  lemma DividedStart(d: nat)
    ensures Divided([], 0, [], d)
  {
  }

  lemma DividedEnd(q: seq<nat>, rem: nat, hi0: seq<nat>, d: nat)
    requires Divided(q, rem, hi0, d)
    ensures Eval(BASE, hi0) == Eval(BASE, q) * d + rem
  {
  }

  /** The remainder joins the next limb down. */
  lemma {:induction false} DividedStep(q: seq<nat>, rem: nat, hi0: seq<nat>, x: Limb, d: Limb)
    requires d > 0 && rem < d && Divided(q, rem, hi0, d)
    ensures var v := rem * BASE + x;
            && 0 <= v < 0x1_0000_0000_0000_0000 && v / d < BASE
            && Divided([v / d] + q, v % d, [x] + hi0, d)
  {
    assert ([x] + hi0)[1..] == hi0;
    var v := rem * BASE + x;
    assert ([v / d] + q)[1..] == q;
    DivSmallStep(Eval(BASE, q), rem, Eval(BASE, hi0), x, d);
  }

  /** Dividing down by one limb: the remainder joins the next limb. */
  lemma DivSmallStep(q: int, rem: int, hi0: int, x: int, d: int)
    requires d > 0 && 0 <= rem < d && hi0 == q * d + rem && 0 <= x < BASE
    ensures var v := rem * BASE + x;
            && v >= 0
            && v / d < BASE
            && (v / d + BASE * q) * d + v % d == x + BASE * hi0
  {
    var v := rem * BASE + x;
    MulLe(rem + 1, d, BASE);
    assert (rem + 1) * BASE == rem * BASE + BASE;
    DivLowerBound(v, d, BASE);
    var q', r' := v / d, v % d;
    assert v == q' * d + r';
    calc {
      (q' + BASE * q) * d + r';
      q' * d + (BASE * q) * d + r';
      { MulAssoc(BASE, q, d); }
      v + BASE * (q * d);
    }
  }
}
