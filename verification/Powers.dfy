/**
Integer powers and the few product facts the limb, rounding and decimal proofs
share. Products of two unknowns are kept inside these small lemmas.
 */
module Powers {

  /** b to the power e. */
  function Pow(b: nat, e: nat): (r: nat)
    ensures b > 0 ==> r > 0
  {
    if e == 0 then 1 else b * Pow(b, e - 1)
  }

  /** C division, which truncates towards zero. */
  function TruncDiv(a: int, b: nat): int
    requires b > 0
  {
    if a >= 0 then a / b else -((-a) / b)
  }

  /** The machine words' sizes. */
  lemma WordPowers()
    ensures Pow(2, 7) == 0x80 && Pow(2, 8) == 0x100
    ensures Pow(2, 31) == 0x8000_0000 && Pow(2, 32) == 0x1_0000_0000
    ensures Pow(10, 9) == 1_000_000_000
  {
    assert Pow(2, 7) == 0x80;
    PowAdd(2, 8, 8);
    PowAdd(2, 15, 16);
    PowAdd(2, 8, 7);
    PowAdd(2, 16, 16);
    assert Pow(10, 3) == 1000;
    PowAdd(10, 3, 3);
    PowAdd(10, 3, 6);
  }

  lemma TwoToOne()
    ensures Pow(2, 1) == 2
  {
  }

  lemma TenToZero()
    ensures Pow(10, 0) == 1
  {
  }

  lemma {:induction false} PowAdd(b: nat, x: nat, y: nat)
    ensures Pow(b, x + y) == Pow(b, x) * Pow(b, y)
    decreases x
  {
    if x == 0 {
    } else {
      PowAdd(b, x - 1, y);
      MulAssoc(b, Pow(b, x - 1), Pow(b, y));
    }
  }

  lemma {:induction false} PowMonotone(b: nat, x: nat, y: nat)
    requires b > 0 && x <= y
    ensures Pow(b, x) <= Pow(b, y)
  {
    PowAdd(b, x, y - x);
    MulGrows(Pow(b, x), Pow(b, y - x));
  }

  lemma {:induction false} PowStrict(b: nat, x: nat, y: nat)
    requires b > 1 && x < y
    ensures Pow(b, x) < Pow(b, y)
  {
    PowMonotone(b, x + 1, y);
    MulLess(1, b, Pow(b, x));
  }

  /** Exponents compare as their powers do. */
  lemma {:induction false} PowOrder(b: nat, x: nat, y: nat)
    requires b > 1 && Pow(b, x) < Pow(b, y)
    ensures x < y
  {
    if y <= x {
      PowMonotone(b, y, x);
    }
  }

  lemma {:induction false} PowMul(b: nat, x: nat, y: nat)
    ensures Pow(Pow(b, x), y) == Pow(b, x * y)
    decreases y
  {
    if y == 0 {
    } else {
      PowMul(b, x, y - 1);
      PowAdd(b, x, x * (y - 1));
      assert x * y == x + x * (y - 1);
    }
  }

  lemma {:induction false} PowBaseMonotone(a: nat, b: nat, e: nat)
    requires a <= b
    ensures Pow(a, e) <= Pow(b, e)
    decreases e
  {
    if e > 0 {
      PowBaseMonotone(a, b, e - 1);
      MulMono(a, b, Pow(a, e - 1), Pow(b, e - 1));
    }
  }

  // ---- Products ----

  lemma MulAssoc(a: int, b: int, c: int)
    ensures (a * b) * c == a * (b * c)
  {
  }

  lemma MulSwap(a: int, b: int, c: int, d: int)
    ensures (a * b) * (c * d) == (a * c) * (b * d)
  {
    calc {
      (a * b) * (c * d);
      { MulAssoc(a, b, c * d); }
      a * (b * (c * d));
      { MulAssoc(b, c, d); MulAssoc(c, b, d); assert b * c == c * b; }
      a * (c * (b * d));
      { MulAssoc(a, c, b * d); }
      (a * c) * (b * d);
    }
  }

  /** One step of Horner's rule, multiplied out. */
  lemma MulHorner(b: int, x: int, p: int, h: int)
    ensures b * (x + p * h) == b * x + (b * p) * h
  {
    MulAssoc(b, p, h);
    assert b * (x + p * h) == b * x + b * (p * h);
  }

  lemma MulGrows(a: nat, b: nat)
    requires b > 0
    ensures a <= a * b
  {
    MulLe(1, b, a);
  }

  lemma MulLe(a: int, b: int, c: nat)
    requires a <= b
    ensures a * c <= b * c
    ensures c * a <= c * b
  {
    assert 0 <= (b - a) * c;
  }

  lemma MulLess(a: int, b: int, c: nat)
    requires a < b && c > 0
    ensures a * c < b * c
    ensures c * a < c * b
  {
    assert 0 < (b - a) * c;
  }

  lemma MulMono(a: nat, b: nat, c: nat, d: nat)
    requires a <= b && c <= d
    ensures a * c <= b * d
  {
    MulLe(a, b, c);
    MulLe(c, d, b);
  }

  /** A common positive factor cancels from an order. */
  lemma MulCancelLe(a: int, b: int, c: nat)
    requires c > 0 && a * c <= b * c
    ensures a <= b
  {
    if b < a {
      MulLess(b, a, c);
    }
  }

  lemma MulCancelLess(a: int, b: int, c: nat)
    requires a * c < b * c
    ensures a < b
  {
    if b <= a {
      MulLe(b, a, c);
    }
  }

  // ---- Quotients ----

  /** The quotient and remainder are the only pair that satisfies the division identity. */
  lemma DivUnique(n: nat, d: nat, q: int, r: int)
    requires d > 0 && n == q * d + r && 0 <= r < d
    ensures q == n / d && r == n % d
  {
    var q', r' := n / d, n % d;
    assert n == q' * d + r';
    assert (q + 1) * d == q * d + d && (q' + 1) * d == q' * d + d;
    if q < q' {
      MulLe(q + 1, q', d);
    } else if q' < q {
      MulLe(q' + 1, q, d);
    }
  }

  /** q <= n/d exactly when q*d <= n. */
  lemma DivLowerBound(n: nat, d: nat, q: nat)
    requires d > 0
    ensures q <= n / d <==> q * d <= n
  {
    var q', r' := n / d, n % d;
    assert n == q' * d + r';
    if q <= q' {
      MulLe(q, q', d);
    } else {
      MulLe(q' + 1, q, d);
      assert (q' + 1) * d == q' * d + d;
    }
  }

  /** Dividing twice is dividing by the product. */
  lemma DivDiv(n: nat, a: nat, b: nat)
    requires a > 0 && b > 0
    ensures a * b > 0
    ensures (n / a) / b == n / (a * b)
    ensures n % (a * b) == (n / a) % b * a + n % a
  {
    MulLess(0, a, b);
    var q, r := n / a, n % a;
    var q', r' := q / b, q % b;
    assert n == q * a + r && q == q' * b + r';
    RemainderFits(r', r, a, b);
    DivDivTerms(q', r', r, a, b);
    DivUnique(n, a * b, q', r' * a + r);
  }

  lemma RemainderFits(r': nat, r: nat, a: nat, b: nat)
    requires r' < b && r < a
    ensures 0 <= r' * a + r < a * b
  {
    MulLe(r' + 1, b, a);
    assert (r' + 1) * a == r' * a + a;
  }

  lemma DivDivTerms(q: int, r': int, r: int, a: int, b: int)
    ensures (q * b + r') * a + r == q * (a * b) + (r' * a + r)
  {
    assert (q * b + r') * a == (q * b) * a + r' * a;
    MulAssoc(q, b, a);
    assert b * a == a * b;
  }

  lemma DivCancel(n: nat, d: nat, c: nat)
    requires d > 0 && c > 0
    ensures d * c > 0
    ensures (n * c) / (d * c) == n / d
    ensures (n * c) % (d * c) == n % d * c
  {
    MulLess(0, d, c);
    var q, r := n / d, n % d;
    assert n == q * d + r;
    MulLess(r, d, c);
    assert n * c == q * (d * c) + r * c by {
      assert (q * d + r) * c == (q * d) * c + r * c;
      MulAssoc(q, d, c);
    }
    MulLe(0, r, c);
    DivUnique(n * c, d * c, q, r * c);
  }
}
