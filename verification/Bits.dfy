/** Bit lengths and powers of two. */
module Bits {
  import opened Powers

  /** The number of bits of n; 0 for 0. */
  function BitLength(n: nat): nat {
    if n == 0 then 0 else 1 + BitLength(n / 2)
  }

  lemma {:induction false} BitLengthBounds(n: nat)
    requires n > 0
    ensures BitLength(n) > 0
    ensures Pow(2, BitLength(n) - 1) <= n < Pow(2, BitLength(n))
    decreases n
  {
    if n > 1 {
      BitLengthBounds(n / 2);
    } else {
      assert BitLength(1) == 1 + BitLength(0);
    }
  }

  /** The bounds determine the length. */
  lemma {:induction false} BitLengthIs(n: nat, k: nat)
    requires k > 0 && Pow(2, k - 1) <= n < Pow(2, k)
    ensures BitLength(n) == k
  {
    BitLengthBounds(n);
    PowOrder(2, BitLength(n) - 1, k);
    PowOrder(2, k - 1, BitLength(n));
  }

  lemma {:induction false} BitLengthScaled(n: nat, s: nat)
    requires n > 0
    ensures BitLength(n * Pow(2, s)) == BitLength(n) + s
  {
    var k := BitLength(n);
    BitLengthBounds(n);
    PowAdd(2, k - 1, s);
    PowAdd(2, k, s);
    MulLe(Pow(2, k - 1), n, Pow(2, s));
    MulLess(n, Pow(2, k), Pow(2, s));
    BitLengthIs(n * Pow(2, s), k + s);
  }

  lemma {:induction false} BitLengthLe(n: nat, k: nat)
    requires n < Pow(2, k)
    ensures BitLength(n) <= k
  {
    if n > 0 {
      BitLengthBounds(n);
      PowOrder(2, BitLength(n) - 1, k);
    }
  }

  lemma {:induction false} BitLengthGe(n: nat, k: nat)
    requires Pow(2, k) <= n
    ensures BitLength(n) > k
  {
    BitLengthBounds(n);
    PowOrder(2, k, BitLength(n));
  }
}
