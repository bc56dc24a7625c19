/**
How many decimal digits 2^p has, for a p that comes off the wire: a product with a
64-bit fraction of log10(2), never 2^p itself. The formula is exact for every 32-bit p,
which is what makes a literal of that many digits, plus one, determine a p-bit number.

The proof has two parts. Two fractions close to log10(2), one on each side, are
established by squaring with thirty-digit mantissas rounded outward. They are
neighbours: any fraction strictly between them has a denominator of at least the sum of
theirs, which is more than 2^32, so no k/p with a 32-bit p lies between, and the fixed-point
fraction cannot tell p * log10(2) apart from its floor wrongly.
 */
module Precision {
  import opened Powers
  import opened LimbArith

  const LOG10_OF_2: nat := 0x4d10_4d42_7de7_fbcc

  /** How many decimal digits 2^p has, by a fixed-point logarithm in 64-bit words. */
  function Pow2Digits(p: Limb): int {
    var high: U64 := p * (LOG10_OF_2 / BASE);
    var low: U64 := p * (LOG10_OF_2 % BASE);
    var sum: U64 := high + low / BASE;
    sum / BASE + 1
  }

  /** N: enough decimal digits to tell apart any two numbers of that precision. */
  function BigFloatPrecDigits(prec: Limb): int {
    Pow2Digits(prec) + 1
  }

  /** Every 32-bit p: 2^p has exactly Pow2Digits(p) decimal digits. */
  lemma Pow2DigitsExact(p: Limb)
    ensures Pow2Digits(p) >= 1
    ensures Pow(10, Pow2Digits(p) - 1) <= Pow(2, p) < Pow(10, Pow2Digits(p))
  {
    hide Pow;
    var k := Pow2Digits(p) - 1;
    FixedPoint(p);
    if p == 0 {
      PowZero();
    } else {
      AboveLower(p, k + 1);
      UpperBound(p, k + 1);
      BelowUpper(p, k);
      LowerBound(p, k);
    }
  }

  lemma PowZero()
    ensures Pow(10, 0) == 1 && Pow(2, 0) == 1 && Pow(10, 1) == 10
  {
  }

  /** The two 32-bit halves of the product add up to its top part. */
  lemma FixedPoint(p: Limb)
    ensures var k := Pow2Digits(p) - 1;
            k >= 0 && k * 0x1_0000_0000_0000_0000 <= p * LOG10_OF_2 < (k + 1) * 0x1_0000_0000_0000_0000
  {
  }

  // ---- Neighbouring fractions ----

  const LOWER_NUM: nat := 1054128743
  const LOWER_DEN: nat := 3501739887
  const UPPER_NUM: nat := 579001193
  const UPPER_DEN: nat := 1923400330

  /** A fraction with a denominator of 32 bits is at or below the one or at or above the other. */
  lemma Neighbours(k: int, p: int)
    requires 0 < p < 0x1_0000_0000
    ensures k * LOWER_DEN <= LOWER_NUM * p || k * UPPER_DEN >= UPPER_NUM * p
  {
    var x, y := k * LOWER_DEN - LOWER_NUM * p, UPPER_NUM * p - k * UPPER_DEN;
    assert UPPER_DEN * x + LOWER_DEN * y == p;
  }

  lemma AboveLower(p: Limb, k: int)
    requires p > 0 && p * LOG10_OF_2 < k * 0x1_0000_0000_0000_0000
    ensures k * UPPER_DEN >= UPPER_NUM * p
  {
    Neighbours(k, p);
  }

  lemma BelowUpper(p: Limb, k: int)
    requires p > 0 && k * 0x1_0000_0000_0000_0000 <= p * LOG10_OF_2
    ensures k * LOWER_DEN <= LOWER_NUM * p
  {
    Neighbours(k, p);
  }

  lemma {:induction false} UpperBound(p: nat, k: nat)
    requires p > 0 && k * UPPER_DEN >= UPPER_NUM * p
    ensures Pow(2, p) < Pow(10, k)
  {
    hide Pow;
    TwoBelowTen();
    var n, h := UPPER_DEN, UPPER_NUM;
    PowMul(2, n, p);
    PowMul(2, p, n);
    PowMul(10, h, p);
    PowMul(10, k, n);
    assert n * p == p * n;
    PowMonotone(10, h * p, k * n);
    PowBaseStrict(Pow(2, n), Pow(10, h), p);
    if Pow(10, k) <= Pow(2, p) {
      PowBaseMonotone(Pow(10, k), Pow(2, p), n);
    }
  }

  lemma {:induction false} LowerBound(p: nat, k: nat)
    requires k * LOWER_DEN <= LOWER_NUM * p
    ensures Pow(10, k) <= Pow(2, p)
  {
    hide Pow;
    TenBelowTwo();
    var n, h := LOWER_DEN, LOWER_NUM;
    PowMul(2, n, p);
    PowMul(2, p, n);
    PowMul(10, h, p);
    PowMul(10, k, n);
    assert n * p == p * n;
    PowMonotone(10, k * n, h * p);
    PowBaseMonotone(Pow(10, h), Pow(2, n), p);
    if Pow(2, p) < Pow(10, k) {
      PowBaseStrict(Pow(2, p), Pow(10, k), n);
    }
  }

  lemma {:induction false} PowBaseStrict(a: nat, b: nat, e: nat)
    requires a < b && e > 0
    ensures Pow(a, e) < Pow(b, e)
  {
    PowBaseMonotone(a, b, e - 1);
    MulLe(Pow(a, e - 1), Pow(b, e - 1), a);
    MulLess(a, b, Pow(b, e - 1));
  }

  // ---- The two bounds on log10(2) ----

  const UNIT: nat := 1_000_000_000_000_000_000_000_000_000_000

  /** 2^n is at most m / 10^30 * 10^a. */
  ghost predicate Upper(n: nat, a: nat, m: nat) {
    Pow(2, n) * UNIT <= m * Pow(10, a)
  }

  /** 2^n is at least m / 10^30 * 10^a. */
  ghost predicate Lower(n: nat, a: nat, m: nat) {
    m * Pow(10, a) <= Pow(2, n) * UNIT
  }

  lemma UpperStart()
    ensures Upper(1, 0, 2 * UNIT)
  {
    assert Pow(2, 1) == 2 && Pow(10, 0) == 1;
  }

  lemma LowerStart()
    ensures Lower(1, 0, 2 * UNIT)
  {
    assert Pow(2, 1) == 2 && Pow(10, 0) == 1;
  }

  /** Squaring, doubling when bit is one, and rounding the mantissa outward. */
  lemma {:induction false} UpperStep(n: nat, a: nat, m: nat, bit: nat, c: nat, m': nat)
    requires Upper(n, a, m) && bit <= 1 && c <= 2
    requires (1 + bit) * (m * m) <= m' * (UNIT * Ten(c))
    ensures Upper(2 * n + bit, 2 * a + c, m')
  {
    Squared(n, a, bit, c);
    var x, y := Pow(2, n), Pow(10, a);
    MulMono(x * UNIT, m * y, x * UNIT, m * y);
    SquareTerms(x, UNIT, bit);
    SquareTerms(y, m, bit);
    MulLe((1 + bit) * (m * m), m' * (UNIT * Ten(c)), y * y);
    MulLe((x * UNIT) * (x * UNIT), (m * y) * (m * y), 1 + bit);
    LastTerms(m', Ten(c), y);
    MulCancelLe(((1 + bit) * (x * x)) * UNIT, m' * (Ten(c) * (y * y)), UNIT);
  }

  lemma {:induction false} LowerStep(n: nat, a: nat, m: nat, bit: nat, c: nat, m': nat)
    requires Lower(n, a, m) && bit <= 1 && c <= 2
    requires m' * (UNIT * Ten(c)) <= (1 + bit) * (m * m)
    ensures Lower(2 * n + bit, 2 * a + c, m')
  {
    Squared(n, a, bit, c);
    var x, y := Pow(2, n), Pow(10, a);
    MulMono(m * y, x * UNIT, m * y, x * UNIT);
    SquareTerms(x, UNIT, bit);
    SquareTerms(y, m, bit);
    MulLe(m' * (UNIT * Ten(c)), (1 + bit) * (m * m), y * y);
    MulLe((m * y) * (m * y), (x * UNIT) * (x * UNIT), 1 + bit);
    LastTerms(m', Ten(c), y);
    MulCancelLe(m' * (Ten(c) * (y * y)), ((1 + bit) * (x * x)) * UNIT, UNIT);
  }

  function Ten(c: nat): nat {
    if c == 0 then 1 else if c == 1 then 10 else 100
  }

  lemma {:induction false} Squared(n: nat, a: nat, bit: nat, c: nat)
    requires bit <= 1 && c <= 2
    ensures Pow(2, 2 * n + bit) == (1 + bit) * (Pow(2, n) * Pow(2, n))
    ensures Pow(10, 2 * a + c) == Ten(c) * (Pow(10, a) * Pow(10, a))
  {
    PowAdd(2, n, n);
    PowAdd(2, bit, n + n);
    PowAdd(10, a, a);
    PowAdd(10, c, a + a);
    assert Pow(2, 0) == 1 && Pow(2, 1) == 2;
    assert Pow(10, 0) == 1 && Pow(10, 1) == 10 && Pow(10, 2) == 100;
  }

  lemma SquareTerms(x: nat, m: nat, bit: nat)
    ensures (x * m) * (x * m) == (x * x) * (m * m)
    ensures (m * x) * (m * x) == (m * m) * (x * x)
    ensures ((1 + bit) * (m * m)) * (x * x) == (1 + bit) * ((m * m) * (x * x))
    ensures ((1 + bit) * (x * x)) * (m * m) == (1 + bit) * ((x * x) * (m * m))
  {
    MulSwap(x, m, x, m);
    MulSwap(m, x, m, x);
    MulAssoc(1 + bit, m * m, x * x);
    MulAssoc(1 + bit, x * x, m * m);
  }

  lemma LastTerms(m: nat, t: nat, y: nat)
    ensures (m * (UNIT * t)) * (y * y) == (m * (t * (y * y))) * UNIT
  {
    MulAssoc(m, UNIT * t, y * y);
    MulAssoc(UNIT, t, y * y);
    MulAssoc(m, t * (y * y), UNIT);
  }

  lemma UpperMantissaHalf()
    ensures Upper(58697, 17669, 3611232819585179770145758350020)
  {
    hide Pow, Upper;
    UpperStart();
    UpperStep(1, 0, 2000000000000000000000000000000, 1, 0, 8000000000000000000000000000000);
    UpperStep(3, 0, 8000000000000000000000000000000, 1, 2, 1280000000000000000000000000000);
    UpperStep(7, 2, 1280000000000000000000000000000, 0, 0, 1638400000000000000000000000000);
    UpperStep(14, 4, 1638400000000000000000000000000, 0, 0, 2684354560000000000000000000000);
    UpperStep(28, 8, 2684354560000000000000000000000, 1, 1, 1441151880758558720000000000000);
    UpperStep(57, 17, 1441151880758558720000000000000, 0, 0, 2076918743413931051412198531689);
    UpperStep(114, 34, 2076918743413931051412198531689, 1, 0, 8627182933488204734293444827855);
    UpperStep(229, 68, 8627182933488204734293444827855, 0, 1, 7442828536787014559225075792789);
    UpperStep(458, 137, 7442828536787014559225075792789, 1, 2, 1107913932560222642718302084622);
    UpperStep(917, 276, 1107913932560222642718302084622, 0, 0, 1227473281961057566092779871289);
    UpperStep(1834, 552, 1227473281961057566092779871289, 0, 0, 1506690657928249929687189363388);
    UpperStep(3668, 1104, 1506690657928249929687189363388, 1, 0, 4540233477376525285405676449555);
    UpperStep(7337, 2208, 4540233477376525285405676449555, 0, 1, 2061372002909053494061343477476);
    UpperStep(14674, 4417, 2061372002909053494061343477476, 0, 0, 4249254534377282846783031685014);
    UpperStep(29348, 8834, 4249254534377282846783031685014, 1, 1, 3611232819585179770145758350020);
  }

  /** Thirty squarings: 2^1923400330 is below 9.9999999998 * 10^579001192. */
  lemma UpperMantissa()
    ensures Upper(1923400330, 579001192, 9999999999721382843736018593450)
  {
    hide Pow, Upper;
    UpperMantissaHalf();
    UpperStep(58697, 17669, 3611232819585179770145758350020, 1, 1, 2608200495449825508654582659572);
    UpperStep(117395, 35339, 2608200495449825508654582659572, 0, 0, 6802709824464715253875361541665);
    UpperStep(234790, 70678, 6802709824464715253875361541665, 0, 1, 4627686095586875702201711232926);
    UpperStep(469580, 141357, 4627686095586875702201711232926, 0, 1, 2141547859928810207848886300547);
    UpperStep(939160, 282715, 2141547859928810207848886300547, 0, 0, 4586227236365666905934943307147);
    UpperStep(1878320, 565430, 4586227236365666905934943307147, 1, 1, 4206696052716452548547817272961);
    UpperStep(3756641, 1130861, 4206696052716452548547817272961, 0, 1, 1769629167994018291935618676509);
    UpperStep(7513282, 2261723, 1769629167994018291935618676509, 1, 0, 6263174784430402827739311513967);
    UpperStep(15026565, 4523446, 6263174784430402827739311513967, 0, 1, 3922735838032482293150354979373);
    UpperStep(30053130, 9046893, 3922735838032482293150354979373, 0, 1, 1538785645498440115488369389939);
    UpperStep(60106260, 18093787, 1538785645498440115488369389939, 0, 0, 2367861262792051014459732512120);
    UpperStep(120212520, 36187574, 2367861262792051014459732512120, 1, 1, 1121353391966233294792269951634);
    UpperStep(240425041, 72375149, 1121353391966233294792269951634, 0, 0, 1257433429674176845158435881670);
    UpperStep(480850082, 144750298, 1257433429674176845158435881670, 1, 0, 3162277660124326091548925152956);
    UpperStep(961700165, 289500596, 3162277660124326091548925152956, 0, 0, 9999999999721382843736018593450);
  }

  lemma LowerMantissaHalf()
    ensures Lower(53432, 16084, 4312492153023163489560752370287)
  {
    hide Pow, Lower;
    LowerStart();
    LowerStep(1, 0, 2000000000000000000000000000000, 1, 0, 8000000000000000000000000000000);
    LowerStep(3, 0, 8000000000000000000000000000000, 0, 1, 6400000000000000000000000000000);
    LowerStep(6, 1, 6400000000000000000000000000000, 1, 1, 8192000000000000000000000000000);
    LowerStep(13, 3, 8192000000000000000000000000000, 0, 1, 6710886400000000000000000000000);
    LowerStep(26, 7, 6710886400000000000000000000000, 0, 1, 4503599627370496000000000000000);
    LowerStep(52, 15, 4503599627370496000000000000000, 0, 1, 2028240960365167042394725128601);
    LowerStep(104, 31, 2028240960365167042394725128601, 0, 0, 4113761393303015105387422956390);
    LowerStep(208, 62, 4113761393303015105387422956390, 1, 1, 3384606560206072826633806377122);
    LowerStep(417, 125, 3384606560206072826633806377122, 0, 1, 1145556156738998448176751357343);
    LowerStep(834, 251, 1145556156738998448176751357343, 1, 0, 2624597816485249559425535386757);
    LowerStep(1669, 502, 2624597816485249559425535386757, 1, 1, 1377702739659827944800382383269);
    LowerStep(3339, 1005, 1377702739659827944800382383269, 1, 0, 3796129677732391310151656304187);
    LowerStep(6679, 2010, 3796129677732391310151656304187, 0, 1, 1441060053016062910482362476524);
    LowerStep(13358, 4021, 1441060053016062910482362476524, 0, 0, 2076654076398658046262353069062);
    LowerStep(26716, 8042, 2076654076398658046262353069062, 0, 0, 4312492153023163489560752370287);
  }

  /** Thirty-one squarings: 2^3501739887 is above 1.0000000011 * 10^1054128743. */
  lemma LowerMantissa()
    ensures Lower(3501739887, 1054128743, 1000000001146417923993676194298)
  {
    hide Pow, Lower;
    LowerMantissaHalf();
    LowerStep(53432, 16084, 4312492153023163489560752370287, 0, 1, 1859758856988636014293422057452);
    LowerStep(106864, 32169, 1859758856988636014293422057452, 1, 0, 6917406012295355805725739353084);
    LowerStep(213729, 64338, 6917406012295355805725739353084, 0, 1, 4785050593893993619649990190031);
    LowerStep(427458, 128677, 4785050593893993619649990190031, 0, 1, 2289670918612526104948802861447);
    LowerStep(854916, 257355, 2289670918612526104948802861447, 1, 1, 1048518583107985828481873562156);
    LowerStep(1709833, 514711, 1048518583107985828481873562156, 1, 0, 2198782438245556369478902312613);
    LowerStep(3419667, 1029422, 2198782438245556369478902312613, 1, 0, 9669288421474147819117594327147);
    LowerStep(6839335, 2058844, 9669288421474147819117594327147, 1, 2, 1869902771553080345513942613681);
    LowerStep(13678671, 4117690, 1869902771553080345513942613681, 0, 0, 3496536375061891382630215293507);
    LowerStep(27357342, 8235380, 3496536375061891382630215293507, 1, 1, 2445153324426190313267002487780);
    LowerStep(54714685, 16470761, 2445153324426190313267002487780, 1, 1, 1195754955990490059692892609629);
    LowerStep(109429371, 32941523, 1195754955990490059692892609629, 0, 0, 1429829914775818819493114790843);
    LowerStep(218858742, 65883046, 1429829914775818819493114790843, 1, 0, 4088827170375650617025477061292);
    LowerStep(437717485, 131766092, 4088827170375650617025477061292, 1, 1, 3343701525840429959756636753383);
    LowerStep(875434971, 263532185, 3343701525840429959756636753383, 1, 1, 2236067978781523900378846479914);
    LowerStep(1750869943, 527064371, 2236067978781523900378846479914, 1, 1, 1000000001146417923993676194298);
  }

  lemma TwoBelowTen()
    ensures Pow(2, UPPER_DEN) < Pow(10, UPPER_NUM)
  {
    hide Pow;
    UpperMantissa();
    UpperEnd(UPPER_DEN, UPPER_NUM - 1, 9999999999721382843736018593450);
  }

  lemma TenBelowTwo()
    ensures Pow(10, LOWER_NUM) <= Pow(2, LOWER_DEN)
  {
    hide Pow;
    LowerMantissa();
    LowerEnd(LOWER_DEN, LOWER_NUM, 1000000001146417923993676194298);
  }

  lemma {:induction false} UpperEnd(n: nat, a: nat, m: nat)
    requires Upper(n, a, m) && m < 10 * UNIT
    ensures Pow(2, n) < Pow(10, a + 1)
  {
    MulLess(m, 10 * UNIT, Pow(10, a));
    MulCancelLess(Pow(2, n), 10 * Pow(10, a), UNIT);
  }

  lemma {:induction false} LowerEnd(n: nat, a: nat, m: nat)
    requires Lower(n, a, m) && m >= UNIT
    ensures Pow(10, a) <= Pow(2, n)
  {
    MulLe(UNIT, m, Pow(10, a));
    MulCancelLe(Pow(10, a), Pow(2, n), UNIT);
  }
}
