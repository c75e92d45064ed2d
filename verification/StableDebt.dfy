/**
 Interest on stable debt: the growth factor of (1 + x)^n is approximated by the first four
 terms of its binomial expansion, with the half-up roundings of ray arithmetic carried out
 on unrounded numbers.  All arithmetic is over the reals.
 */
module StableDebt {
  const SECONDS_PER_YEAR: real := 31536000.0
  const RAY: real := 1000000000000000000000000000.0

  function RayMul(a: real, b: real): real {
    (a * b + RAY / 2.0) / RAY
  }

  function RayDiv(a: real, b: real): real
    requires b != 0.0
  {
    (a * RAY + b / 2.0) / b
  }

  /** Without integer division the roundings stay: every product is half a unit too large. */
  lemma RayMulAddsHalf(a: real, b: real)
    ensures RayMul(a, b) == a * b / RAY + 0.5
  {
  }

  /** Scaling down and up again by an index drifts by half a unit for each step. */
  lemma ScaledRoundTrip(a: real, index: real)
    requires index != 0.0
    ensures RayMul(RayDiv(a, index), index) == a + (index / RAY + 1.0) / 2.0
  {
    assert RayDiv(a, index) * index == a * RAY + index / 2.0;
  }

  const RAY_UNITS: int := 1_000_000_000_000_000_000_000_000_000

  /** Division towards zero. */
  function Truncated(n: int, d: int): int
    requires d != 0
  {
    var (top, bottom) := (if n < 0 then -n else n, if d < 0 then -d else d);
    if (n < 0) == (d < 0) then top / bottom else -(top / bottom)
  }

  /** The integer versions that the code keeps as comments. */
  function IntRayMul(a: int, b: int): int {
    Truncated(a * b + RAY_UNITS / 2, RAY_UNITS)
  }

  function IntRayDiv(a: int, b: int): int
    requires b != 0
  {
    Truncated(a * RAY_UNITS + Truncated(b, 2), b)
  }

  predicate HalfAtMost(e: int, d: int) {
    -d < 2 * e <= d
  }

  /** Adding half the divisor before truncating rounds to the nearest number, halves up. */
  lemma RoundsToNearest(n: int, d: int)
    requires n >= 0 && d > 0
    ensures var q := Truncated(n + d / 2, d);
      q >= 0 && HalfAtMost(q * d - n, d)
  {
    var q, rest := (n + d / 2) / d, (n + d / 2) % d;
    assert n + d / 2 == q * d + rest;
  }

  /** On integers the half unit does what it is for: products and quotients are rounded to the nearest. */
  lemma IntRayIsNearest(a: int, b: int)
    requires a >= 0 && b >= 0
    ensures HalfAtMost(IntRayMul(a, b) * RAY_UNITS - a * b, RAY_UNITS)
    ensures b > 0 ==> IntRayDiv(a, b) >= 0 && HalfAtMost(IntRayDiv(a, b) * b - a * RAY_UNITS, b)
  {
    assert a * b >= 0;
    RoundsToNearest(a * b, RAY_UNITS);
    if b > 0 {
      RoundsToNearest(a * RAY_UNITS, b);
    }
  }

  /** One is neutral on integers, exactly for amounts that are not negative; on reals it never is. */
  lemma RayIsNeutralOnIntegers(a: int)
    ensures IntRayMul(a, RAY_UNITS) == a <==> a >= 0
    ensures RayMul(a as real, RAY) != a as real && RAY_UNITS as real == RAY
  {
    if a >= 0 {
      var q := IntRayMul(a, RAY_UNITS);
      RoundsToNearest(a * RAY_UNITS, RAY_UNITS);
      Between(q - a);
    } else {
      NegativeDrifts(-a);
    }
    RayMulAddsHalf(a as real, RAY);
    OneIsNeutral(a as real);
  }

  lemma OneIsNeutral(a: real)
    ensures a * RAY / RAY == a
  {
  }

  lemma Between(d: int)
    requires HalfAtMost(d * RAY_UNITS, RAY_UNITS)
    ensures d == 0
  {
  }

  lemma NegativeDrifts(a: int)
    requires a > 0
    ensures IntRayMul(-a, RAY_UNITS) == 1 - a
  {
    var n := a * RAY_UNITS - RAY_UNITS / 2;
    assert n == (a - 1) * RAY_UNITS + RAY_UNITS / 2;
    assert n / RAY_UNITS == a - 1;
  }

  /** Scaling down and up again on integers drifts by no more than the same on reals does always. */
  lemma IntScaledRoundTrip(a: int, index: int)
    requires a >= 0 && index > 0
    ensures var back := IntRayMul(IntRayDiv(a, index), index);
      -(index + RAY_UNITS) < 2 * RAY_UNITS * (back - a) <= index + RAY_UNITS
  {
    var scaled := IntRayDiv(a, index);
    IntRayIsNearest(a, index);
    IntRayIsNearest(scaled, index);
  }

  /** The compounded interest in rays after `exp` seconds, step by step as the contract computes it. */
  function CompoundedInterest(rate: real, exp: int): real {
    var expMinusOne := (exp - 1) as real;
    var expMinusTwo := if exp > 2 then (exp - 2) as real else 0.0;
    var n := exp as real;
    var ratePerSecond := rate / SECONDS_PER_YEAR;
    var basePowerTwo := RayMul(ratePerSecond, ratePerSecond);
    var basePowerThree := RayMul(basePowerTwo, ratePerSecond);
    var secondTerm := n * expMinusOne * basePowerTwo / 2.0;
    var thirdTerm := n * expMinusOne * expMinusTwo * basePowerThree / 6.0;
    RAY + ratePerSecond * n + secondTerm + thirdTerm
  }

  /** The new balance, and by how much it grew. */
  function StableDebtChange(amount: real, rate: real, time: int, timeBefore: int): (real, real) {
    var balance := RayMul(amount, CompoundedInterest(rate, time - timeBefore));
    (balance, balance - amount)
  }

  /** The rate per second as a plain number. */
  function PerSecond(rate: real): real {
    rate / SECONDS_PER_YEAR / RAY
  }

  /** Rates are per year of 365 days, in units of 10^-27. */
  lemma YearlyRate(rate: real)
    ensures PerSecond(rate) * 31536000.0 == rate / 1000000000000000000000000000.0
  {
  }

  function Factor(rate: real, n: int): real {
    CompoundedInterest(rate, n) / RAY
  }

  /** Binomial coefficients. */
  function Choose2(n: nat): real {
    n as real * (n - 1) as real / 2.0
  }

  function Choose3(n: nat): real {
    n as real * (n - 1) as real * (n - 2) as real / 6.0
  }

  function Choose4(n: nat): real {
    n as real * (n - 1) as real * (n - 2) as real * (n - 3) as real / 24.0
  }

  lemma Pascal(n: nat)
    ensures Choose2(n + 1) == Choose2(n) + n as real
    ensures Choose3(n + 1) == Choose3(n) + Choose2(n)
    ensures Choose4(n + 1) == Choose4(n) + Choose3(n)
  {
    var r := n as real;
    assert (n + 1) as real == r + 1.0 && (n - 1) as real == r - 1.0;
    assert (n - 2) as real == r - 2.0 && (n - 3) as real == r - 3.0;
  }

  lemma {:induction false} ChooseNonNegative(n: nat)
    ensures Choose2(n) >= 0.0 && Choose3(n) >= 0.0 && Choose4(n) >= 0.0
  {
    if n > 0 {
      ChooseNonNegative(n - 1);
      Pascal(n - 1);
    }
  }

  function Terms(x: real, c1: real, c2: real, c3: real): real {
    1.0 + c1 * x + c2 * (x * x) + c3 * (x * x * x)
  }

  /** The first four terms of the expansion of (1 + x)^n. */
  function Expansion(x: real, n: nat): real {
    Terms(x, n as real, Choose2(n), Choose3(n))
  }

  function Fourth(x: real): real {
    x * x * x * x
  }

  function Power(b: real, n: nat): real {
    if n == 0 then 1.0 else b * Power(b, n - 1)
  }

  /** What the two half-unit roundings add. */
  function RoundingSlack(x: real, n: nat): real {
    Slack(x, Choose2(n), Choose3(n))
  }

  function Slack(x: real, c2: real, c3: real): real {
    (c2 / 2.0 + c3 * (1.0 + x) / 2.0) / RAY
  }

  lemma Regroup(a: real, b: real)
    ensures a * b / 2.0 == a / 2.0 * b && a * b / 6.0 == a / 6.0 * b
  {
  }

  /** The cut-off of `expMinusTwo` makes no difference to the third term. */
  lemma ThirdCoefficient(n: nat)
    ensures n as real * (n - 1) as real * (if n > 2 then (n - 2) as real else 0.0) / 6.0 == Choose3(n)
  {
    if n <= 2 {
      assert n == 0 || n == 1 || n == 2;
    }
  }

  /** Principal and the three terms of interest, in rays. */
  function Weighted(r: real, n: real, c2: real, c3: real, two: real, three: real): real {
    RAY + r * n + c2 * two + c3 * three
  }

  lemma InterestByTerms(rate: real, n: nat)
    ensures var r := rate / SECONDS_PER_YEAR;
      CompoundedInterest(rate, n)
      == Weighted(r, n as real, Choose2(n), Choose3(n), RayMul(r, r), RayMul(RayMul(r, r), r))
  {
    var r := rate / SECONDS_PER_YEAR;
    ThirdCoefficient(n);
    Regroup(n as real * (n - 1) as real, RayMul(r, r));
    Regroup(n as real * (n - 1) as real * (if n > 2 then (n - 2) as real else 0.0), RayMul(RayMul(r, r), r));
    hide RayMul, Choose3;
  }

  /** The square of a rate in rays, and its cube, as ray arithmetic rounds them. */
  function SquareInRays(x: real): real {
    RAY * (x * x) + 0.5
  }

  function CubeInRays(x: real): real {
    RAY * (x * x * x) + x / 2.0 + 0.5
  }

  lemma RateInRays(rate: real)
    ensures rate / SECONDS_PER_YEAR == PerSecond(rate) * RAY
  {
  }

  /** The factor is the expansion plus the roundings, exactly. */
  lemma FactorIsExpansion(rate: real, n: nat)
    ensures Factor(rate, n) == Expansion(PerSecond(rate), n) + RoundingSlack(PerSecond(rate), n)
  {
    hide RayMul, Choose2, Choose3, CompoundedInterest, PerSecond, Weighted, SquareInRays, CubeInRays, Terms, Slack;
    var x, r := PerSecond(rate), rate / SECONDS_PER_YEAR;
    RateInRays(rate);
    PowersInRays(r, x);
    InterestByTerms(rate, n);
    SumOfTerms(n as real, Choose2(n), Choose3(n), r, x);
  }

  lemma PowersInRays(r: real, x: real)
    requires r == x * RAY
    ensures RayMul(r, r) == SquareInRays(x)
    ensures RayMul(RayMul(r, r), r) == CubeInRays(x)
  {
    assert r * r / RAY == RAY * (x * x);
    assert (RAY * (x * x) + 0.5) * r / RAY == RAY * (x * x * x) + x / 2.0;
  }

  lemma SumOfTerms(n: real, c2: real, c3: real, r: real, x: real)
    requires r == x * RAY
    ensures Weighted(r, n, c2, c3, SquareInRays(x), CubeInRays(x)) / RAY == Terms(x, n, c2, c3) + Slack(x, c2, c3)
  {
    assert c2 * SquareInRays(x) == RAY * (c2 * (x * x)) + c2 / 2.0;
    assert c3 * CubeInRays(x) == RAY * (c3 * (x * x * x)) + c3 * (1.0 + x) / 2.0;
    assert r * n == RAY * (n * x);
  }

  /** One more second multiplies the expansion by 1 + x, less the term that is cut off. */
  lemma ExpansionStep(x: real, n: nat)
    ensures Expansion(x, n + 1) == (1.0 + x) * Expansion(x, n) - Choose3(n) * Fourth(x)
  {
    hide Choose2, Choose3, Choose4, Terms, Fourth;
    Pascal(n);
    assert (n + 1) as real == n as real + 1.0;
    StepAlgebra(x, n as real, Choose2(n), Choose3(n), Expansion(x, n), Expansion(x, n + 1));
  }

  lemma Times(x: real, n: real, c2: real, c3: real, e: real)
    requires e == Terms(x, n, c2, c3)
    ensures x * e == x + n * (x * x) + c2 * (x * x * x) + c3 * Fourth(x)
  {
  }

  lemma StepAlgebra(x: real, n: real, c2: real, c3: real, e: real, next: real)
    requires e == Terms(x, n, c2, c3) && next == Terms(x, n + 1.0, c2 + n, c3 + c2)
    ensures next == (1.0 + x) * e - c3 * Fourth(x)
  {
    Times(x, n, c2, c3, e);
    hide Fourth;
    assert (1.0 + x) * e == e + x * e;
    assert (n + 1.0) * x == n * x + x;
    assert (c2 + n) * (x * x) == c2 * (x * x) + n * (x * x);
    assert (c3 + c2) * (x * x * x) == c3 * (x * x * x) + c2 * (x * x * x);
  }

  lemma {:induction false} PowerAtLeastOne(x: real, n: nat)
    requires x >= 0.0
    ensures Power(1.0 + x, n) >= 1.0
  {
    if n > 0 {
      PowerAtLeastOne(x, n - 1);
    }
  }

  /**
   How good the four terms are: never more than the true power, and less by at most the
   next binomial term scaled by the power itself.
   */
  lemma {:induction false} ExpansionAccuracy(x: real, n: nat)
    requires x >= 0.0
    ensures Expansion(x, n) <= Power(1.0 + x, n)
    ensures Power(1.0 + x, n) - Expansion(x, n) <= Choose4(n) * Fourth(x) * Power(1.0 + x, n)
  {
    if n > 0 {
      hide Expansion, Choose2, Choose3, Choose4, Fourth;
      var k := n - 1;
      ExpansionAccuracy(x, k);
      ExpansionStep(x, k);
      ChooseNonNegative(k);
      Pascal(k);
      PowerAtLeastOne(x, n);
      FourthPower(x);
      AccuracyStep(1.0 + x, Power(1.0 + x, k), Expansion(x, k), Choose3(k), Choose4(k), Fourth(x));
    }
  }

  lemma FourthPower(x: real)
    ensures Fourth(x) >= 0.0
  {
    assert x * x >= 0.0;
    assert Fourth(x) == (x * x) * (x * x);
  }

  lemma AccuracyStep(b: real, p: real, e: real, c3: real, c4: real, x4: real)
    requires b >= 1.0 && x4 >= 0.0 && c3 >= 0.0 && c4 >= 0.0 && b * p >= 1.0
    requires e <= p && p - e <= c4 * x4 * p
    ensures b * e - c3 * x4 <= b * p
    ensures b * p - (b * e - c3 * x4) <= (c4 + c3) * x4 * (b * p)
  {
    assert b * (p - e) >= 0.0;
    assert b * (p - e) <= b * (c4 * x4 * p);
    assert c3 * x4 >= 0.0;
    assert c3 * x4 <= c3 * x4 * (b * p);
  }

  /** The factor lies between the expansion and the true compound growth plus the roundings. */
  lemma FactorBounds(rate: real, n: nat)
    requires rate >= 0.0
    ensures var x := PerSecond(rate);
      && 1.0 + n as real * x <= Factor(rate, n)
      && Factor(rate, n) <= Power(1.0 + x, n) + RoundingSlack(x, n)
      && Factor(rate, n) >= Power(1.0 + x, n) * (1.0 - Choose4(n) * Fourth(x))
  {
    var x := PerSecond(rate);
    FactorIsExpansion(rate, n);
    assert x >= 0.0;
    hide PerSecond, Factor;
    ExpansionAccuracy(x, n);
    ExpansionAtLeast(x, n);
    SlackNonNegative(x, n);
    hide Expansion, RoundingSlack, Power, Choose4, Fourth;
    TakeOut(Power(1.0 + x, n), Choose4(n) * Fourth(x));
  }

  lemma TakeOut(p: real, t: real)
    ensures p * (1.0 - t) == p - t * p
  {
  }

  lemma ExpansionAtLeast(x: real, n: nat)
    requires x >= 0.0
    ensures 1.0 + n as real * x <= Expansion(x, n)
  {
    ChooseNonNegative(n);
    hide Choose2, Choose3, Choose4;
    assert Choose2(n) * (x * x) >= 0.0;
    assert x * x * x >= 0.0;
    assert Choose3(n) * (x * x * x) >= 0.0;
  }

  lemma SlackNonNegative(x: real, n: nat)
    requires x >= 0.0
    ensures RoundingSlack(x, n) >= 0.0
  {
    ChooseNonNegative(n);
    assert Choose3(n) * (1.0 + x) >= 0.0;
  }

  lemma ExpansionGrows(x: real, n: nat)
    requires x >= 0.0
    ensures Expansion(x, n) <= Expansion(x, n + 1)
    ensures RoundingSlack(x, n) <= RoundingSlack(x, n + 1)
  {
    hide Choose2, Choose3, Choose4, Terms, Slack;
    Pascal(n);
    ChooseNonNegative(n);
    assert (n + 1) as real == n as real + 1.0;
    GrowthAlgebra(x, n as real, Choose2(n), Choose3(n));
  }

  lemma GrowthAlgebra(x: real, n: real, c2: real, c3: real)
    requires x >= 0.0 && n >= 0.0 && c2 >= 0.0 && c3 >= 0.0
    ensures Terms(x, n, c2, c3) <= Terms(x, n + 1.0, c2 + n, c3 + c2)
    ensures Slack(x, c2, c3) <= Slack(x, c2 + n, c3 + c2)
  {
    MoreTimes(n, 1.0, x);
    NonNegativeProduct(x, x);
    MoreTimes(c2, n, x * x);
    NonNegativeProduct(x * x, x);
    MoreTimes(c3, c2, x * x * x);
    MoreTimes(c3, c2, 1.0 + x);
  }

  lemma MoreTimes(a: real, b: real, y: real)
    requires b >= 0.0 && y >= 0.0
    ensures a * y <= (a + b) * y
  {
    NonNegativeProduct(b, y);
    assert (a + b) * y == a * y + b * y;
  }

  /** A debt that is left alone longer never owes less. */
  lemma {:induction false} FactorGrows(rate: real, n: nat, k: nat)
    requires rate >= 0.0 && n <= k
    ensures Factor(rate, n) <= Factor(rate, k)
    decreases k
  {
    if n < k {
      FactorGrows(rate, n, k - 1);
      FactorIsExpansion(rate, k - 1);
      FactorIsExpansion(rate, k);
      assert PerSecond(rate) >= 0.0;
      hide PerSecond, Factor, Expansion, RoundingSlack;
      ExpansionGrows(PerSecond(rate), k - 1);
    }
  }

  /** In ray arithmetic the balance is scaled by the factor, plus half a unit. */
  lemma BalanceIsScaled(amount: real, rate: real, time: int, timeBefore: int)
    ensures StableDebtChange(amount, rate, time, timeBefore).0 == amount * Factor(rate, time - timeBefore) + 0.5
  {
    var c := CompoundedInterest(rate, time - timeBefore);
    hide CompoundedInterest;
    RayMulAddsHalf(amount, c);
    hide RayMul;
    Scaled(amount, c);
  }

  function SimpleInterest(amount: real, rate: real, n: nat): real {
    amount * (n as real * PerSecond(rate))
  }

  /** The balance grows at least by simple interest and half a unit, which is all it does in no time at all. */
  lemma BalanceGrows(amount: real, rate: real, time: int, timeBefore: int)
    requires amount >= 0.0 && rate >= 0.0 && time >= timeBefore
    ensures StableDebtChange(amount, rate, time, timeBefore).1 >= SimpleInterest(amount, rate, time - timeBefore) + 0.5
    ensures time == timeBefore ==> StableDebtChange(amount, rate, time, timeBefore) == (amount + 0.5, 0.5)
  {
    var change := StableDebtChange(amount, rate, time, timeBefore);
    assert change.1 == change.0 - amount;
    hide PerSecond, RoundingSlack, Factor, StableDebtChange, SimpleInterest;
    BalanceIsScaled(amount, rate, time, timeBefore);
    FactorIsEnough(amount, rate, time - timeBefore, change.0);
    if time == timeBefore {
      NoTime(rate);
    }
  }

  /** A debt of 1000 at ten per cent is above 1100 after a year of seconds. */
  lemma YearOfInterest(timeBefore: int)
    ensures StableDebtChange(1000.0, 100000000000000000000000000.0, timeBefore + 31536000, timeBefore).0 >= 1100.0
  {
    var rate := 100000000000000000000000000.0;
    YearlyRate(rate);
    BalanceGrows(1000.0, rate, timeBefore + 31536000, timeBefore);
    assert StableDebtChange(1000.0, rate, timeBefore + 31536000, timeBefore).1
        == StableDebtChange(1000.0, rate, timeBefore + 31536000, timeBefore).0 - 1000.0;
    hide PerSecond, StableDebtChange;
  }

  lemma FactorIsEnough(amount: real, rate: real, n: nat, balance: real)
    requires amount >= 0.0 && rate >= 0.0 && balance == amount * Factor(rate, n) + 0.5
    ensures balance - amount >= SimpleInterest(amount, rate, n) + 0.5
  {
    hide PerSecond, Factor;
    FactorAtLeast(rate, n);
    AtLeastScaled(amount, Factor(rate, n), n as real * PerSecond(rate), balance - amount);
  }

  lemma FactorAtLeast(rate: real, n: nat)
    requires rate >= 0.0
    ensures 1.0 + n as real * PerSecond(rate) <= Factor(rate, n)
  {
    FactorBounds(rate, n);
  }

  lemma Scaled(a: real, c: real)
    ensures a * c / RAY == a * (c / RAY)
  {
  }

  lemma AtLeastScaled(a: real, f: real, y: real, change: real)
    requires a >= 0.0 && 1.0 + y <= f && change == a * f - a + 0.5
    ensures change >= a * y + 0.5
  {
    NonNegativeProduct(a, f - 1.0 - y);
    assert a * (f - 1.0 - y) == a * f - a - a * y;
  }

  lemma NonNegativeProduct(a: real, b: real)
    requires a >= 0.0 && b >= 0.0
    ensures a * b >= 0.0
  {
  }

  lemma NoTime(rate: real)
    ensures Factor(rate, 0) == 1.0
  {
  }
}
