/** The transfer reward function (common/calculation/probability/probability.go), over exact rationals. */
module Rewards {
  import opened Combinatorics
  import opened Draws
  import opened RandomIntegers
  import opened UniformDraws

  // ---- probability of a tier

  function Probability(m: nat, n: nat, b: nat): real
    requires b <= m <= n
  {
    BinomialPositive(n, m);
    (Binomial(m, b) * Binomial(n - m, m - b)) as real / Binomial(n, m) as real
  }

  method NaiveIsWinning(balls: Draw) returns (matched: nat)
    ensures matched == Matches(balls, |balls|)
  {
    matched := 0;
    for i := 0 to |balls|
      invariant matched == Matches(balls[..i], |balls|)
    {
      assert balls[..i + 1][..i] == balls[..i];
      if balls[i] <= |balls| {
        matched := matched + 1;
      }
    }
    assert balls[..|balls|] == balls;
  }

  lemma CrossMultiply(a: real, b: real, c: real, d: real)
    requires b > 0.0 && d > 0.0 && a * d == c * b
    ensures a / b == c / d
  {
    assert a / b == (a * d) / (b * d);
    assert c / d == (c * b) / (d * b);
  }

  /** The fraction of all draws of m balls from n that match exactly b. */
  lemma ProbabilityIsFractionOfDraws(m: nat, n: nat, b: nat)
    requires b <= m <= n
    ensures |All(n, m)| > 0
    ensures Probability(m, n, b) == |Matching(n, m, m, b)| as real / |All(n, m)| as real
  {
    BinomialPositive(n, m);
    WinningSize(m, n, b);
    AllSize(n, m);
    var w, t, f := Binomial(m, b) * Binomial(n - m, m - b), Binomial(n, m), Factorial(m);
    assert t * f > 0;
    Cancel(w, t, f);
  }

  lemma Cancel(w: nat, t: nat, f: nat)
    requires t > 0 && f > 0
    ensures t * f > 0
    ensures w as real / t as real == (w * f) as real / (t * f) as real
  {
    assert t * f > 0;
    CastProduct(w, f);
    CastProduct(t, f);
    var a, b, c := w as real, t as real, f as real;
    assert a * (b * c) == (a * c) * b;
    CrossMultiply(a, b, a * c, b * c);
  }

  lemma CastProduct(a: int, b: int)
    ensures (a * b) as real == a as real * b as real
  {}

  /** Over all candidate streams of a given length after which RandomIntegers(m, 1, n) has
      returned, the fraction whose draw NaiveIsWinning scores b is Probability(m, n, b). */
  lemma ProbabilityIsExactChance(m: nat, n: nat, b: nat, length: nat)
    requires b <= m <= n && n > 0 && m <= length
    ensures |LeadingInto(n, m, All(n, m), length)| > 0
    ensures |LeadingInto(n, m, Matching(n, m, m, b), length)| as real / |LeadingInto(n, m, All(n, m), length)| as real
         == Probability(m, n, b)
  {
    ProbabilityIsFractionOfDraws(m, n, b);
    forall s | s in All(n, m) ensures |s| == m && IsDraw(s, n) { AllIsEveryDraw(n, m, s); }
    LeadingIntoSize(n, m, All(n, m), length);
    LeadingIntoSize(n, m, Matching(n, m, m, b), length);
    WaysPositive(n, 0, m, length);
    var w := Ways(n, 0, m, length);
    TimesIsProduct(|All(n, m)|, w);
    TimesIsProduct(|Matching(n, m, m, b)|, w);
    Cancel(|Matching(n, m, m, b)|, |All(n, m)|, w);
  }

  function ProbabilitySum(m: nat, n: nat, top: nat): real
    requires top <= m <= n
  {
    Probability(m, n, top) + if top == 0 then 0.0 else ProbabilitySum(m, n, top - 1)
  }

  lemma {:induction false} ProbabilitySumIsClassSum(m: nat, n: nat, top: nat)
    requires top <= m <= n
    ensures |All(n, m)| > 0
    ensures ProbabilitySum(m, n, top) == ClassSum(All(n, m), m, top) as real / |All(n, m)| as real
  {
    ProbabilityIsFractionOfDraws(m, n, top);
    if top > 0 {
      ProbabilitySumIsClassSum(m, n, top - 1);
      AddFractions(|Matching(n, m, m, top)|, ClassSum(All(n, m), m, top - 1), |All(n, m)|);
    }
  }

  lemma AddFractions(a: nat, b: nat, d: nat)
    requires d > 0
    ensures (a + b) as real / d as real == a as real / d as real + b as real / d as real
  {}

  /** The chances of matching 0, 1, .., m balls add up to 1 (Vandermonde's identity). */
  lemma ProbabilitiesSumToOne(m: nat, n: nat)
    requires m <= n
    ensures ProbabilitySum(m, n, m) == 1.0
  {
    ProbabilitySumIsClassSum(m, n, m);
    ClassesPartition(All(n, m), m, m);
    assert HavingUpTo(All(n, m), m, m) == All(n, m) by {
      forall s | s in All(n, m) ensures Matches(s, m) <= m { AllIsEveryDraw(n, m, s); }
    }
    SelfFraction(|All(n, m)|);
  }

  lemma SelfFraction(d: nat)
    requires d > 0
    ensures d as real / d as real == 1.0
  {}

  /** A tier is impossible exactly when the other balls cannot all miss. */
  lemma ProbabilityZero(m: nat, n: nat, b: nat)
    requires b <= m <= n
    ensures Probability(m, n, b) >= 0.0
    ensures Probability(m, n, b) != 0.0 <==> m - b <= n - m
  {
    BinomialPositive(n, m);
    BinomialPositive(m, b);
    BinomialPositive(n - m, m - b);
    var c, d := Binomial(m, b), Binomial(n - m, m - b);
    assert d == 0 ==> c * d == 0;
    assert d > 0 ==> c * d > 0;
    FractionSign(c * d, Binomial(n, m));
  }

  lemma FractionSign(a: nat, d: nat)
    requires d > 0
    ensures a as real / d as real >= 0.0
    ensures a as real / d as real == 0.0 <==> a == 0
  {
    assert a as real / d as real * d as real == a as real;
  }

  // ---- how many balls to draw from

  const MAX_ITERATIONS := 1000

  /** NegativeFactorial and GaveUp are the two panics. */
  datatype BallCount = NegativeFactorial | GaveUp | Balls(n: nat)

  /** n is the least count from m up for which one more ball makes C(n+1, m) reach the target. */
  ghost predicate IsLeastCount(n: nat, m: nat, target: real) {
    && m <= n
    && Binomial(n + 1, m) as real >= target
    && AllBelow(n, m, target)
  }

  ghost predicate AllBelow(n: nat, m: nat, target: real) {
    forall k: nat {:trigger Binomial(k, m)} :: m < k <= n ==> (Binomial(k, m) as real) < target
  }

  /** m! * r!. */
  ghost function Denominator(m: nat, r: nat): (d: nat)
    ensures d > 0
  {
    if r == 0 then Factorial(m) else r * Denominator(m, r - 1)
  }

  /** The loop's p after reaching n = m + r: the target times m! * r!. */
  ghost function Scaled(target: real, m: nat, r: nat): real {
    if r == 0 then target * Factorial(m) as real else Scaled(target, m, r - 1) * r as real
  }

  lemma {:induction false} DenominatorIsProduct(m: nat, r: nat)
    ensures Denominator(m, r) == Factorial(m) * Factorial(r)
  {
    if r > 0 {
      DenominatorIsProduct(m, r - 1);
      Associate(r, Factorial(m), Factorial(r - 1));
      Associate(Factorial(m), r, Factorial(r - 1));
    }
  }

  lemma {:induction false} ScaledIsProduct(target: real, m: nat, r: nat)
    ensures Scaled(target, m, r) == target * Denominator(m, r) as real
  {
    if r > 0 {
      ScaledIsProduct(target, m, r - 1);
      CastProduct(r, Denominator(m, r - 1));
      Regroup(target, Denominator(m, r - 1) as real, r as real);
    }
  }

  lemma FactorialOverDenominator(n: nat, m: nat, d: nat)
    requires m <= n && d == Denominator(m, n - m)
    ensures Factorial(n) == Binomial(n, m) * d
  {
    BinomialTimesFactorials(n, m);
    DenominatorIsProduct(m, n - m);
  }

  lemma GuardMeaning(n: nat, m: nat, target: real)
    requires m <= n
    ensures Factorial(n) as real < Scaled(target, m, n - m) <==> Binomial(n, m) as real < target
  {
    var d, p := Denominator(m, n - m), Scaled(target, m, n - m);
    assert p == target * d as real by { ScaledIsProduct(target, m, n - m); }
    assert Factorial(n) == Binomial(n, m) * d by { FactorialOverDenominator(n, m, d); }
    GuardAlgebra(Factorial(n), Binomial(n, m), d, target, p);
  }

  lemma GuardAlgebra(f: nat, c: nat, d: nat, target: real, p: real)
    requires f == c * d && d > 0 && p == target * d as real
    ensures f as real < p <==> c as real < target
  {
    CastProduct(c, d);
    CancelFactor(c as real, target, d as real);
  }

  lemma CancelFactor(a: real, x: real, d: real)
    requires d > 0.0
    ensures a * d < x * d <==> a < x
  {
    if a < x { assert (x - a) * d > 0.0; } else { assert (a - x) * d >= 0.0; }
  }

  lemma Regroup(a: real, b: real, c: real)
    ensures a * (b * c) == a * b * c
  {}

  lemma ScaledStart(m: nat, atx: real, payoutFreq: real)
    ensures payoutFreq * (atx * (Factorial(m) as real * Factorial(1) as real)) == Scaled(payoutFreq * atx, m, 1)
  {
    assert Factorial(1) == 1;
    Regroup(payoutFreq, atx, Factorial(m) as real);
  }

  lemma FactorialStep(n: nat)
    ensures Factorial(n + 1) as real == Factorial(n) as real * (n + 1) as real
  {
    CastProduct(n + 1, Factorial(n));
  }

  method CalculateN(winningClasses: int, atx: real, payoutFreq: real) returns (o: BallCount)
    ensures o.NegativeFactorial? <==> winningClasses < 0
    ensures o.GaveUp? <==> && winningClasses >= 0
                           && payoutFreq * atx > Binomial(winningClasses + MAX_ITERATIONS, winningClasses) as real
    ensures o.Balls? ==> && IsLeastCount(o.n, winningClasses, payoutFreq * atx)
                         && o.n < winningClasses + MAX_ITERATIONS
  {
    hide Factorial, Binomial;
    var m := winningClasses;
    if m < 0 {
      return NegativeFactorial;
    }
    var n, i := m + 1, 1;
    ghost var target := payoutFreq * atx;
    var factorialN := Factorial(n) as real;
    var factorial := Factorial(m) as real * Factorial(n - m) as real;
    var p := payoutFreq * (atx * factorial);
    assert p == Scaled(target, m, 1) by { ScaledStart(m, atx, payoutFreq); }
    while factorialN < p
      invariant 1 <= i <= MAX_ITERATIONS && n == m + i
      invariant factorialN == Factorial(n) as real && p == Scaled(target, m, n - m)
      invariant AllBelow(n - 1, m, target)
      decreases MAX_ITERATIONS - i
    {
      assert AllBelow(n, m, target) by { GuardMeaning(n, m, target); }
      i := i + 1;
      if i > MAX_ITERATIONS {
        return GaveUp;
      }
      FactorialStep(n);
      n := n + 1;
      p := p * (n - m) as real;
      factorialN := factorialN * n as real;
    }
    assert Binomial(n, m) as real >= target by { GuardMeaning(n, m, target); }
    BinomialMonotone(n, m + MAX_ITERATIONS, m);
    return Balls(n - 1);
  }

  /** Drawing from the chosen count never trips the range guard, and returns m distinct balls in 1..n. */
  method DrawBalls(m: nat, n: nat, entropy: seq<nat>) returns (o: Outcome)
    requires m <= n < UINT32_SIZE
    requires n > 0 ==> Within(entropy, 1, n)
    requires n == 0 ==> entropy == []
    ensures o.Starved? || o.Drawn?
    ensures o.Drawn? ==> o.numbers in All(n, m)
  {
    o := RandomIntegers.RandomIntegers(m, 1, n, entropy);
    assert Span(1, n) == n;
    if o.Drawn? {
      AllIsEveryDraw(n, m, o.numbers);
    }
  }
}
