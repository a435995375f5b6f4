/** Factorials, falling factorials and binomial coefficients over the integers. */
module Combinatorics {

  function Factorial(n: nat): (f: nat)
    ensures f >= 1
  {
    if n == 0 then 1 else n * Factorial(n - 1)
  }

  /** n * (n-1) * ... * (n-k+1). */
  function Falling(n: int, k: nat): int {
    if k == 0 then 1 else Falling(n, k - 1) * (n - k + 1)
  }

  /** C(n, k), which is 0 when k > n. */
  function Binomial(n: nat, k: nat): nat {
    if k == 0 then 1 else if n == 0 then 0 else Binomial(n - 1, k - 1) + Binomial(n - 1, k)
  }

  lemma {:induction false} FallingHead(n: int, k: nat)
    requires k > 0
    ensures Falling(n, k) == n * Falling(n - 1, k - 1)
  {
    if k == 1 {
      assert Falling(n, 0) == 1;
    } else {
      FallingHead(n, k - 1);
      var f := Falling(n - 1, k - 2);
      assert Falling(n, k) == n * f * (n - k + 1);
      assert Falling(n - 1, k - 1) == f * (n - k + 1);
      assert n * f * (n - k + 1) == n * (f * (n - k + 1));
    }
  }

  lemma PascalStep(g: int, h: int, f: int, k: int, r: int)
    requires h * (k * f) == (g * f) * r
    ensures (g + h) * (k * f) == (k + r) * (g * f)
  {
    Associate(g, k, f);
    Associate(k, g, f);
    assert g * k == k * g;
    assert (g + h) * (k * f) == g * (k * f) + h * (k * f);
  }

  lemma Associate(a: int, b: int, c: int)
    ensures a * b * c == a * (b * c)
  {}

  /** An ordered choice of k out of n is a subset together with an ordering of it. */
  lemma {:induction false} FallingIsOrderedChoice(n: nat, k: nat)
    ensures Falling(n, k) == Binomial(n, k) * Factorial(k)
  {
    if k == 0 {
    } else if n == 0 {
      FallingHead(0, k);
    } else {
      FallingIsOrderedChoice(n - 1, k - 1);
      FallingIsOrderedChoice(n - 1, k);
      FallingHead(n, k);
      PascalStep(Binomial(n - 1, k - 1), Binomial(n - 1, k), Factorial(k - 1), k, n - k);
    }
  }

  lemma {:induction false} FactorialSplit(n: nat, k: nat)
    requires k <= n
    ensures Factorial(n) == Falling(n, k) * Factorial(n - k)
  {
    if k > 0 {
      FactorialSplit(n, k - 1);
      Associate(Falling(n, k - 1), n - k + 1, Factorial(n - k));
    }
  }

  /** n! = C(n, k) * k! * (n-k)!. */
  lemma BinomialTimesFactorials(n: nat, k: nat)
    requires k <= n
    ensures Factorial(n) == Binomial(n, k) * (Factorial(k) * Factorial(n - k))
  {
    FactorialSplit(n, k);
    FallingIsOrderedChoice(n, k);
    Associate(Binomial(n, k), Factorial(k), Factorial(n - k));
  }

  lemma {:induction false} BinomialPositive(n: nat, k: nat)
    ensures Binomial(n, k) > 0 <==> k <= n
  {
    if k > 0 && n > 0 {
      BinomialPositive(n - 1, k - 1);
      BinomialPositive(n - 1, k);
    }
  }

  lemma {:induction false} BinomialMonotone(lo: nat, hi: nat, k: nat)
    requires lo <= hi
    ensures Binomial(lo, k) <= Binomial(hi, k)
    decreases hi
  {
    if lo < hi && k > 0 {
      BinomialMonotone(lo, hi - 1, k);
    }
  }

  /** q times c, by addition. */
  ghost function Times(q: nat, c: int): int {
    if q == 0 then 0 else c + Times(q - 1, c)
  }

  lemma {:induction false} TimesIsProduct(q: nat, c: int)
    ensures Times(q, c) == q * c
  {
    if q > 0 {
      TimesIsProduct(q - 1, c);
      assert (q - 1) * c + c == q * c;
    }
  }
}
