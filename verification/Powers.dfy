/** Integer powers of rationals and what is built on them (common/ethereum/util.go,
    common/ethereum/aave/aave.go, common/ethereum/chainlink/server.go). */
module Powers {
  import opened Options

  function Power(x: real, n: nat): real {
    if n == 0 then 1.0 else Power(x, n - 1) * x
  }

  lemma Nonzero(a: real, b: real)
    ensures a * b == 0.0 <==> a == 0.0 || b == 0.0
  {
    if a != 0.0 && a * b == 0.0 {
      assert b == (a * b) / a;
    }
  }

  lemma {:induction false} PowerIsZero(x: real, n: nat)
    ensures Power(x, n) == 0.0 <==> x == 0.0 && n > 0
  {
    if n > 0 {
      PowerIsZero(x, n - 1);
      Nonzero(Power(x, n - 1), x);
    }
  }

  /** x to any integer power, for x other than zero. */
  function IntPower(x: real, n: int): real
    requires x != 0.0 || n >= 0
  {
    if n >= 0 then Power(x, n) else (PowerIsZero(x, -n); 1.0 / Power(x, -n))
  }

  lemma Invert(x: real, p: real)
    requires x != 0.0 && p != 0.0
    ensures p * x != 0.0 && 1.0 / p == (1.0 / (p * x)) * x
  {
    Nonzero(p, x);
    assert (1.0 / (p * x)) * x == x / (p * x);
    assert (x / (p * x)) * p == (x * p) / (p * x) == 1.0;
  }

  /** The two laws that make IntPower the power: each exponent takes one more factor, above and below 0. */
  lemma IntPowerSteps(x: real, n: int)
    requires x != 0.0
    ensures IntPower(x, 0) == 1.0 && IntPower(x, n + 1) == IntPower(x, n) * x
  {
    if n < 0 {
      PowerIsZero(x, -n - 1);
      PowerIsZero(x, -n);
      Invert(x, Power(x, -n - 1));
    }
  }

  /** None where inverting zero panics. */
  method BigPow(left: real, count: int) returns (r: Option<real>)
    ensures r.None? <==> left == 0.0 && count < 0
    ensures r.Some? ==> r.value == IntPower(left, count)
  {
    if count == 0 {
      return Some(1.0);
    }
    var leftCopy := left;
    assert left == Power(left, 0) * left == Power(left, 1);
    if count > 0 {
      for i := 1 to count
        invariant leftCopy == Power(left, i)
      {
        leftCopy := leftCopy * left;
      }
    } else {
      var i := -1;
      while i > count
        invariant count <= i <= -1 && leftCopy == Power(left, -i)
      {
        leftCopy := leftCopy * left;
        i := i - 1;
      }
      PowerIsZero(left, -count);
      if leftCopy == 0.0 {
        return None;
      }
      leftCopy := 1.0 / leftCopy;
    }
    return Some(leftCopy);
  }

  // ---- compounding

  const DAYS := 365
  const RAY := 1_000_000_000_000_000_000_000_000_000.0

  lemma Nonnegative(a: real, b: real)
    requires a >= 0.0 && b >= 0.0
    ensures a * b >= 0.0
    ensures a > 0.0 && b > 0.0 ==> a * b > 0.0
  {}

  lemma BernoulliStep(p: real, r: real, n: real)
    requires r >= 0.0 && n >= 0.0 && p >= 1.0 + n * r
    ensures p * (1.0 + r) >= 1.0 + (n + 1.0) * r
    ensures n > 0.0 && r > 0.0 ==> p * (1.0 + r) > 1.0 + (n + 1.0) * r
  {
    var nr := n * r;
    Nonnegative(n, r);
    Nonnegative(nr, r);
    Nonnegative(p - (1.0 + nr), 1.0 + r);
    assert (p - (1.0 + nr)) * (1.0 + r) == p * (1.0 + r) - 1.0 - r - nr - nr * r;
    assert (n + 1.0) * r == nr + r;
  }

  /** Bernoulli's inequality, strict beyond one period. */
  lemma {:induction false} Bernoulli(r: real, n: nat)
    requires r >= 0.0
    ensures Power(1.0 + r, n) >= 1.0 + n as real * r
    ensures n >= 2 && r > 0.0 ==> Power(1.0 + r, n) > 1.0 + n as real * r
  {
    if n > 0 {
      Bernoulli(r, n - 1);
      var m := (n - 1) as real;
      BernoulliStep(Power(1.0 + r, n - 1), r, m);
      assert n as real == m + 1.0;
      assert n as real * r == (m + 1.0) * r;
      assert n >= 2 ==> m > 0.0;
    }
  }

  lemma {:induction false} PowerOfOne(n: nat)
    ensures Power(1.0, n) == 1.0
  {
    if n > 0 {
      PowerOfOne(n - 1);
    }
  }

  /** The yearly yield of a lending pool whose rate is given in rays: at least the rate itself, and more
      unless there is none. */
  method GetTokenApy(liquidityRate: nat) returns (apy: real)
    ensures apy == Power(1.0 + (liquidityRate as real / RAY) / DAYS as real, DAYS) - 1.0
    ensures apy >= liquidityRate as real / RAY
    ensures apy == liquidityRate as real / RAY <==> liquidityRate == 0
  {
    var depositAPR := liquidityRate as real / RAY;
    var aprPerDay := depositAPR / DAYS as real;
    var compoundedApr := BigPow(1.0 + aprPerDay, DAYS);
    apy := compoundedApr.value - 1.0;
    Bernoulli(aprPerDay, DAYS);
    assert DAYS as real * aprPerDay == depositAPR;
    assert aprPerDay > 0.0 <==> liquidityRate > 0;
    PowerOfOne(DAYS);
  }

  // ---- the cache of price feed decimals

  /** The server of scales; the feeds' decimals do not change. */
  class DecimalsServer {
    var cache: map<string, real>
    ghost const decimals: string -> nat

    ghost predicate Valid()
      reads this
    {
      forall feed :: feed in cache ==> cache[feed] == Power(10.0, decimals(feed))
    }

    constructor (ghost decimals: string -> nat)
      ensures Valid() && cache == map[] && this.decimals == decimals
    {
      this.decimals, cache := decimals, map[];
    }

    /** `reply` is what the feed answers when it is asked: None for an error, which ends the process. */
    method Serve(feed: string, reply: Option<nat>) returns (scale: Option<real>)
      requires Valid() && (reply.Some? ==> reply.value == decimals(feed))
      modifies this
      ensures Valid()
      ensures scale.None? <==> feed !in old(cache) && reply.None?
      ensures scale.Some? ==> scale.value == Power(10.0, decimals(feed))
      ensures cache == if feed !in old(cache) && reply.Some? then old(cache)[feed := Power(10.0, decimals(feed))]
        else old(cache)
    {
      if feed in cache {
        return Some(cache[feed]);
      }
      if reply.None? {
        return None;
      }
      scale := BigPow(10.0, reply.value);
      cache := cache[feed := scale.value];
    }
  }
}
